/** Local netlink ports: the 1024-bit map of used ports, its allocator, and the sockets that own them. */
module LocalPorts {
  import opened Arithmetic
  import opened Errors

  // ----- bitmap words

  /** A 32-bit word of the map as its bits, bit 0 first. */
  type Word = w: seq<bool> | |w| == 32 witness seq(32, i => false)

  const ALL_ONES: Word := seq(32, i => true)
  const ZERO: Word := seq(32, i => false)

  function And(v: Word, w: Word): Word { seq(32, i requires 0 <= i < 32 => v[i] && w[i]) }

  function Not(w: Word): Word { seq(32, i requires 0 <= i < 32 => !w[i]) }

  const U32: nat := 0x1_0000_0000
  /** A port is a process id in the low 22 bits and a bit number in the upper ten. */
  const PORT_UNIT: nat := 0x40_0000

  function Nr(port: nat): nat { port / PORT_UNIT }

  // ----- the two walks of generate_local_port

  /**
   * The block visited at step j when the walk starts from block index i: 7 further each time, modulo 31, block 0
   * last.
   */
  function BlockAt(i: nat, j: nat): (b: nat)
    ensures b < 32
  {
    if j == 31 then 0 else (i + 6 + 7 * j) % 31 + 1
  }

  /** The step at which block b is visited; 9 is the inverse of 7 modulo 31. */
  function BlockTurn(i: nat, b: nat): (j: nat)
    ensures j < 32
  {
    if b == 0 then 31 else (9 * (b - 1 - i - 6)) % 31
  }

  /** From every start the walk over the blocks is a bijection on 0..31, and block 0 comes last. */
  lemma BlockWalkVisitsEachOnce(i: nat, j: nat, b: nat)
    requires j < 32 && b < 32
    ensures BlockAt(i, BlockTurn(i, b)) == b && BlockTurn(i, BlockAt(i, j)) == j
    ensures BlockAt(i, j) == 0 <==> j == 31
  {
    BlockOfTurn(i, b);
    TurnOfBlock(i, j);
  }

  lemma BlockOfTurn(i: nat, b: nat)
    requires b < 32
    ensures BlockAt(i, BlockTurn(i, b)) == b
  {
    if b != 0 {
      var x := 9 * (b - 1 - i - 6);
      var q, j := x / 31, x % 31;
      assert x == 31 * q + j;
      DivModIs(i + 6 + 7 * j, 31, 2 * (b - 1 - i - 6) - 7 * q, b - 1);
    }
  }

  lemma TurnOfBlock(i: nat, j: nat)
    requires j < 32
    ensures BlockTurn(i, BlockAt(i, j)) == j
  {
    if j != 31 {
      var x := i + 6 + 7 * j;
      var q, b := x / 31, x % 31;
      assert x == 31 * q + b;
      DivModIs(9 * (b - i - 6), 31, 2 * j - 9 * q, j);
    }
  }

  /** The bit tried at step m when the walk over a block starts from n: 13 further each time, modulo 32. */
  function BitAt(n: nat, m: nat): (b: nat)
    ensures b < 32
  {
    (n + 13 + 13 * m) % 32
  }

  /** The step at which bit b is tried; 5 is the inverse of 13 modulo 32. */
  function BitTurn(n: nat, b: nat): (m: nat)
    ensures m < 32
  {
    (5 * (b - n - 13)) % 32
  }

  /** From every start the walk over the bits is a bijection on 0..31. */
  lemma BitWalkVisitsEachOnce(n: nat, m: nat, b: nat)
    requires m < 32 && b < 32
    ensures BitAt(n, BitTurn(n, b)) == b && BitTurn(n, BitAt(n, m)) == m
  {
    BitOfTurn(n, b);
    TurnOfBit(n, m);
  }

  lemma BitOfTurn(n: nat, b: nat)
    requires b < 32
    ensures BitAt(n, BitTurn(n, b)) == b
  {
    var x := 5 * (b - n - 13);
    var q, m := x / 32, x % 32;
    assert x == 32 * q + m;
    DivModIs(n + 13 + 13 * m, 32, 2 * (b - n - 13) - 13 * q, b);
  }

  lemma TurnOfBit(n: nat, m: nat)
    requires m < 32
    ensures BitTurn(n, BitAt(n, m)) == m
  {
    var y := n + 13 + 13 * m;
    var r, b := y / 32, y % 32;
    assert y == 32 * r + b;
    DivModIs(5 * (b - n - 13), 32, 2 * m - 5 * r, m);
  }

  /** A socket: the port id in s_local, the flag NL_OWN_PORT, and the descriptor. */
  class Sock {
    var pid: nat
    var ownPort: bool
    var fd: int
    var proto: int

    constructor ()
      ensures pid == 0 && ownPort && fd == -1
    {
      pid, ownPort, fd, proto := 0, true, -1, 0;
    }
  }

  datatype BindResult = Bound | AddrInUse | BindError(err: int)

  lemma BindErrorsAreNegative(k: Kernel, i: nat)
    requires k.Lawful() && k.binds(i).BindError?
    ensures k.binds(i).err < 0
  {
  }

  datatype NameResult = Name(pid: nat) | NameError(err: int)

  /** What the kernel answers during one nl_connect; errors are negative libnl codes. */
  datatype Kernel = Kernel(fd: int, socketErr: int, bufferErr: int, binds: nat -> BindResult, name: NameResult)
  {
    ghost predicate Lawful() {
      && socketErr < 0 && bufferErr <= 0
      && (forall i: nat :: binds(i).BindError? ==> binds(i).err < 0)
      && (if name.Name? then name.pid < U32 else name.err < 0)
    }
  }

  /** What SO_PROTOCOL says of a descriptor. */
  datatype Protocol = Detected(protocol: int) | Unsupported | ProtocolError(err: int)

  /**
   * What the kernel says of a descriptor handed to nl_socket_set_fd; netlink is false for a foreign or misfit
   * address.
   */
  datatype FdFacts = FdFacts(name: NameResult, netlink: bool, typeErr: int, raw: bool, protocol: Protocol)
  {
    ghost predicate Lawful() {
      && (if name.Name? then name.pid < U32 else name.err < 0)
      && typeErr <= 0 && (protocol.ProtocolError? ==> protocol.err < 0)
    }
  }

  /** A call on the socket the which-th call allocated, with what the environment contributes to it. */
  datatype Call =
    | Alloc
    | Free(which: nat)
    | Get(which: nat, seed: nat)
    | Set(which: nat, port: nat)
    | Connect(which: nat, protocol: int, k: Kernel, seeds: nat -> nat)
    | Close(which: nat)
    | SetFd(which: nat, protocol: int, fd: int, facts: FdFacts)
  {
    ghost predicate Lawful() {
      && (SetFd? ==> facts.Lawful())
      && (Get? ==> seed < 0x1_0000)
      && (Set? ==> port < U32)
      && (Connect? ==> k.Lawful() && forall i :: seeds(i) < 0x1_0000)
    }
  }

  /** Which calls allocated a socket that no later call freed. */
  function LiveAfter(calls: seq<Call>): set<nat> {
    if calls == [] then {}
    else
      var n := |calls| - 1;
      var live := LiveAfter(calls[..n]);
      if calls[n].Alloc? then live + {n} else if calls[n].Free? then live - {calls[n].which} else live
  }

  lemma OneLess(live: map<nat, Sock>, n: nat)
    requires n in live && forall m | m in live && m != n :: live[m] != live[n]
    ensures (live - {n}).Values == live.Values - {live[n]}
  {
    var less := live - {n};
    forall sk | sk in live.Values && sk != live[n]
      ensures sk in less.Values
    {
      var m :| m in live && live[m] == sk;
      assert m in less && less[m] == sk;
    }
  }

  lemma OneMore(live: map<nat, Sock>, n: nat, sk: Sock)
    requires n !in live
    ensures live[n := sk].Values == live.Values + {sk}
  {
    var more := live[n := sk];
    forall t | t in live.Values
      ensures t in more.Values
    {
      var m :| m in live && live[m] == t;
      assert m in more && more[m] == t;
    }
    assert n in more && more[n] == sk;
  }

  /** One process: the map, the allocator's index state, and the live sockets. */
  class Process {
    const portsMap: array<Word>
    var idxState: nat
    const pid: nat
    ghost var socks: set<Sock>
    /** Which socket a port number was allocated for. */
    ghost var owner: map<nat, Sock>

    ghost function Used(): set<nat>
      reads this, portsMap
      requires portsMap.Length == 32
    {
      BitsOf(portsMap[..])
    }

    /**
     * Every owner without NL_OWN_PORT is the recorded owner of its port's number, and the
     * numbers recorded are the set bits, apart from those put aside in rejected.
     */
    ghost predicate Accounts(owners: set<Sock>, rejected: set<nat>)
      reads this, portsMap, owners
    {
      portsMap.Length == 32 && idxState < 0x1_0000 && pid < PORT_UNIT && Books(owners, rejected, Used())
    }

    /** The same for a given set of used numbers. */
    ghost predicate Books(owners: set<Sock>, rejected: set<nat>, used: set<nat>)
      reads this`owner, owners
    {
      && (forall s | s in owners :: s.pid < U32)
      && (forall s | s in owners && !s.ownPort :: 0 < s.pid && Nr(s.pid) in owner && owner[Nr(s.pid)] == s)
      && (forall n | n in owner :: owner[n] in owners && !owner[n].ownPort && Nr(owner[n].pid) == n)
      && used == owner.Keys + rejected && owner.Keys !! rejected
    }

    /** The number of the socket's port is recorded as its own. */
    ghost method Record(sk: Sock, rejected: set<nat>, used: set<nat>)
      requires Books(socks - {sk}, rejected, used) && sk in socks
      requires !sk.ownPort && 0 < sk.pid < U32 && Nr(sk.pid) !in used
      modifies this`owner
      ensures Books(socks, rejected, used + {Nr(sk.pid)})
    {
      hide Nr;
      owner := owner[Nr(sk.pid) := sk];
    }

    /** A socket without a port of its own needs no entry. */
    lemma Unrecorded(sk: Sock, rejected: set<nat>, used: set<nat>)
      requires Books(socks - {sk}, rejected, used) && sk in socks && sk.ownPort && sk.pid < U32
      ensures Books(socks, rejected, used)
    {
      hide Nr;
    }

    ghost predicate Valid()
      reads this, portsMap, socks
    {
      Accounts(socks, {})
    }

    /** The set bits are exactly the numbers of the sockets without NL_OWN_PORT, all distinct. */
    lemma UsedAreOwned()
      requires Valid()
      ensures Used() == set s | s in socks && !s.ownPort :: Nr(s.pid)
      ensures forall s, t | s in socks && t in socks && !s.ownPort && !t.ownPort && s != t :: Nr(s.pid) != Nr(t.pid)
    {
      forall n | n in Used()
        ensures n in set s | s in socks && !s.ownPort :: Nr(s.pid)
      {
        assert owner[n] in socks;
      }
    }

    constructor (pid: nat)
      ensures Valid() && socks == {} && fresh(portsMap)
    {
      this.portsMap := new Word[32](i => ZERO);
      this.idxState := 0;
      this.pid := pid % PORT_UNIT;
      this.socks := {};
      this.owner := map[];
    }

    /** The clock gives seed, a 16-bit value that restarts the walk whenever the index state is zero. */
    method GenerateLocalPort(seed: nat) returns (port: nat)
      requires portsMap.Length == 32 && idxState < 0x1_0000 && pid < PORT_UNIT && seed < 0x1_0000
      modifies this`idxState, portsMap
      ensures idxState < 0x1_0000 && idxState == if old(idxState) == 0 then seed else (old(idxState) + 20011) % 0x1_0000
      ensures port == 0 <==> AllUsed(old(Used()))
      ensures port == 0 ==> Used() == old(Used())
      ensures port != 0 ==> port < U32 && Nr(port) !in old(Used()) && Used() == old(Used()) + {Nr(port)}
      ensures port != 0 ==> port == Nr(port) * PORT_UNIT + pid || (port == 1024 && pid == 0)
      ensures port != 0 ==> FirstInOrder(idxState, Nr(port), old(Used()))
      ensures port != 0 && Nr(port) < 32 ==> forall n | 32 <= n < 1024 :: n in old(Used())
    {
      hide FirstInOrder, BitAt, BitTurn, BitsOf;
      if idxState == 0 {
        idxState := seed;
      } else {
        idxState := (idxState + 20011) % 0x1_0000;
      }
      ghost var idx := idxState;
      ghost var start := idxState / 32;
      var i := idxState / 32;
      var j := 0;
      while j < 32
        invariant 0 <= j <= 32
        invariant i == if j == 0 then start else BlockAt(start, j - 1)
        invariant forall k | 0 <= k < j :: portsMap[BlockAt(start, k)] == ALL_ONES
        invariant portsMap[..] == old(portsMap[..]) && idxState == idx < 0x1_0000
      {
        i := if j == 31 then 0 else (i - 1 + 7) % 31 + 1;
        BlockStep(start, j);
        if portsMap[i] != ALL_ONES {
          var n := TakeBit(i, idxState);
          FirstFree(old(portsMap[..]), idx, j, n);
          n := n + i * 32;
          port := pid + n * PORT_UNIT;
          PortNumber(pid, n);
          assert 0 <= n < 1024 && n !in old(Used());
          if i == 0 { BlocksUsed(old(portsMap[..]), start); }
          return if port != 0 then port else 1024;
        }
        j := j + 1;
      }
      AllBlocksUsed(old(portsMap[..]), start);
      return 0;
    }

    /** The inner loop over a block that is not full, and the bit it sets. */
    method TakeBit(i: nat, idx: nat) returns (n: nat)
      requires portsMap.Length == 32 && i < 32 && portsMap[i] != ALL_ONES
      modifies portsMap
      ensures n < 32 && !old(portsMap[i])[n] && i * 32 + n !in old(Used()) && Used() == old(Used()) + {i * 32 + n}
      ensures forall m | 0 <= m < BitTurn(idx, n) :: old(portsMap[i])[BitAt(idx, m)]
    {
      n := FindClearBit(portsMap[i], idx);
      portsMap[i] := portsMap[i][n := true];
      SetOneBit(old(portsMap[..]), i, n);
      assert portsMap[..] == old(portsMap[..])[i := old(portsMap[i])[n := true]];
    }

    method ReleaseLocalPort(port: nat)
      requires portsMap.Length == 32 && port < U32
      // The two BUG_ON conditions, which every caller rules out.
      requires port != 0 && Nr(port) in Used()
      modifies portsMap
      ensures Used() == old(Used()) - {Nr(port)}
    {
      var nr := Nr(port);
      ClearOneBit(portsMap[..], nr / 32, nr % 32);
      portsMap[nr / 32] := portsMap[nr / 32][nr % 32 := false];
      assert portsMap[..] == old(portsMap[..])[nr / 32 := old(portsMap[nr / 32])[nr % 32 := false]];
    }

    /** _nl_socket_used_ports_release_all: clears the bits collected in usedPorts. */
    method ReleaseAll(usedPorts: array<Word>)
      requires portsMap.Length == 32 && usedPorts.Length == 32 && usedPorts != portsMap
      // The BUG_ON condition, which the caller rules out.
      requires BitsOf(usedPorts[..]) <= Used()
      modifies portsMap
      ensures Used() == old(Used()) - BitsOf(usedPorts[..])
    {
      var i := 0;
      while i < 32 && usedPorts[i] == ZERO
        invariant 0 <= i <= 32
        invariant forall k | 0 <= k < i :: usedPorts[k] == ZERO
      {
        i := i + 1;
      }
      ghost var first := i;
      while i < 32
        invariant first <= i <= 32
        invariant forall k | i <= k < 32 :: portsMap[k] == old(portsMap[k])
        invariant forall k | 0 <= k < i :: portsMap[k] == And(old(portsMap[k]), Not(usedPorts[k]))
      {
        AllSet(old(portsMap[..]), usedPorts[..], i);
        assert And(portsMap[i], usedPorts[i]) == usedPorts[i];
        portsMap[i] := And(portsMap[i], Not(usedPorts[i]));
        i := i + 1;
      }
    }

    /** __alloc_socket, as far as ports go. */
    method AllocSocket() returns (sk: Sock)
      requires Valid()
      modifies this`socks
      ensures Valid() && fresh(sk) && socks == old(socks) + {sk}
      ensures sk.pid == 0 && sk.ownPort && sk.fd == -1
    {
      sk := new Sock();
      socks := socks + {sk};
    }

    method FreeSocket(sk: Sock)
      requires Valid() && sk in socks
      modifies this`socks, this`owner, portsMap
      ensures Valid() && socks == old(socks) - {sk}
      ensures Used() == if sk.ownPort then old(Used()) else old(Used()) - {Nr(sk.pid)}
    {
      if !sk.ownPort {
        ReleaseLocalPort(sk.pid);
        owner := owner - {Nr(sk.pid)};
      }
      socks := socks - {sk};
    }

    method GetLocalPort(sk: Sock, seed: nat) returns (port: nat)
      requires Valid() && sk in socks && seed < 0x1_0000
      modifies this`idxState, this`owner, portsMap, sk`pid, sk`ownPort
      ensures Valid() && port == sk.pid && port != 0
      ensures old(sk.pid) != 0 ==> port == old(sk.pid) && sk.ownPort == old(sk.ownPort) && Used() == old(Used())
      ensures old(sk.pid) == 0 && !AllUsed(old(Used())) ==> !sk.ownPort && Nr(port) !in old(Used())
      ensures old(sk.pid) == 0 && AllUsed(old(Used())) ==> sk.ownPort && port == U32 - 1
    {
      hide BitsOf, Nr, AllUsed;
      if sk.pid == 0 {
        Unspecified(sk);
        ghost var used := Used();
        sk.pid := GenerateLocalPort(seed);
        assert Books(socks - {sk}, {}, used);
        if sk.pid == 0 {
          sk.pid := U32 - 1;
          sk.ownPort := true;
          Unrecorded(sk, {}, used);
        } else {
          sk.ownPort := false;
          Record(sk, {}, used);
        }
      }
      return sk.pid;
    }

    method SetLocalPort(sk: Sock, port: nat)
      requires Valid() && sk in socks && port < U32
      modifies this`owner, portsMap, sk`pid, sk`ownPort
      ensures Valid() && sk.pid == port && sk.ownPort
      ensures Used() == if old(sk.ownPort) then old(Used()) else old(Used()) - {Nr(old(sk.pid))}
    {
      if !sk.ownPort {
        ReleaseLocalPort(sk.pid);
        owner := owner - {Nr(sk.pid)};
      }
      sk.ownPort := true;
      sk.pid := port;
    }

    /**
     * _nl_socket_set_local_port_no_release: takes a new port, or none, without giving back
     * the old one, which the caller has put aside.
     */
    method SetLocalPortNoRelease(sk: Sock, generateOther: bool, seed: nat, ghost rejected: set<nat>) returns (port: nat)
      requires Accounts(socks - {sk}, rejected) && sk in socks && seed < 0x1_0000
      modifies this`idxState, this`owner, portsMap, sk`pid, sk`ownPort
      ensures Accounts(socks, rejected)
      ensures port == sk.pid && (sk.ownPort <==> port == 0)
      ensures port != 0 ==> Nr(port) !in old(Used()) && Used() == old(Used()) + {Nr(port)}
      ensures port == 0 ==> Used() == old(Used())
      ensures port == 0 <==> !generateOther || AllUsed(old(Used()))
    {
      hide BitsOf, Nr, AllUsed;
      ghost var used := Used();
      if generateOther {
        port := GenerateLocalPort(seed);
      } else {
        port := 0;
      }
      sk.pid := port;
      assert Books(socks - {sk}, rejected, used);
      if port == 0 {
        sk.ownPort := true;
        Unrecorded(sk, rejected, used);
      } else {
        sk.ownPort := false;
        Record(sk, rejected, used);
      }
    }

    /** The number a socket holds from the allocator, if any. */
    ghost function NumberOf(sk: Sock): set<nat>
      reads sk
    {
      if sk.ownPort then {} else {Nr(sk.pid)}
    }

    /** Writing s_fd and s_proto leaves the port accounts alone. */
    method SetDescriptor(sk: Sock, fd: int, proto: int)
      requires Valid() && sk in socks
      modifies sk`fd, sk`proto
      ensures Valid() && Used() == old(Used()) && NumberOf(sk) == old(NumberOf(sk))
      ensures sk.fd == fd && sk.proto == proto
    {
      sk.fd, sk.proto := fd, proto;
    }

    /** A rejected port stays in the map, but no longer belongs to its socket. */
    ghost method PutAside(sk: Sock, rejected: set<nat>)
      requires Accounts(socks, rejected) && sk in socks && !sk.ownPort
      modifies this`owner
      ensures Accounts(socks - {sk}, rejected + {Nr(sk.pid)}) && Used() == old(Used())
    {
      owner := owner - {Nr(sk.pid)};
    }

    /** All ports put aside are given back. */
    method ReleaseRejected(usedPorts: array<Word>)
      requires usedPorts.Length == 32 && usedPorts != portsMap && Accounts(socks, BitsOf(usedPorts[..]))
      modifies portsMap
      ensures Valid() && Used() == old(Used()) - BitsOf(usedPorts[..])
    {
      ReleaseAll(usedPorts);
    }

    lemma Unspecified(sk: Sock)
      requires Valid() && sk in socks && sk.pid == 0
      ensures sk.ownPort && Accounts(socks - {sk}, {})
    {
    }

    lemma InMap(sk: Sock, rejected: set<nat>)
      requires Accounts(socks, rejected) && sk in socks
      ensures portsMap.Length == 32 && idxState < 0x1_0000 && pid < PORT_UNIT && sk.pid < U32
      ensures !sk.ownPort ==> sk.pid != 0 && Nr(sk.pid) in Used() && Nr(sk.pid) !in rejected
    {
    }

    /**
     * nl_connect. However the kernel answers the bind attempts, every rejected port is given
     * back: the ports of the other sockets stay, and at most one is held for sk.
     */
    method Connect(sk: Sock, protocol: int, k: Kernel, seeds: nat -> nat) returns (err: int, ghost tries: nat)
      requires Valid() && sk in socks && k.Lawful() && forall i :: seeds(i) < 0x1_0000
      modifies this`idxState, this`owner, portsMap, sk
      ensures Valid() && Used() - NumberOf(sk) == old(Used() - NumberOf(sk))
      ensures old(sk.fd) != -1 ==>
        err == -NLE_BAD_SOCK && sk.fd == old(sk.fd) && sk.pid == old(sk.pid) && sk.ownPort == old(sk.ownPort)
      ensures old(sk.fd) == -1 ==> err <= 0 && (err < 0 ==> sk.fd == -1)
      ensures err == 0 ==> k.name.Name? && sk.pid == k.name.pid && sk.fd == k.fd && sk.proto == protocol
      ensures old(sk.fd) == -1 && k.fd < 0 ==> err == k.socketErr && tries == 0
      ensures old(sk.fd) == -1 && k.fd >= 0 && k.bufferErr < 0 ==> err == k.bufferErr && tries == 0
      ensures old(sk.fd) == -1 && k.fd >= 0 && k.bufferErr == 0 ==>
        && Attempts(k, tries, if old(sk.pid) == 0 then OwnPorts(old(Used())) else 0)
        && err == match k.binds(tries - 1)
             case AddrInUse => -6
             case BindError(e) => e
             case Bound => if k.name.NameError? then k.name.err else 0
    {
      hide BitsOf, Nr, AllUsed, Accounts;
      InMap(sk, {});
      tries := 0;
      if sk.fd != -1 {
        return -NLE_BAD_SOCK, 0;
      }
      SetDescriptor(sk, k.fd, sk.proto);
      if sk.fd < 0 {
        err := k.socketErr;
      } else if k.bufferErr < 0 {
        err := k.bufferErr;
      } else {
        err, tries := BindAndName(sk, k, seeds);
        if err == 0 {
          SetDescriptor(sk, sk.fd, protocol);
          return;
        }
      }
      SetDescriptor(sk, -1, sk.proto);
    }

    /** nl_connect between opening the descriptor and storing the address read back. */
    method BindAndName(sk: Sock, k: Kernel, seeds: nat -> nat) returns (err: int, ghost tries: nat)
      requires Valid() && sk in socks && k.Lawful() && forall i :: seeds(i) < 0x1_0000
      modifies this`idxState, this`owner, portsMap, sk`pid, sk`ownPort
      ensures Valid() && Used() - NumberOf(sk) == old(Used() - NumberOf(sk))
      ensures err <= 0 && (err == 0 ==> k.name.Name? && sk.pid == k.name.pid)
      ensures Attempts(k, tries, if old(sk.pid) == 0 then OwnPorts(old(Used())) else 0)
      ensures err == match k.binds(tries - 1)
        case AddrInUse => -6
        case BindError(e) => e
        case Bound => if k.name.NameError? then k.name.err else 0
    {
      hide BitsOf, Nr, AllUsed, Accounts, OwnPorts, AllInUse;
      NoneInUse(k);
      InMap(sk, {});
      var tryBind := true;
      var bindNo := 0;
      if sk.pid == 0 {
        Unspecified(sk);
        tryBind, bindNo, err := BindFreshPort(sk, k, seeds);
        tries := bindNo;
        if err < 0 {
          return;
        }
      }
      if tryBind {
        tries := bindNo + 1;
        match k.binds(bindNo)
        case Bound =>
        case AddrInUse => return -NLE_EXIST, tries; // EADDRINUSE
        case BindError(e) =>
          BindErrorsAreNegative(k, bindNo);
          return e, tries;
      }
      match k.name
      case NameError(e) => return e, tries;
      case Name(p) =>
        InMap(sk, {});
        if sk.pid != p {
          SetLocalPort(sk, p);
        }
        return 0, tries;
    }

    /** One pass of the retry loop: take a port, bind it, and put it aside if it is in use elsewhere. */
    method TryPort(sk: Sock, seed: nat, outcome: BindResult, usedPorts: array<Word>, ghost rejected: set<nat>)
      returns (port: nat)
      requires Accounts(socks - {sk}, rejected) && sk in socks && seed < 0x1_0000
      requires usedPorts.Length == 32 && usedPorts != portsMap && BitsOf(usedPorts[..]) == rejected
      modifies this`idxState, this`owner, portsMap, usedPorts, sk`pid, sk`ownPort
      ensures portsMap.Length == 32 && port == sk.pid && (port == 0 <==> sk.ownPort) && port < U32
      ensures port == 0 <==> AllUsed(old(Used()))
      ensures port == 0 ==> Used() == old(Used())
      ensures port != 0 ==> Nr(port) !in old(Used()) && Used() == old(Used()) + {Nr(port)}
      ensures var r := if port != 0 && outcome.AddrInUse? then rejected + {Nr(port)} else rejected;
        BitsOf(usedPorts[..]) == r && Accounts(if port != 0 && outcome.AddrInUse? then socks - {sk} else socks, r)
    {
      hide BitsOf, Nr, AllUsed, Accounts;
      port := SetLocalPortNoRelease(sk, true, seed, rejected);
      InMap(sk, rejected);
      if port != 0 && outcome.AddrInUse? {
        UsedPortsSet(usedPorts, port);
        PutAside(sk, rejected);
      }
    }

    /** What the retry loop ends with. */
    ghost predicate LoopEnds(sk: Sock, k: Kernel, used: set<nat>, tryBind: bool, bindNo: nat, err: int)
      reads sk
    {
      && err <= 0 && (tryBind && err == 0 ==> sk.pid == 0)
      && (tryBind && err == 0 ==> bindNo == OwnPorts(used) && AllInUse(k, bindNo))
      && (!tryBind || err < 0 ==> 0 < bindNo <= OwnPorts(used) && AllInUse(k, bindNo - 1))
      && (!tryBind ==> err == 0 && sk.pid != 0 && !sk.ownPort && k.binds(bindNo - 1).Bound?)
      && (err < 0 ==> k.binds(bindNo - 1) == BindError(err) && sk.pid != 0 && !sk.ownPort)
    }

    /** The retry loop of nl_connect for a socket whose port is unspecified. */
    method BindFreshPort(sk: Sock, k: Kernel, seeds: nat -> nat) returns (tryBind: bool, bindNo: nat, err: int)
      requires Valid() && sk in socks && sk.pid == 0 && k.Lawful() && forall i :: seeds(i) < 0x1_0000
      modifies this`idxState, this`owner, portsMap, sk`pid, sk`ownPort
      ensures Valid() && Used() - NumberOf(sk) == old(Used())
      ensures LoopEnds(sk, k, old(Used()), tryBind, bindNo, err)
    {
      hide BitsOf, Nr, AllUsed, Accounts, Kernel.Lawful, OwnPorts, AllInUse, LoopEnds;
      Unspecified(sk);
      InMap(sk, {});
      var usedPorts := new Word[32](i => ZERO);
      NoBits(usedPorts[..]);
      tryBind, bindNo, err := TryPorts(sk, k, seeds, usedPorts);
      ReleaseRejected(usedPorts);
    }

    /** The loop itself; the rejected ports are collected in usedPorts. */
    method TryPorts(sk: Sock, k: Kernel, seeds: nat -> nat, usedPorts: array<Word>)
      returns (tryBind: bool, bindNo: nat, err: int)
      requires Accounts(socks - {sk}, {}) && sk in socks && k.Lawful() && forall i :: seeds(i) < 0x1_0000
      requires usedPorts.Length == 32 && usedPorts != portsMap && BitsOf(usedPorts[..]) == {}
      modifies this`idxState, this`owner, portsMap, sk`pid, sk`ownPort, usedPorts
      ensures portsMap.Length == 32 && Accounts(socks, BitsOf(usedPorts[..]))
      ensures Used() - NumberOf(sk) - BitsOf(usedPorts[..]) == old(Used())
      ensures LoopEnds(sk, k, old(Used()), tryBind, bindNo, err)
    {
      hide BitsOf, Nr, AllUsed, Accounts, Kernel.Lawful, OwnPorts, AllInUse, Collected, LoopEnds;
      NoneInUse(k);
      InPart(sk);
      ghost var was := Used();
      NoneCollected(was);
      var done := false;
      tryBind, bindNo, err := true, 0, 0;
      while !done
        invariant portsMap.Length == 32
        invariant if done then LoopEnds(sk, k, was, tryBind, bindNo, err) && GivesBack(sk, was, usedPorts)
                  else MayTry(sk, k, was, bindNo, usedPorts)
        decreases !done, 6 - bindNo
      {
        done, tryBind, bindNo, err := TryOnce(sk, k, seeds(bindNo + 1), bindNo, usedPorts, was);
      }
    }

    /** The rejected ports are put aside, and with the socket's own they are all that came to was. */
    ghost predicate GivesBack(sk: Sock, was: set<nat>, usedPorts: array<Word>)
      reads this, portsMap, socks, sk, usedPorts
    {
      && portsMap.Length == usedPorts.Length == 32 && Accounts(socks, BitsOf(usedPorts[..]))
      && Used() - NumberOf(sk) - BitsOf(usedPorts[..]) == was
    }

    /** After n rejected ports, all still put aside. */
    ghost predicate MayTry(sk: Sock, k: Kernel, was: set<nat>, n: nat, usedPorts: array<Word>)
      reads this, portsMap, socks, usedPorts
    {
      && portsMap.Length == usedPorts.Length == 32 && Accounts(socks - {sk}, BitsOf(usedPorts[..]))
      && Collected(Used(), was, BitsOf(usedPorts[..]), n) && AllInUse(k, n) && n <= OwnPorts(was) && n <= 6
    }

    /** One turn of the loop. */
    method TryOnce(sk: Sock, k: Kernel, seed: nat, n: nat, usedPorts: array<Word>, ghost was: set<nat>)
      returns (done: bool, tryBind: bool, bindNo: nat, err: int)
      requires MayTry(sk, k, was, n, usedPorts) && usedPorts != portsMap && sk in socks && k.Lawful() && seed < 0x1_0000
      modifies this`idxState, this`owner, portsMap, sk`pid, sk`ownPort, usedPorts
      ensures portsMap.Length == 32
      ensures if done then LoopEnds(sk, k, was, tryBind, bindNo, err) && GivesBack(sk, was, usedPorts)
              else bindNo == n + 1 && MayTry(sk, k, was, bindNo, usedPorts)
    {
      hide BitsOf, Nr, AllUsed, Accounts, Kernel.Lawful, OwnPorts, AllInUse, Collected;
      ghost var used, rejected := Used(), BitsOf(usedPorts[..]);
      TriesLeft(portsMap[..], was, rejected, n);
      if n >= 6 {
        var _ := SetLocalPortNoRelease(sk, false, 0, rejected);
        return true, true, n, 0;
      }
      var outcome := k.binds(n);
      OneMoreInUse(k, n);
      var port := TryPort(sk, seed, outcome, usedPorts, rejected);
      if port == 0 {
        return true, true, n, 0;
      }
      CollectOne(used, was, rejected, n, Nr(port));
      match outcome
      case Bound => return true, false, n + 1, 0;
      case BindError(e) =>
        BindErrorsAreNegative(k, n);
        return true, true, n + 1, e;
      case AddrInUse => return false, true, n + 1, 0;
    }

    lemma InPart(sk: Sock)
      requires Accounts(socks - {sk}, {})
      ensures portsMap.Length == 32 && idxState < 0x1_0000 && pid < PORT_UNIT
    {
    }

    /** nl_close: the port stays with the socket. */
    method CloseSocket(sk: Sock)
      requires Valid() && sk in socks
      modifies sk`fd, sk`proto
      ensures Valid() && Used() == old(Used()) && sk.proto == 0 && sk.fd < 0
      ensures sk.fd == if old(sk.fd) >= 0 then -1 else old(sk.fd)
    {
      SetDescriptor(sk, if sk.fd >= 0 then -1 else sk.fd, 0);
    }

    /** The protocol of a descriptor to be adopted, or an error. */
    method ProtocolOf(protocol: int, detected: Protocol) returns (err: int, found: int)
      requires detected.ProtocolError? ==> detected.err < 0
      ensures err == 0 <==>
        || (detected.Detected? && (protocol < 0 || protocol == detected.protocol))
        || (detected.Unsupported? && protocol >= 0)
      ensures err <= 0 && (err == 0 ==> found == if detected.Detected? then detected.protocol else protocol)
      ensures err < 0 ==> err == if detected.ProtocolError? then detected.err else -7
    {
      match detected
      case ProtocolError(e) => return e, 0;
      case Detected(p) =>
        if protocol >= 0 && protocol != p {
          return -NLE_INVAL, 0;
        }
        return 0, p;
      case Unsupported =>
        if protocol < 0 {
          return -NLE_INVAL, 0;
        }
        return 0, protocol;
    }

    /**
     * nl_socket_set_fd: a descriptor bound elsewhere. On success its port replaces the socket's,
     * which goes back if libnl chose it; on an error nothing changes.
     */
    method AdoptDescriptor(sk: Sock, protocol: int, fd: int, f: FdFacts) returns (err: int)
      requires Valid() && sk in socks && f.Lawful()
      modifies this`owner, portsMap, sk
      ensures Valid() && err <= 0
      ensures err < 0 ==>
        Used() == old(Used()) && sk.pid == old(sk.pid) && sk.ownPort == old(sk.ownPort) && sk.fd == old(sk.fd)
      ensures err == 0 ==> sk.fd == fd && f.name.Name? && sk.pid == f.name.pid && sk.ownPort
      ensures err == 0 ==> sk.proto == if f.protocol.Detected? then f.protocol.protocol else protocol
      ensures err ==
        if old(sk.fd) != -1 then -3
        else if fd < 0 then -7
        else if f.name.NameError? then f.name.err
        else if !f.netlink then -7
        else if f.typeErr < 0 then f.typeErr
        else if !f.raw then -7
        else match f.protocol
          case ProtocolError(e) => e
          case Detected(p) => if protocol >= 0 && protocol != p then -7 else 0
          case Unsupported => if protocol < 0 then -7 else 0
      ensures err == 0 ==> Used() == old(Used() - NumberOf(sk))
    {
      hide BitsOf, Nr, AllUsed, Accounts;
      if sk.fd != -1 {
        return -NLE_BAD_SOCK;
      }
      if fd < 0 {
        return -NLE_INVAL;
      }
      if f.name.NameError? {
        return f.name.err;
      }
      if !f.netlink {
        return -NLE_INVAL;
      }
      if f.typeErr < 0 {
        return f.typeErr;
      }
      if !f.raw {
        return -NLE_INVAL;
      }
      var found;
      err, found := ProtocolOf(protocol, f.protocol);
      if err < 0 {
        return;
      }
      SetLocalPort(sk, f.name.pid);
      SetDescriptor(sk, fd, found);
    }

    /** Any run of socket calls, in any order and with any kernel answers, keeps the accounts. */
    method Run(calls: seq<Call>) returns (live: map<nat, Sock>)
      requires Valid() && forall c | c in calls :: c.Lawful()
      modifies this, portsMap
      ensures Valid() && live.Keys == LiveAfter(calls) && socks == old(socks) + live.Values
      ensures Used() == set s | s in socks && !s.ownPort :: Nr(s.pid)
    {
      hide Accounts;
      live := map[];
      var i := 0;
      while i < |calls|
        invariant 0 <= i <= |calls| && Valid()
        invariant live.Keys == LiveAfter(calls[..i]) && socks == old(socks) + live.Values
        invariant forall n | n in live :: n < i && live[n] in socks && fresh(live[n])
        invariant forall m, n | m in live && n in live && m != n :: live[m] != live[n]
      {
        var c := calls[i];
        assert c in calls && calls[..i + 1][..i] == calls[..i];
        if c.Alloc? {
          var sk := AllocSocket();
          OneMore(live, i, sk);
          live := live[i := sk];
        } else if c.which in live {
          var sk := live[c.which];
          match c
          case Free(_) =>
            FreeSocket(sk);
            OneLess(live, c.which);
            live := live - {c.which};
          case Get(_, seed) => var _ := GetLocalPort(sk, seed);
          case Set(_, port) => SetLocalPort(sk, port);
          case Connect(_, protocol, k, seeds) => var _, _ := Connect(sk, protocol, k, seeds);
          case SetFd(_, protocol, fd, facts) => var _ := AdoptDescriptor(sk, protocol, fd, facts);
          case Close(_) => CloseSocket(sk);
        }
        i := i + 1;
      }
      assert calls[..i] == calls;
      UsedAreOwned();
    }

    lemma BlockStep(start: nat, j: nat)
      requires j < 32
      ensures j < 31 ==> BlockAt(start, j) == ((if j == 0 then start else BlockAt(start, j - 1)) - 1 + 7) % 31 + 1
    {
      ModStep(start + 6 + 7 * (j - 1), 7, 31);
    }
  }

  /** How many ports of its own a socket without one may try: six, or as many as are free. */
  ghost function OwnPorts(used: set<nat>): nat {
    if |used| >= 1024 then 0 else if 1024 - |used| < 6 then 1024 - |used| else 6
  }

  /**
   * The attempts to bind: ports of its own, as long as the address is in use; when none is left, one for the port the
   * kernel chooses, or the caller has set.
   */
  ghost predicate Attempts(k: Kernel, tries: nat, own: nat) {
    && 1 <= tries <= own + 1
    && AllInUse(k, tries - 1)
    && (tries <= own ==> !k.binds(tries - 1).AddrInUse?)
  }

  /** The first n attempts found the address in use. */
  ghost predicate AllInUse(k: Kernel, n: nat) { forall i | 0 <= i < n :: k.binds(i).AddrInUse? }

  lemma NoneInUse(k: Kernel)
    ensures AllInUse(k, 0)
  {
  }

  lemma OneMoreInUse(k: Kernel, n: nat)
    requires AllInUse(k, n)
    ensures k.binds(n).AddrInUse? ==> AllInUse(k, n + 1)
  {
  }

  lemma {:induction false} SizeBelow(s: set<nat>, n: nat)
    requires forall i | i in s :: i < n
    ensures |s| <= n && (|s| == n <==> forall i | 0 <= i < n :: i in s)
  {
    if n > 0 {
      SizeBelow(s - {n - 1}, n - 1);
    }
  }

  /** n numbers have been put aside since those in was were used. */
  ghost predicate Collected(used: set<nat>, was: set<nat>, rejected: set<nat>, n: nat) {
    used == was + rejected && rejected !! was && |rejected| == n && used - rejected == was
  }

  lemma NoneCollected(was: set<nat>)
    ensures Collected(was, was, {}, 0)
  {
  }

  lemma CollectOne(used: set<nat>, was: set<nat>, rejected: set<nat>, n: nat, nr: nat)
    requires Collected(used, was, rejected, n)
    ensures used - {} - rejected == was
    ensures nr !in used ==>
      Collected(used + {nr}, was, rejected + {nr}, n + 1) && used + {nr} - {nr} - rejected == was
  {
    if nr !in used {
      assert rejected + {nr} - {nr} == rejected;
    }
  }

  /** How many more ports can be tried when n have been rejected. */
  lemma TriesLeft(words: seq<Word>, was: set<nat>, rejected: set<nat>, n: nat)
    requires |words| == 32 && Collected(BitsOf(words), was, rejected, n) && n <= 6
    ensures OwnPorts(was) <= 6 && BitsOf(words) - {} - rejected == was
    ensures AllUsed(BitsOf(words)) ==> OwnPorts(was) == n
    ensures !AllUsed(BitsOf(words)) && n < 6 ==> OwnPorts(was) > n
  {
    SizeBelow(BitsOf(words), 1024);
    hide BitsOf;
    assert |was + rejected| == |was| + |rejected|;
  }

  /** The order in which the two walks come to the numbers. */
  predicate Precedes(idx: nat, a: nat, b: nat)
    requires a < 1024 && b < 1024
  {
    BlockTurn(idx / 32, a / 32) < BlockTurn(idx / 32, b / 32)
    || (a / 32 == b / 32 && BitTurn(idx, a % 32) < BitTurn(idx, b % 32))
  }

  /** Of the numbers that are not used, the walks come to a first. */
  ghost predicate FirstInOrder(idx: nat, a: nat, used: set<nat>) {
    a < 1024 && a !in used && forall b | 0 <= b < 1024 && b !in used && b != a :: Precedes(idx, a, b)
  }

  lemma FirstFree(words: seq<Word>, idx: nat, j: nat, n: nat)
    requires |words| == 32 && j < 32 && n < 32 && words[BlockAt(idx / 32, j)] != ALL_ONES
    requires forall k | 0 <= k < j :: words[BlockAt(idx / 32, k)] == ALL_ONES
    requires forall m | 0 <= m < BitTurn(idx, n) :: words[BlockAt(idx / 32, j)][BitAt(idx, m)]
    requires !words[BlockAt(idx / 32, j)][n]
    ensures FirstInOrder(idx, BlockAt(idx / 32, j) * 32 + n, BitsOf(words))
  {
    hide BlockAt, BitAt, BlockTurn, BitTurn;
    var start, block := idx / 32, BlockAt(idx / 32, j);
    var a := block * 32 + n;
    BlockWalkVisitsEachOnce(start, j, 0);
    forall b | 0 <= b < 1024 && b !in BitsOf(words) && b != a
      ensures Precedes(idx, a, b)
    {
      var k := BlockTurn(start, b / 32);
      BlockWalkVisitsEachOnce(start, 0, b / 32);
      BitWalkVisitsEachOnce(idx, 0, b % 32);
      BitWalkVisitsEachOnce(idx, 0, n);
      assert !words[b / 32][b % 32] && words[BlockAt(start, k)] != ALL_ONES;
      assert k == j ==> b / 32 == block && BitTurn(idx, b % 32) >= BitTurn(idx, n);
    }
  }

  ghost predicate AllUsed(used: set<nat>) {
    forall n | 0 <= n < 1024 :: n in used
  }

  ghost function BitsOf(words: seq<Word>): set<nat>
    requires |words| == 32
  {
    set n | 0 <= n < 1024 && words[n / 32][n % 32]
  }

  lemma SetOneBit(words: seq<Word>, i: nat, n: nat)
    requires |words| == 32 && i < 32 && n < 32 && !words[i][n]
    ensures i * 32 + n !in BitsOf(words)
    ensures BitsOf(words[i := words[i][n := true]]) == BitsOf(words) + {i * 32 + n}
  {
  }

  lemma NoBits(words: seq<Word>)
    requires |words| == 32 && forall i | 0 <= i < 32 :: words[i] == ZERO
    ensures BitsOf(words) == {}
  {
  }

  lemma ClearOneBit(words: seq<Word>, i: nat, n: nat)
    requires |words| == 32 && i < 32 && n < 32
    ensures BitsOf(words[i := words[i][n := false]]) == BitsOf(words) - {i * 32 + n}
  {
  }

  lemma AllSet(words: seq<Word>, sub: seq<Word>, i: nat)
    requires |words| == |sub| == 32 && i < 32 && BitsOf(sub) <= BitsOf(words)
    ensures And(words[i], sub[i]) == sub[i]
  {
    forall n | 0 <= n < 32 && sub[i][n]
      ensures words[i][n]
    {
      assert i * 32 + n in BitsOf(sub);
    }
  }

  lemma PortNumber(pid: nat, n: nat)
    requires pid < PORT_UNIT && n < 1024
    ensures Nr(pid + n * PORT_UNIT) == n && pid + n * PORT_UNIT < U32
    ensures pid + n * PORT_UNIT == 0 <==> pid == 0 && n == 0
  {
  }

  /** Blocks walked over as full hold only set bits. */
  lemma BlocksUsed(words: seq<Word>, start: nat)
    requires |words| == 32
    requires forall k | 0 <= k < 31 :: words[BlockAt(start, k)] == ALL_ONES
    ensures forall n | 32 <= n < 1024 :: n in BitsOf(words)
  {
    forall n | 32 <= n < 1024
      ensures n in BitsOf(words)
    {
      BlockWalkVisitsEachOnce(start, 0, n / 32);
      var k := BlockTurn(start, n / 32);
      assert words[BlockAt(start, k)] == ALL_ONES;
    }
  }

  lemma AllBlocksUsed(words: seq<Word>, start: nat)
    requires |words| == 32 && forall k | 0 <= k < 32 :: words[BlockAt(start, k)] == ALL_ONES
    ensures AllUsed(BitsOf(words))
  {
    BlocksUsed(words, start);
    assert words[BlockAt(start, 31)] == ALL_ONES;
  }

  /** _nl_socket_used_ports_set. */
  method UsedPortsSet(usedPorts: array<Word>, port: nat)
    requires usedPorts.Length == 32 && port < U32
    modifies usedPorts
    ensures BitsOf(usedPorts[..]) == BitsOf(old(usedPorts[..])) + {Nr(port)}
  {
    var nr := Nr(port);
    usedPorts[nr / 32] := usedPorts[nr / 32][nr % 32 := true];
    assert usedPorts[..] == old(usedPorts[..])[nr / 32 := old(usedPorts[nr / 32])[nr % 32 := true]];
  }

  /** The inner loop of generate_local_port over a word that is not full. */
  method FindClearBit(w: Word, n0: nat) returns (n: nat)
    requires w != ALL_ONES
    ensures n < 32 && !w[n]
    ensures forall m | 0 <= m < BitTurn(n0, n) :: w[BitAt(n0, m)]
  {
    n := n0;
    var m := 0;
    while m < 32
      invariant 0 <= m <= 32
      invariant n == if m == 0 then n0 else BitAt(n0, m - 1)
      invariant forall k | 0 <= k < m :: w[BitAt(n0, k)]
    {
      n := (n + 13) % 32;
      BitStep(n0, m);
      if !w[n] {
        BitWalkVisitsEachOnce(n0, m, n);
        return;
      }
      m := m + 1;
    }
    forall b | 0 <= b < 32
      ensures w[b]
    {
      BitWalkVisitsEachOnce(n0, 0, b);
    }
    assert false;
  }

  lemma BitStep(n0: nat, m: nat)
    requires m < 32
    ensures BitAt(n0, m) == ((if m == 0 then n0 else BitAt(n0, m - 1)) + 13) % 32
  {
    ModStep(n0 + 13 + 13 * (m - 1), 13, 32);
  }
}
