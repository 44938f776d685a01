/**
 * Concrete object types: HSR nodes, which are not hashed; inet-diag messages, which are; and
 * neighbours, as far as their id attributes depend on the object.
 */
module ObjectTypes {
  import opened Wrappers
  import opened Lookup3
  import opened Objects

  function Differ(addrs: set<nat>, blobs: set<nat>, i: nat, a: Data, b: Data): bool {
    if i in addrs then AddrCmp(a.AddrOf(i), b.AddrOf(i)) != 0
    else if i in blobs then a.BlobOf(i) != b.BlobOf(i)
    else a.NumOf(i) != b.NumOf(i)
  }

  lemma DifferIsApartness(addrs: set<nat>, blobs: set<nat>, i: nat, a: Data, b: Data, c: Data)
    ensures !Differ(addrs, blobs, i, a, a)
    ensures Differ(addrs, blobs, i, a, b) ==> Differ(addrs, blobs, i, b, a)
    ensures !Differ(addrs, blobs, i, a, b) && !Differ(addrs, blobs, i, b, c) ==> !Differ(addrs, blobs, i, a, c)
  {
    AddrCmpZero(a.AddrOf(i), b.AddrOf(i));
    AddrCmpZero(b.AddrOf(i), a.AddrOf(i));
    AddrCmpZero(b.AddrOf(i), c.AddrOf(i));
    AddrCmpZero(a.AddrOf(i), c.AddrOf(i));
  }

  /** The type compares these attributes as addresses, these as bytes and the rest as numbers, loosely or not. */
  ghost predicate DiffersBy(ops: ObjectOps, addrs: set<nat>, blobs: set<nat>) {
    forall i, a, b :: ops.differs(i, a, b) == Differ(addrs, blobs, i, a, b) == ops.looselyDiffers(i, a, b)
  }

  lemma ComparesLawfully(ops: ObjectOps, addrs: set<nat>, blobs: set<nat>)
    requires DiffersBy(ops, addrs, blobs)
    ensures ops.ComparesByEquivalences()
  {
    forall i, a, b, c
      ensures !ops.differs(i, a, a)
      ensures ops.differs(i, a, b) ==> ops.differs(i, b, a)
      ensures !ops.differs(i, a, b) && !ops.differs(i, b, c) ==> !ops.differs(i, a, c)
    {
      DifferIsApartness(addrs, blobs, i, a, b, c);
    }
  }

  // ----- HSR nodes

  const HNODE_ADDR_A: nat := 0
  const HNODE_ADDR_B: nat := 1
  const HNODE_IFINDEX: nat := 2
  const HNODE_KNOWN: set<nat> := {0, 1, 2, 3, 4, 5, 6, 7, 8, 9}
  const HNODE_ADDRS: set<nat> := {HNODE_ADDR_A, HNODE_ADDR_B}
  const HNODE_IDS: set<nat> := {HNODE_IFINDEX, HNODE_ADDR_A, HNODE_ADDR_B}

  /** hnode_obj_ops. */
  method HnodeOps() returns (ops: ObjectOps)
    ensures ops.Lawful() && ops.keygen == None && forall d :: ops.admits(d)
    ensures ops.known == HNODE_KNOWN && ops.idAttrs == HNODE_IDS && ops.idAttrsGet == None
    ensures DiffersBy(ops, HNODE_ADDRS, {})
  {
    var f := (i: nat, a: Data, b: Data) => Differ(HNODE_ADDRS, {}, i, a, b);
    ops := new ObjectOps(HNODE_KNOWN, f, f, HNODE_IDS, None, None, _ => true);
    ComparesLawfully(ops, HNODE_ADDRS, {});
  }

  /**
   * Two nodes are identical iff they provide the same of the three id attributes and agree
   * on those. So a message without the second address never finds a node that has one.
   */
  lemma HnodeIdentity(ops: ObjectOps, a: Data, b: Data)
    requires ops.known == HNODE_KNOWN && ops.idAttrs == HNODE_IDS && ops.idAttrsGet == None
    requires DiffersBy(ops, HNODE_ADDRS, {})
    ensures ops.SameId(a, b) <==>
      && (2 in a.mask <==> 2 in b.mask)
      && (0 in a.mask <==> 0 in b.mask)
      && (1 in a.mask <==> 1 in b.mask)
      && (2 in a.mask ==> a.NumOf(2) == b.NumOf(2))
      && (0 in a.mask ==> AddrCmp(a.AddrOf(0), b.AddrOf(0)) == 0)
      && (1 in a.mask ==> AddrCmp(a.AddrOf(1), b.AddrOf(1)) == 0)
  {
    var r, q := ops.Required(a), ops.Required(b);
    ops.CompareEmpty(a, b, r, false);
    assert forall i | i in HNODE_IDS :: (i in r <==> i in a.mask) && (i in q <==> i in b.mask);
    if ops.SameId(a, b) {
      assert forall i | i in HNODE_IDS && i in a.mask :: i in r && !Mismatch(a, b, i, ops.differs(i, a, b));
    } else if r == q {
      var i :| i in ops.known && i in r && Mismatch(a, b, i, ops.differs(i, a, b));
      assert i in HNODE_IDS;
    }
  }

  /**
   * What nl_object_diff64 of two nodes contains: of the ten attributes those only one node has, and those both have
   * with different addresses, for the first two, or different numbers.
   */
  lemma HnodeDiff(ops: ObjectOps, a: Data, b: Data, i: nat)
    requires ops.known == HNODE_KNOWN && DiffersBy(ops, HNODE_ADDRS, {})
    ensures i in ops.Diff(a, b) <==>
      && i < 10
      && ((i in a.mask) != (i in b.mask)
          || (i in a.mask && i < 2 && AddrCmp(a.AddrOf(i), b.AddrOf(i)) != 0)
          || (i in a.mask && i >= 2 && a.NumOf(i) != b.NumOf(i)))
  {
    ops.DiffTells(a, b, i);
  }

  /** A node matches a filter iff it has and agrees in each of the ten attributes that the filter has. */
  lemma HnodeMatches(ops: ObjectOps, d: Data, filter: Data)
    requires ops.known == HNODE_KNOWN && DiffersBy(ops, HNODE_ADDRS, {})
    ensures ops.Matches(d, filter) <==>
      forall i | i in filter.mask && i < 10 ::
        i in d.mask && if i < 2 then AddrCmp(d.AddrOf(i), filter.AddrOf(i)) == 0 else d.NumOf(i) == filter.NumOf(i)
  {
    ops.MatchTells(d, filter);
  }

  /** A node heard of again a little later differs in the age of its first slave alone. */
  lemma AgeDiffers(ops: ObjectOps, before: int, now: int)
    requires ops.known == HNODE_KNOWN && ops.idAttrs == HNODE_IDS && ops.idAttrsGet == None && before != now
    requires DiffersBy(ops, HNODE_ADDRS, {})
    ensures var a, b := Data({2, 5}, map[2 := Num(3), 5 := Num(before)]), Data({2, 5}, map[2 := Num(3), 5 := Num(now)]);
      ops.SameId(a, b) && ops.Diff(a, b) == {5}
  {
    var a, b := Data({2, 5}, map[2 := Num(3), 5 := Num(before)]), Data({2, 5}, map[2 := Num(3), 5 := Num(now)]);
    HnodeIdentity(ops, a, b);
    forall i
      ensures i in ops.Diff(a, b) <==> i == 5
    {
      HnodeDiff(ops, a, b, i);
    }
  }

  // ----- inet-diag messages

  const IDIAG_FAMILY: nat := 1
  const IDIAG_SPORT: nat := 5
  const IDIAG_DPORT: nat := 6
  const IDIAG_SRC: nat := 7
  const IDIAG_DST: nat := 8
  const IDIAG_KNOWN: set<nat> := {1, 2, 3, 4, 5, 6, 7, 8, 9, 10, 11, 12, 13, 14, 15, 16, 17, 18, 19, 20, 21, 22}
  const IDIAG_ADDRS: set<nat> := {IDIAG_SRC, IDIAG_DST}
  /** The congestion string and the memory, vegas, tcp and socket memory information, as opaque bytes. */
  const IDIAG_BLOBS: set<nat> := {18, 19, 20, 21, 22}
  const IDIAG_IDS: set<nat> := {IDIAG_FAMILY, IDIAG_SRC, IDIAG_DST, IDIAG_SPORT, IDIAG_DPORT}

  function ByteOf(n: int): Byte { (n % 256) as bv8 }

  /** The low byte of a number. */
  lemma LowByte()
    ensures ByteOf(0x1FE) == 0xFE
  {
  }

  function Bytes32(h: bv32): seq<Byte> {
    [(h & 0xFF) as bv8, ((h >> 8) & 0xFF) as bv8, ((h >> 16) & 0xFF) as bv8, ((h >> 24) & 0xFF) as bv8]
  }

  function Bytes16(n: int): seq<Byte> { [ByteOf(n), ByteOf(n / 256)] }

  function AddrHash(a: Option<Address>): bv32 {
    if a.None? then 0 else Hash(a.value.bytes, 0)
  }

  /** The packed struct idiagnl_hash_key: family, address hashes and ports, thirteen bytes. */
  function KeyBytes(d: Data): seq<Byte> {
    [ByteOf(d.NumOf(IDIAG_FAMILY))] + Bytes32(AddrHash(d.AddrOf(IDIAG_SRC))) + Bytes32(AddrHash(d.AddrOf(IDIAG_DST)))
    + Bytes16(d.NumOf(IDIAG_SPORT)) + Bytes16(d.NumOf(IDIAG_DPORT))
  }

  function IdiagKey(d: Data, size: nat): nat {
    if size == 0 then 0 else Hash(KeyBytes(d), 0) as nat % size
  }

  /** A message without attributes hashes thirteen zero bytes. */
  lemma KeyOfNothing(size: nat)
    requires size > 0
    ensures IdiagKey(Data({}, map[]), size) == 0x4310ac3e % size
  {
    hide Hash;
    var d := Data({}, map[]);
    ZeroBytes();
    HashOfZeros(KeyBytes(d));
  }

  lemma ZeroBytes()
    ensures ByteOf(0) == 0 && Bytes32(0) == [0, 0, 0, 0]
  {
  }

  /** The bytes that are hashed: family, then both hashes, then both ports, each with its lowest byte first. */
  lemma KeyLayout(d: Data)
    ensures var k := KeyBytes(d);
      && |k| == 13 && k[0] == ByteOf(d.NumOf(1))
      && Load32(k, 1) == (if d.AddrOf(7).Some? then Hash(d.AddrOf(7).value.bytes, 0) else 0)
      && Load32(k, 5) == (if d.AddrOf(8).Some? then Hash(d.AddrOf(8).value.bytes, 0) else 0)
      && k[9] == ByteOf(d.NumOf(5)) && k[10] == ByteOf(d.NumOf(5) / 256)
      && k[11] == ByteOf(d.NumOf(6)) && k[12] == ByteOf(d.NumOf(6) / 256)
  {
    hide Hash, Load32, Bytes32, ByteOf;
    var src, dst := AddrHash(d.AddrOf(7)), AddrHash(d.AddrOf(8));
    var family, ports := [ByteOf(d.NumOf(1))], Bytes16(d.NumOf(5)) + Bytes16(d.NumOf(6));
    LoadOfBytes(family, src, Bytes32(dst) + ports);
    LoadOfBytes(family + Bytes32(src), dst, ports);
    assert KeyBytes(d) == family + Bytes32(src) + (Bytes32(dst) + ports);
    assert KeyBytes(d) == family + Bytes32(src) + Bytes32(dst) + ports;
  }

  lemma LoadOfBytes(before: seq<Byte>, h: bv32, after: seq<Byte>)
    ensures |Bytes32(h)| == 4 && Load32(before + Bytes32(h) + after, |before|) == h
  {
    hide At;
    var k, i := before + Bytes32(h) + after, |before|;
    FourBytes(h);
    assert k[i] == Bytes32(h)[0] && k[i + 1] == Bytes32(h)[1] && k[i + 2] == Bytes32(h)[2] && k[i + 3] == Bytes32(h)[3];
  }

  lemma FourBytes(h: bv32)
    ensures At((h & 0xFF) as bv8, 0) | At(((h >> 8) & 0xFF) as bv8, 8)
      | At(((h >> 16) & 0xFF) as bv8, 16) | At(((h >> 24) & 0xFF) as bv8, 24) == h
  {
  }

  /** idiagnl_keygen, with the addresses in memory of the two address buffers and of the key. */
  method IdiagKeygen(d: Data, size: nat, srcAt: nat, dstAt: nat, keyAt: nat) returns (hashkey: nat)
    requires size > 0
    ensures hashkey == IdiagKey(d, size) < size
  {
    hide Hash, Bytes32, Bytes16, ByteOf;
    var srcHash, dstHash: bv32 := 0, 0;
    var src, dst := d.AddrOf(IDIAG_SRC), d.AddrOf(IDIAG_DST);
    if src.Some? {
      srcHash := HashAny(src.value.bytes, srcAt, 0);
    }
    if dst.Some? {
      dstHash := HashAny(dst.value.bytes, dstAt, 0);
    }
    var key := [ByteOf(d.NumOf(IDIAG_FAMILY))] + Bytes32(srcHash) + Bytes32(dstHash)
      + Bytes16(d.NumOf(IDIAG_SPORT)) + Bytes16(d.NumOf(IDIAG_DPORT));
    assert key == KeyBytes(d);
    var h := HashAny(key, keyAt, 0);
    return h as nat % size;
  }

  /** The id attributes a message does not carry are at their zero default; with all five carried this holds at once. */
  predicate IdsAreClean(d: Data) {
    forall i | i in IDIAG_IDS :: i in d.mask || i !in d.vals
  }

  /** idiagnl_msg_obj_ops. */
  method IdiagOps() returns (ops: ObjectOps)
    ensures ops.Lawful() && ops.keygen == Some(IdiagKey) && ops.admits == IdsAreClean
    ensures ops.known == IDIAG_KNOWN && ops.idAttrs == IDIAG_IDS && ops.idAttrsGet == None
    ensures DiffersBy(ops, IDIAG_ADDRS, IDIAG_BLOBS)
    ensures forall d, size: nat :: ops.Key(d, size) == IdiagKey(d, size)
  {
    var f := (i: nat, a: Data, b: Data) => Differ(IDIAG_ADDRS, IDIAG_BLOBS, i, a, b);
    ops := new ObjectOps(IDIAG_KNOWN, f, f, IDIAG_IDS, None, Some(IdiagKey), IdsAreClean);
    ComparesLawfully(ops, IDIAG_ADDRS, IDIAG_BLOBS);
    forall d, size: nat
      ensures size > 0 ==> IdiagKey(d, size) < size
    {
      hide Hash, KeyBytes;
    }
    hide Differ, IdsAreClean, IdiagKey, ObjectOps.SameId, ObjectOps.ComparesByEquivalences;
    forall a, b, size: nat | size > 0 && ops.admits(a) && ops.admits(b) && ops.SameId(a, b)
      ensures ops.Key(a, size) == ops.Key(b, size)
    {
      IdenticalKeysAgree(ops, a, b, size);
    }
  }

  /** What nl_object_diff64 of two messages contains: attributes 1 to 22, two of them addresses, the last five bytes. */
  lemma IdiagDiff(ops: ObjectOps, a: Data, b: Data, i: nat)
    requires ops.known == IDIAG_KNOWN && DiffersBy(ops, IDIAG_ADDRS, IDIAG_BLOBS)
    ensures i in ops.Diff(a, b) <==>
      && 1 <= i <= 22
      && ((i in a.mask) != (i in b.mask)
          || (i in a.mask &&
              if i == 7 || i == 8 then AddrCmp(a.AddrOf(i), b.AddrOf(i)) != 0
              else if i >= 18 then a.BlobOf(i) != b.BlobOf(i)
              else a.NumOf(i) != b.NumOf(i)))
  {
    hide AddrCmp, ObjectOps.Diff;
    assert i in IDIAG_KNOWN <==> 1 <= i <= 22;
    ops.DiffTells(a, b, i);
  }

  /** Two messages are identical iff they provide the same of family, ports and addresses and agree on those. */
  lemma IdiagIdentity(ops: ObjectOps, a: Data, b: Data)
    requires ops.known == IDIAG_KNOWN && ops.idAttrs == IDIAG_IDS && ops.idAttrsGet == None
    requires DiffersBy(ops, IDIAG_ADDRS, IDIAG_BLOBS)
    ensures ops.SameId(a, b) <==>
      && (forall i | i in {1, 5, 6} :: (i in a.mask <==> i in b.mask) && (i in a.mask ==> a.NumOf(i) == b.NumOf(i)))
      && (forall i | i in {7, 8} ::
            (i in a.mask <==> i in b.mask) && (i in a.mask ==> AddrCmp(a.AddrOf(i), b.AddrOf(i)) == 0))
  {
    ops.IdentityTells(a, b);
    assert forall i :: i in IDIAG_IDS <==> i in {1, 5, 6} || i in {7, 8};
  }

  /** Identical inet-diag messages get the same bucket: equal addresses hash alike wherever their bytes lie. */
  lemma IdenticalKeysAgree(ops: ObjectOps, a: Data, b: Data, size: nat)
    requires ops.known == IDIAG_KNOWN && ops.idAttrs == IDIAG_IDS && ops.idAttrsGet == None
    requires DiffersBy(ops, IDIAG_ADDRS, IDIAG_BLOBS)
    requires IdsAreClean(a) && IdsAreClean(b) && ops.SameId(a, b)
    ensures IdiagKey(a, size) == IdiagKey(b, size)
  {
    hide Hash, Bytes32, Bytes16, ByteOf;
    ops.CompareEmpty(a, b, ops.Required(a), false);
    forall i | i in IDIAG_IDS
      ensures !Differ(IDIAG_ADDRS, IDIAG_BLOBS, i, a, b)
    {
      assert i in a.mask <==> i in ops.Required(a);
      assert i in b.mask <==> i in ops.Required(b);
      if i in a.mask {
        assert !Mismatch(a, b, i, ops.differs(i, a, b));
      }
    }
    AddrCmpZero(a.AddrOf(IDIAG_SRC), b.AddrOf(IDIAG_SRC));
    AddrCmpZero(a.AddrOf(IDIAG_DST), b.AddrOf(IDIAG_DST));
  }

  /** The bit of every settable attribute of struct idiagnl_msg. */
  type IdiagAttr = i: nat | i in IDIAG_KNOWN witness IDIAG_FAMILY

  /** The fields of struct inet_diag_msg that idiagnl_msg_parse copies, by attribute. */
  const IDIAG_HEADER: set<nat> := {1, 2, 3, 4, 5, 6, 9, 10, 11, 12, 13, 14}
  /**
   * What optional netlink attributes carry: TOS, traffic class, shutdown, congestion, memory, vegas, TCP, socket
   * memory.
   */
  const IDIAG_OPTIONAL: set<nat> := {15, 16, 17, 18, 19, 20, 21, 22}
  /** The attributes kept by pointer: source, destination, congestion string, memory and vegas information. */
  const IDIAG_POINTERS: set<nat> := {IDIAG_SRC, IDIAG_DST, 18, 19, 20}

  /** How a message object comes about: allocated, parsed, an attribute set on it, or cloned. */
  datatype Origin =
    | Allocated
    | Parsed(header: map<nat, int>, src: Address, dst: Address, options: map<nat, Value>)
    | Changed(from: Origin, attr: IdiagAttr, value: Value)
    | Cloned(from: Origin)

  /** idiagnl_msg_parse: every header field, both addresses, and the options that are there. */
  function ParsedMsg(header: map<nat, int>, src: Address, dst: Address, options: map<nat, Value>): Data {
    var numbers := map i | i in IDIAG_HEADER :: Num(if i in header then header[i] else 0);
    var extra := map i | i in options && i in IDIAG_OPTIONAL :: options[i];
    Data(IDIAG_HEADER + {IDIAG_DST} + {IDIAG_SRC} + extra.Keys,
         (numbers + extra)[IDIAG_DST := Addr(dst)][IDIAG_SRC := Addr(src)])
  }

  /** The setters: the field and its bit. */
  function SetAttr(d: Data, attr: IdiagAttr, value: Value): Data {
    Data(d.mask + {attr}, d.vals[attr := value])
  }

  /**
   * nl_object_clone with idiagnl_msg_clone: fields and mask are copied, then each pointer and its bit only if it
   * is not null.
   */
  function ClonedMsg(d: Data): Data {
    var plain := map i | i in d.vals && i !in IDIAG_POINTERS :: d.vals[i];
    var pointed := map i | i in d.vals && i in IDIAG_POINTERS :: d.vals[i];
    Data(d.mask - IDIAG_POINTERS + pointed.Keys, plain + pointed)
  }

  function Made(o: Origin): Data {
    match o
    case Allocated => Data({}, map[])
    case Parsed(header, src, dst, options) => ParsedMsg(header, src, dst, options)
    case Changed(from, attr, value) => SetAttr(Made(from), attr, value)
    case Cloned(from) => ClonedMsg(Made(from))
  }

  /**
   * In a message made by any sequence of allocating, parsing, setting and cloning, the mask names exactly the
   * fields set.
   */
  lemma {:induction false} MadeIsAnnounced(o: Origin)
    ensures Made(o).mask == Made(o).vals.Keys && IdsAreClean(Made(o))
  {
    match o
    case Allocated =>
    case Parsed(header, src, dst, options) =>
    case Changed(from, _, _) => MadeIsAnnounced(from);
    case Cloned(from) => MadeIsAnnounced(from);
  }

  /** Cloning such a message copies it: data and mask are the same. */
  lemma CloneIsCopy(o: Origin)
    ensures Made(Cloned(o)) == Made(o)
  {
    MadeIsAnnounced(o);
    assert ClonedMsg(Made(o)).vals == Made(o).vals;
  }

  /** What parsing leaves: fourteen attributes of every message, and the options that are there. */
  lemma ParsedTells(header: map<nat, int>, src: Address, dst: Address, options: map<nat, Value>, i: nat)
    ensures i in Made(Parsed(header, src, dst, options)).mask <==> 1 <= i <= 14 || (15 <= i <= 22 && i in options)
  {
    assert i in IDIAG_HEADER <==> 1 <= i <= 6 || 9 <= i <= 14;
    assert i in IDIAG_OPTIONAL <==> 15 <= i <= 22;
    hide IDIAG_HEADER, IDIAG_OPTIONAL;
  }

  /** And their values. */
  lemma ParsedValues(header: map<nat, int>, src: Address, dst: Address, options: map<nat, Value>, i: nat)
    ensures var d := Made(Parsed(header, src, dst, options));
      && (1 <= i <= 6 || 9 <= i <= 14 ==> d.NumOf(i) == if i in header then header[i] else 0)
      && d.AddrOf(7) == Some(src) && d.AddrOf(8) == Some(dst)
      && (15 <= i <= 22 && i in options ==> i in d.vals && d.vals[i] == options[i])
  {
    assert i in IDIAG_HEADER <==> 1 <= i <= 6 || 9 <= i <= 14;
    assert i in IDIAG_OPTIONAL <==> 15 <= i <= 22;
    hide IDIAG_HEADER, IDIAG_OPTIONAL;
  }

  /** What setting an attribute changes: its value and its bit. */
  lemma ChangedTells(o: Origin, attr: IdiagAttr, value: Value, i: nat)
    ensures var d, d' := Made(o), Made(Changed(o, attr, value));
      && (i in d'.mask <==> i in d.mask || i == attr)
      && attr in d'.vals && d'.vals[attr] == value
      && (i != attr ==> (i in d'.vals <==> i in d.vals) && (i in d.vals ==> d'.vals[i] == d.vals[i]))
  {
  }

  /** What cloning keeps of any message: all values, and the bits but for pointers that are null. */
  lemma ClonedTells(d: Data, i: nat)
    ensures ClonedMsg(d).vals == d.vals
    ensures i in ClonedMsg(d).mask <==> if i in [7, 8, 18, 19, 20] then i in d.vals else i in d.mask
  {
  }

  /** So any two identical messages that a program can make have the same key. */
  lemma MadeKeysAgree(ops: ObjectOps, o: Origin, p: Origin, size: nat)
    requires ops.known == IDIAG_KNOWN && ops.idAttrs == IDIAG_IDS && ops.idAttrsGet == None
    requires DiffersBy(ops, IDIAG_ADDRS, IDIAG_BLOBS) && ops.SameId(Made(o), Made(p))
    ensures IdiagKey(Made(o), size) == IdiagKey(Made(p), size)
  {
    hide Hash, Bytes32, Bytes16, ByteOf, KeyBytes, IdiagKey, Made;
    MadeIsAnnounced(o);
    MadeIsAnnounced(p);
    IdenticalKeysAgree(ops, Made(o), Made(p), size);
  }

  // ----- neighbours, whose id attributes depend on the object

  const NEIGH_FLAGS: nat := 0
  const NEIGH_STATE: nat := 1
  const NEIGH_LLADDR: nat := 2
  const NEIGH_DST: nat := 3
  const NEIGH_IFINDEX: nat := 5
  const NEIGH_FAMILY: nat := 6
  const NEIGH_TYPE: nat := 7
  const NEIGH_MASTER: nat := 9
  const NEIGH_VLAN: nat := 10
  const NEIGH_KNOWN: set<nat> :=
    {NEIGH_FLAGS, NEIGH_STATE, NEIGH_LLADDR, NEIGH_DST, NEIGH_IFINDEX, NEIGH_FAMILY, NEIGH_TYPE, NEIGH_MASTER,
     NEIGH_VLAN}
  const NEIGH_ADDRS: set<nat> := {NEIGH_LLADDR, NEIGH_DST}
  const AF_BRIDGE: int := 7

  predicate IsBridge(d: Data) { d.NumOf(NEIGH_FAMILY) == AF_BRIDGE }

  /** NTF_SELF, bit 1 of the flags. */
  predicate IsSelf(d: Data) { d.NumOf(NEIGH_FLAGS) / 2 % 2 == 1 }

  /** neigh_id_attrs_get. */
  function NeighIds(d: Data): set<nat> {
    if !IsBridge(d) then {NEIGH_IFINDEX, NEIGH_DST, NEIGH_FAMILY}
    else if IsSelf(d) then
      {NEIGH_LLADDR, NEIGH_FAMILY, NEIGH_IFINDEX}
      + (if NEIGH_DST in d.mask then {NEIGH_DST} else {}) + (if NEIGH_VLAN in d.mask then {NEIGH_VLAN} else {})
    else {NEIGH_LLADDR, NEIGH_FAMILY, NEIGH_MASTER, NEIGH_VLAN}
  }

  /** neigh_compare: the loose flag changes how state and flags compare, and nothing else. */
  ghost predicate ComparesNeighs(ops: ObjectOps) {
    && ops.known == NEIGH_KNOWN && ops.idAttrsGet == Some(NeighIds)
    && (forall i, a, b :: ops.differs(i, a, b) == Differ(NEIGH_ADDRS, {}, i, a, b))
    && (forall i, a, b | i != NEIGH_FLAGS && i != NEIGH_STATE :: ops.looselyDiffers(i, a, b) == ops.differs(i, a, b))
  }

  /** The id attributes by number; family 7 is AF_BRIDGE, and the second bit of the flags is NTF_SELF. */
  lemma NeighIdsTell(d: Data, k: int, bit: int, low: int)
    requires d.NumOf(0) == 4 * k + 2 * bit + low && 0 <= bit < 2 && 0 <= low < 2
    ensures d.NumOf(6) != 7 ==> NeighIds(d) == {3, 5, 6}
    ensures d.NumOf(6) == 7 && bit == 0 ==> NeighIds(d) == {2, 6, 9, 10}
    ensures d.NumOf(6) == 7 && bit == 1 ==>
      NeighIds(d) == {2, 5, 6} + (if 3 in d.mask then {3} else {}) + (if 10 in d.mask then {10} else {})
  {
    assert d.NumOf(0) / 2 == 2 * k + bit;
  }

  /** What nl_object_diff64 of two neighbours contains, by number. */
  lemma NeighDiff(ops: ObjectOps, a: Data, b: Data, i: nat)
    requires ComparesNeighs(ops)
    ensures i in ops.Diff(a, b) <==>
      && i in [0, 1, 2, 3, 5, 6, 7, 9, 10]
      && ((i in a.mask) != (i in b.mask)
          || (i in a.mask && if i == 2 || i == 3 then AddrCmp(a.AddrOf(i), b.AddrOf(i)) != 0
                             else a.NumOf(i) != b.NumOf(i)))
  {
    hide AddrCmp;
    ops.DiffTells(a, b, i);
  }

  /**
   * A neighbour that matches a filter the fast path of nl_cache_find takes is one the fast path
   * finds iff, for bridge entries, both or neither are the device's own, and own entries provide
   * destination and VLAN alike.
   */
  lemma NeighMatchFoundIff(ops: ObjectOps, d: Data, filter: Data)
    requires ComparesNeighs(ops) && NeighIds(filter) == filter.mask && ops.Matches(d, filter)
    ensures ops.IgnoresLoose(filter.mask)
    ensures ops.Required(d) == filter.mask <==>
      !IsBridge(filter)
      || (IsSelf(d) == IsSelf(filter)
          && (IsSelf(filter) ==>
                && (NEIGH_DST in d.mask <==> NEIGH_DST in filter.mask)
                && (NEIGH_VLAN in d.mask <==> NEIGH_VLAN in filter.mask)))
  {
    hide IsSelf;
    ops.CompareEmpty(d, filter, filter.mask, true);
    forall i | i in filter.mask
      ensures i in d.mask && !Differ(NEIGH_ADDRS, {}, i, d, filter)
    {
      assert i in NEIGH_KNOWN && !Mismatch(d, filter, i, ops.looselyDiffers(i, d, filter));
    }
    assert NEIGH_FAMILY in filter.mask && IsBridge(d) == IsBridge(filter);
    assert NEIGH_MASTER in filter.mask <==> IsBridge(filter) && !IsSelf(filter);
    assert NEIGH_MASTER in NeighIds(d) <==> IsBridge(d) && !IsSelf(d);
  }

  /**
   * The fast path misses a device's own bridge entry that the filter scan returns: the filter has
   * family, address, master and VLAN set, the entry was parsed from the kernel.
   */
  lemma NeighFastPathMisses(ops: ObjectOps, lladdr: Address, master: int, vlan: int, ifindex: int)
    requires ComparesNeighs(ops)
    ensures var ids := map[NEIGH_FAMILY := Num(AF_BRIDGE), NEIGH_LLADDR := Addr(lladdr),
                           NEIGH_MASTER := Num(master), NEIGH_VLAN := Num(vlan)];
      var filter := Data(ids.Keys, ids);
      var own := Data(ids.Keys + {NEIGH_IFINDEX, NEIGH_STATE, NEIGH_FLAGS, NEIGH_TYPE},
                      ids[NEIGH_IFINDEX := Num(ifindex)][NEIGH_FLAGS := Num(2)]);
      NeighIds(filter) == filter.mask && ops.Matches(own, filter) && !ops.SameId(own, filter)
  {
    var ids := map[NEIGH_FAMILY := Num(AF_BRIDGE), NEIGH_LLADDR := Addr(lladdr),
                   NEIGH_MASTER := Num(master), NEIGH_VLAN := Num(vlan)];
    var filter := Data(ids.Keys, ids);
    var own := Data(ids.Keys + {NEIGH_IFINDEX, NEIGH_STATE, NEIGH_FLAGS, NEIGH_TYPE},
                    ids[NEIGH_IFINDEX := Num(ifindex)][NEIGH_FLAGS := Num(2)]);
    assert NeighIds(filter) == filter.mask;
    ops.CompareEmpty(own, filter, filter.mask, true);
    AddrCmpZero(own.AddrOf(NEIGH_LLADDR), filter.AddrOf(NEIGH_LLADDR));
    assert ops.Matches(own, filter);
    NeighMatchFoundIff(ops, own, filter);
    ops.IdenticalIffMatching(own, filter);
  }
}
