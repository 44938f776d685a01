/** Netlink attributes: the wire form of attribute trees, the stream walk, and its clients. */
module Attributes {
  import opened Wrappers
  import opened Errors

  type Byte = b: int | 0 <= b < 256

  const HDRLEN: nat := 4
  const F_NESTED: nat := 0x8000
  const F_NET_BYTEORDER: nat := 0x4000
  const USHRT_MAX: nat := 0xFFFF

  function Align(n: nat): (r: nat)
    ensures n <= r < n + 4 && r % 4 == 0
    ensures n % 4 == 0 ==> r == n
  {
    (n + 3) / 4 * 4
  }

  lemma AlignIs(n: nat, r: nat)
    requires n <= r < n + 4 && r % 4 == 0
    ensures Align(n) == r
  {
  }

  /** A 16-bit field as a little-endian host stores it. */
  function U16(n: nat): (b: seq<Byte>)
    ensures |b| == 2
  {
    [n % 256, n / 256 % 256]
  }

  function Load16(s: seq<Byte>, i: nat): (n: nat)
    requires i + 2 <= |s|
    ensures n <= USHRT_MAX
  {
    s[i] as int + 256 * s[i + 1] as int
  }

  function Zeros(n: nat): (b: seq<Byte>)
    ensures |b| == n
  {
    seq(n, i => 0)
  }

  lemma ZerosAreZero(n: nat)
    ensures forall i :: 0 <= i < n ==> Zeros(n)[i] == 0
  {
  }

  // ----- attribute trees and their wire form

  datatype Attr = Leaf(kind: nat, payload: seq<Byte>) | Nest(kind: nat, kids: seq<Attr>)

  function Header(size: nat, kind: nat): (b: seq<Byte>)
    ensures |b| == 4
  {
    U16(size) + U16(kind)
  }

  /** One attribute on the wire: header, payload, zero padding to four bytes. */
  function Tlv(kind: nat, payload: seq<Byte>): (b: seq<Byte>)
    ensures |b| == Align(HDRLEN + |payload|)
  {
    var n := HDRLEN + |payload|;
    Header(n, kind) + payload + Zeros(Align(n) - n)
  }

  /** Aligned pieces make an aligned whole. */
  function Join(a: seq<Byte>, b: seq<Byte>): (r: seq<Byte>)
    requires |a| % 4 == 0 && |b| % 4 == 0
    ensures r == a + b && |r| % 4 == 0
  {
    a + b
  }

  function Encode(a: Attr): (b: seq<Byte>)
    ensures |b| % 4 == 0 && |b| >= HDRLEN
    decreases a, 1
  {
    match a
    case Leaf(kind, payload) => Tlv(kind, payload)
    case Nest(kind, kids) => Tlv(F_NESTED + kind, EncodeAll(kids))
  }

  function EncodeAll(attrs: seq<Attr>): (b: seq<Byte>)
    ensures |b| % 4 == 0
    decreases attrs, 0
  {
    if attrs == [] then [] else Join(Encode(attrs[0]), EncodeAll(attrs[1..]))
  }

  /** The tree fits its 16-bit length and type fields. */
  predicate Fits(a: Attr)
    decreases a, 1
  {
    a.kind < F_NESTED &&
    match a
    case Leaf(_, payload) => HDRLEN + |payload| <= USHRT_MAX
    case Nest(_, kids) => HDRLEN + |EncodeAll(kids)| <= USHRT_MAX && AllFit(kids)
  }

  predicate AllFit(attrs: seq<Attr>)
    decreases attrs, 0
  {
    attrs == [] || (Fits(attrs[0]) && AllFit(attrs[1..]))
  }

  // ----- walking a stream

  /** nla_ok for the attribute at pos, with everything from pos on remaining. */
  predicate Ok(s: seq<Byte>, pos: nat) {
    && pos + HDRLEN <= |s|
    && HDRLEN <= Load16(s, pos) <= |s| - pos
  }

  function Size(s: seq<Byte>, pos: nat): (n: nat)
    requires Ok(s, pos)
    ensures HDRLEN <= n && pos + n <= |s|
  {
    Load16(s, pos)
  }

  /** nla_type: the type field without the two flag bits. */
  function Type(s: seq<Byte>, pos: nat): (t: nat)
    requires Ok(s, pos)
    ensures t < F_NET_BYTEORDER
  {
    Load16(s, pos + 2) % F_NET_BYTEORDER
  }

  function Payload(s: seq<Byte>, pos: nat): (p: seq<Byte>)
    requires Ok(s, pos)
    ensures |p| == Size(s, pos) - HDRLEN
  {
    s[pos + HDRLEN..pos + Size(s, pos)]
  }

  /** The offsets nla_for_each_attr visits from pos on. */
  function Offsets(s: seq<Byte>, pos: nat): seq<nat>
    decreases |s| - pos
  {
    if Ok(s, pos) then [pos] + Offsets(s, pos + Align(Size(s, pos))) else []
  }

  /** Where nla_for_each_attr stops. */
  function End(s: seq<Byte>, pos: nat): nat
    decreases |s| - pos
  {
    if Ok(s, pos) then End(s, pos + Align(Size(s, pos))) else pos
  }

  /** The walk with nla_for_each_attr, descending with nla_for_each_nested where the nested flag is set. */
  function Walk(s: seq<Byte>, pos: nat): seq<Attr>
    decreases |s| - pos, 1
  {
    if Ok(s, pos) then [Item(s, pos)] + Walk(s, pos + Align(Size(s, pos))) else []
  }

  function Item(s: seq<Byte>, pos: nat): Attr
    requires Ok(s, pos)
    decreases |s| - pos, 0
  {
    var kind := Load16(s, pos + 2);
    if kind >= F_NESTED then Nest(kind - F_NESTED, Walk(Payload(s, pos), 0)) else Leaf(kind, Payload(s, pos))
  }

  /**
   * On any bytes the walk stays inside the stream, visits aligned offsets, and stops with
   * at least -3 bytes remaining.
   */
  lemma {:induction false} WalkStaysInside(s: seq<Byte>, pos: nat)
    ensures pos <= End(s, pos) && !Ok(s, End(s, pos))
    ensures pos <= |s| + 3 ==> |s| - End(s, pos) >= -3
    ensures forall o | o in Offsets(s, pos) :: pos <= o && Ok(s, o) && (pos % 4 == 0 ==> o % 4 == 0)
    decreases |s| - pos
  {
    hide Load16, Align, Size;
    if Ok(s, pos) {
      WalkStaysInside(s, pos + Align(Size(s, pos)));
    }
  }

  /** The remaining length strictly decreases: every attribute ends before the next begins. */
  lemma {:induction false} WalkDoesNotOverlap(s: seq<Byte>, pos: nat, i: nat, j: nat)
    requires i < j < |Offsets(s, pos)|
    ensures var os := Offsets(s, pos); Ok(s, os[i]) && os[i] + Size(s, os[i]) <= os[j]
    decreases |s| - pos
  {
    hide Load16, Align, Size;
    var next := pos + Align(Size(s, pos));
    if i == 0 {
      WalkStaysInside(s, next);
      assert Offsets(s, next)[j - 1] in Offsets(s, next);
    } else {
      WalkDoesNotOverlap(s, next, i - 1, j - 1);
    }
  }

  /** The walk yields one attribute for each offset. */
  lemma {:induction false} WalkFollowsOffsets(s: seq<Byte>, pos: nat)
    ensures var os := Offsets(s, pos);
      |Walk(s, pos)| == |os| && forall i | 0 <= i < |os| :: Ok(s, os[i]) && Walk(s, pos)[i] == Item(s, os[i])
    decreases |s| - pos
  {
    hide Load16, Align, Size, Item;
    if Ok(s, pos) {
      WalkFollowsOffsets(s, pos + Align(Size(s, pos)));
    }
  }

  lemma U16Loads(before: seq<Byte>, n: nat, after: seq<Byte>)
    requires n <= USHRT_MAX
    ensures Load16(before + U16(n) + after, |before|) == n
  {
  }

  /** What the walk sees of one attribute on the wire. */
  lemma TlvReads(before: seq<Byte>, kind: nat, payload: seq<Byte>, after: seq<Byte>)
    requires kind <= USHRT_MAX && HDRLEN + |payload| <= USHRT_MAX
    ensures var s := before + Tlv(kind, payload) + after; var pos := |before|;
      && Ok(s, pos) && Size(s, pos) == HDRLEN + |payload|
      && Load16(s, pos + 2) == kind && Payload(s, pos) == payload
      && Type(s, pos) == kind % 0x4000
  {
    var n := HDRLEN + |payload|;
    var pad := Zeros(Align(n) - n);
    var s := before + Tlv(kind, payload) + after;
    var rest := payload + pad + after;
    assert s == before + U16(n) + (U16(kind) + rest);
    U16Loads(before, n, U16(kind) + rest);
    assert s == (before + U16(n)) + U16(kind) + rest;
    U16Loads(before + U16(n), kind, rest);
    assert s == before + Header(n, kind) + payload + (pad + after);
  }

  /** Walking the wire form of a tree gives the tree back. */
  lemma {:induction false} WalkOfEncode(before: seq<Byte>, attrs: seq<Attr>)
    requires AllFit(attrs)
    ensures Walk(before + EncodeAll(attrs), |before|) == attrs
    decreases attrs, 0
  {
    hide Item, Align, Encode, Size, Ok;
    var s := before + EncodeAll(attrs);
    if attrs == [] {
      assert s == before;
    } else {
      var a, rest := attrs[0], EncodeAll(attrs[1..]);
      ItemOfEncode(before, a, rest);
      assert s == before + Encode(a) + rest == (before + Encode(a)) + rest;
      WalkOfEncode(before + Encode(a), attrs[1..]);
    }
  }

  lemma {:induction false} ItemOfEncode(before: seq<Byte>, a: Attr, after: seq<Byte>)
    requires Fits(a)
    ensures var s := before + Encode(a) + after;
      Ok(s, |before|) && Align(Size(s, |before|)) == |Encode(a)| && Item(s, |before|) == a
    decreases a, 1
  {
    hide Align, Load16, Payload, EncodeAll, Walk, Tlv;
    match a
    case Leaf(kind, payload) =>
      TlvReads(before, kind, payload, after);
    case Nest(kind, kids) =>
      TlvReads(before, F_NESTED + kind, EncodeAll(kids), after);
      WalkOfEncode([], kids);
      assert [] + EncodeAll(kids) == EncodeAll(kids);
  }

  /** A leaf of one byte inside a container, byte by byte. */
  lemma WireExample()
    ensures Encode(Leaf(1, [7])) == [5, 0, 1, 0, 7, 0, 0, 0]
    ensures Encode(Nest(0x102, [Leaf(1, [7])])) == [12, 0, 2, 0x81, 5, 0, 1, 0, 7, 0, 0, 0]
  {
    assert [Leaf(1, [7])][1..] == [];
    assert EncodeAll([Leaf(1, [7])]) == Encode(Leaf(1, [7])) + EncodeAll([]);
  }

  /** All padding in the stream is zero, at every level: the bytes between the end of an attribute and the next one. */
  predicate ZeroPadded(s: seq<Byte>, pos: nat)
    decreases |s| - pos, 1
  {
    Ok(s, pos) ==>
      && (forall i :: pos + Size(s, pos) <= i < pos + Align(Size(s, pos)) && i < |s| ==> s[i] == 0)
      && (Load16(s, pos + 2) >= F_NESTED ==> ZeroPadded(Payload(s, pos), 0))
      && ZeroPadded(s, pos + Align(Size(s, pos)))
  }

  lemma {:induction false} EncodeIsZeroPadded(before: seq<Byte>, attrs: seq<Attr>)
    requires AllFit(attrs)
    ensures ZeroPadded(before + EncodeAll(attrs), |before|)
    decreases attrs
  {
    hide Load16, Align, Encode, Size, Ok, Payload, Tlv, Content;
    var s := before + EncodeAll(attrs);
    if attrs == [] {
      assert s == before;
      NothingAtEnd(s);
    } else {
      var a, rest := attrs[0], EncodeAll(attrs[1..]);
      assert s == before + Encode(a) + rest == (before + Encode(a)) + rest;
      FirstReads(before, a, rest);
      EncodeIsZeroPadded(before + Encode(a), attrs[1..]);
      if a.Nest? {
        EncodeIsZeroPadded([], a.kids);
        assert [] + EncodeAll(a.kids) == EncodeAll(a.kids);
      }
    }
  }

  lemma NothingAtEnd(s: seq<Byte>)
    ensures !Ok(s, |s|)
  {
  }

  // ----- what the stream of a tree looks like from outside

  /** What nla_data and nla_len delimit. */
  function Content(a: Attr): seq<Byte> {
    match a
    case Leaf(_, payload) => payload
    case Nest(_, kids) => EncodeAll(kids)
  }

  /** Header, payload and padding of the first attribute of a stream. */
  lemma FirstReads(before: seq<Byte>, a: Attr, rest: seq<Byte>)
    requires Fits(a)
    ensures var s, pos := before + Encode(a) + rest, |before|;
      && Ok(s, pos) && Type(s, pos) == a.kind % 0x4000 && Payload(s, pos) == Content(a)
      && (a.Nest? ==> Payload(s, pos) == EncodeAll(a.kids))
      && (Load16(s, pos + 2) >= F_NESTED <==> a.Nest?) && Align(Size(s, pos)) == |Encode(a)|
      && forall i :: pos + Size(s, pos) <= i < pos + Align(Size(s, pos)) && i < |s| ==> s[i] == 0
  {
    hide Align, Load16, Payload, EncodeAll, Tlv, Size, Ok, Header;
    var kind := if a.Nest? then F_NESTED + a.kind else a.kind;
    assert Encode(a) == Tlv(kind, Content(a));
    TlvReads(before, kind, Content(a), rest);
    TlvPadding(before, kind, Content(a), rest);
  }

  lemma TlvPadding(before: seq<Byte>, kind: nat, payload: seq<Byte>, after: seq<Byte>)
    ensures var s, end := before + Tlv(kind, payload) + after, |before| + HDRLEN + |payload|;
      forall i :: end <= i < |before| + |Tlv(kind, payload)| ==> s[i] == 0
  {
    hide Align, Header;
    var n := HDRLEN + |payload|;
    var pad := Zeros(Align(n) - n);
    var s, end := before + Tlv(kind, payload) + after, |before| + n;
    assert s == (before + Header(n, kind) + payload) + pad + after;
    ZerosAreZero(Align(n) - n);
    forall i | end <= i < |before| + |Tlv(kind, payload)|
      ensures s[i] == 0
    {
      assert s[i] == pad[i - end];
    }
  }

  /** Walking over the wire form of a list visits its elements in order, with their types and contents. */
  lemma {:induction false} OffsetsOfEncode(before: seq<Byte>, attrs: seq<Attr>)
    requires AllFit(attrs)
    ensures var s, os := before + EncodeAll(attrs), Offsets(before + EncodeAll(attrs), |before|);
      |os| == |attrs| && forall i | 0 <= i < |os| ::
        Ok(s, os[i]) && Type(s, os[i]) == attrs[i].kind % 0x4000 && Payload(s, os[i]) == Content(attrs[i])
    decreases |attrs|
  {
    hide Load16, Align, Encode, Size, Ok, Payload, Tlv, Content, Type;
    var s := before + EncodeAll(attrs);
    if attrs == [] {
      assert s == before;
      NothingAtEnd(s);
    } else {
      var a, rest := attrs[0], EncodeAll(attrs[1..]);
      assert s == before + Encode(a) + rest == (before + Encode(a)) + rest;
      FirstReads(before, a, rest);
      OffsetsOfEncode(before + Encode(a), attrs[1..]);
      assert Offsets(s, |before|) == [|before|] + Offsets(s, |before + Encode(a)|);
    }
  }

  // ----- validation and indexing of a stream

  const NLA_STRING: nat := 5
  const NLA_TYPE_MAX: nat := 15

  /** A struct nla_policy; zero lengths mean no limit of their own. */
  datatype Policy = Policy(kind: nat, minlen: nat, maxlen: nat)

  /** nla_attr_minlen: sizes for NLA_U8 to NLA_U64, one byte for NLA_STRING, nothing for the rest. */
  function MinLen(kind: nat): nat {
    if kind == 1 then 1 else if kind == 2 then 2 else if kind == 3 then 4 else if kind == 4 then 8
    else if kind == NLA_STRING then 1 else 0
  }

  ghost predicate Policies(policy: seq<Policy>, maxtype: nat) {
    |policy| == maxtype + 1 && forall p | p in policy :: p.kind <= NLA_TYPE_MAX
  }

  /** The payload is one the policy allows. */
  predicate Meets(payload: seq<Byte>, pt: Policy) {
    && (if pt.minlen != 0 then pt.minlen <= |payload| else MinLen(pt.kind) <= |payload|)
    && (pt.maxlen != 0 ==> |payload| <= pt.maxlen)
    && (pt.kind == NLA_STRING ==> payload != [] && payload[|payload| - 1] == 0)
  }

  /** validate_nla. */
  function Validate(s: seq<Byte>, pos: nat, maxtype: nat, policy: seq<Policy>): (err: int)
    requires Ok(s, pos) && Policies(policy, maxtype)
    ensures err == 0 || err == -8 || err == -7
    ensures err == 0 <==> Type(s, pos) > maxtype || Meets(Payload(s, pos), policy[Type(s, pos)])
    ensures err == -7 ==>
      var pt, p := policy[Type(s, pos)], Payload(s, pos); pt.kind == 5 && p != [] && p[|p| - 1] != 0
    ensures err == -8 ==>
      var pt, n := policy[Type(s, pos)], |Payload(s, pos)|;
      n < pt.minlen || (pt.maxlen != 0 && n > pt.maxlen) || (pt.minlen == 0 && n < MinLen(pt.kind))
  {
    var t := Type(s, pos);
    if t > maxtype then 0
    else
      var pt := policy[t];
      assert pt in policy;
      var len := Size(s, pos) - HDRLEN;
      var minlen := if pt.minlen != 0 then pt.minlen else if pt.kind != 0 then MinLen(pt.kind) else 0;
      if len < minlen then -NLE_RANGE
      else if pt.maxlen != 0 && len > pt.maxlen then -NLE_RANGE
      else if pt.kind == NLA_STRING && s[pos + HDRLEN + len - 1] != 0 then -NLE_INVAL
      else 0
  }

  /** The error of the first attribute from pos on that validate_nla rejects, or 0. */
  function FirstError(s: seq<Byte>, pos: nat, maxtype: nat, policy: seq<Policy>): int
    requires Policies(policy, maxtype)
    decreases |s| - pos
  {
    if !Ok(s, pos) then 0
    else if Validate(s, pos, maxtype, policy) < 0 then Validate(s, pos, maxtype, policy)
    else FirstError(s, pos + Align(Size(s, pos)), maxtype, policy)
  }

  /** Without limits of its own a policy asks for the bytes of its number type, or for a terminated string. */
  lemma FixedSizes(payload: seq<Byte>, kind: nat)
    ensures kind == 1 || kind == 2 ==> (Meets(payload, Policy(kind, 0, 0)) <==> |payload| >= kind)
    ensures kind == 3 ==> (Meets(payload, Policy(kind, 0, 0)) <==> |payload| >= 4)
    ensures kind == 4 ==> (Meets(payload, Policy(kind, 0, 0)) <==> |payload| >= 8)
    ensures kind == 5 ==>
      (Meets(payload, Policy(kind, 0, 0)) <==> exists text: seq<Byte> :: payload == text + [0])
    ensures kind == 0 || kind > 5 ==> Meets(payload, Policy(kind, 0, 0))
  {
    if kind == 5 && Meets(payload, Policy(kind, 0, 0)) {
      assert payload == payload[..|payload| - 1] + [0];
    }
  }

  /** The stream validates iff every attribute of a known type meets its policy. */
  lemma {:induction false} NoErrorIffAllMeet(s: seq<Byte>, pos: nat, maxtype: nat, policy: seq<Policy>)
    requires Policies(policy, maxtype)
    ensures forall o | o in Offsets(s, pos) :: Ok(s, o)
    ensures FirstError(s, pos, maxtype, policy) == 0 <==>
      forall o | o in Offsets(s, pos) && Type(s, o) <= maxtype :: Meets(Payload(s, o), policy[Type(s, o)])
    decreases |s| - pos
  {
    hide Load16, Align, Payload, Type, Meets;
    if Ok(s, pos) {
      var next := pos + Align(Size(s, pos));
      NoErrorIffAllMeet(s, next, maxtype, policy);
      assert Offsets(s, pos) == [pos] + Offsets(s, next);
    }
  }

  /** The index tb maps each type to the last of these attributes that has it, -1 for none. */
  ghost predicate IsIndex(tb: seq<int>, s: seq<Byte>, os: seq<nat>)
    requires forall o | o in os :: Ok(s, o)
  {
    forall t | 0 <= t < |tb| ::
      if tb[t] == -1 then forall o | o in os :: Type(s, o) != t
      else exists i | 0 <= i < |os| ::
        os[i] == tb[t] && Type(s, os[i]) == t && forall j | i < j < |os| :: Type(s, os[j]) != t
  }

  lemma NothingIndexed(tb: seq<int>, s: seq<Byte>)
    requires forall t | 0 <= t < |tb| :: tb[t] == -1
    ensures IsIndex(tb, s, [])
  {
  }

  lemma IndexNext(tb: seq<int>, s: seq<Byte>, os: seq<nat>, o: nat)
    requires (forall o | o in os :: Ok(s, o)) && Ok(s, o) && IsIndex(tb, s, os)
    ensures Type(s, o) < |tb| ==> IsIndex(tb[Type(s, o) := o], s, os + [o])
    ensures Type(s, o) >= |tb| ==> IsIndex(tb, s, os + [o])
  {
    hide Type, Ok;
    var os', k := os + [o], Type(s, o);
    var tb' := if k < |tb| then tb[k := o] else tb;
    forall t | 0 <= t < |tb'|
      ensures if tb'[t] == -1 then forall o | o in os' :: Type(s, o) != t
              else exists i | 0 <= i < |os'| ::
                os'[i] == tb'[t] && Type(s, os'[i]) == t && forall j | i < j < |os'| :: Type(s, os'[j]) != t
    {
      if t == k {
        assert os'[|os|] == o;
      } else if tb[t] != -1 {
        var i :| 0 <= i < |os| && os[i] == tb[t] && Type(s, os[i]) == t
                 && forall j | i < j < |os| :: Type(s, os[j]) != t;
        assert os'[i] == os[i];
      }
    }
  }

  /** One turn of the walk, and of the search for an error. */
  lemma WalkStep(s: seq<Byte>, pos: nat, maxtype: nat, policy: Option<seq<Policy>>)
    requires policy.Some? ==> Policies(policy.value, maxtype)
    ensures Offsets(s, pos) == if Ok(s, pos) then [pos] + Offsets(s, pos + Align(Size(s, pos))) else []
    ensures policy.Some? ==>
      FirstError(s, pos, maxtype, policy.value) ==
        if !Ok(s, pos) then 0
        else if Validate(s, pos, maxtype, policy.value) < 0 then Validate(s, pos, maxtype, policy.value)
        else FirstError(s, pos + Align(Size(s, pos)), maxtype, policy.value)
    ensures policy.Some? && Ok(s, pos) && Type(s, pos) > maxtype ==> Validate(s, pos, maxtype, policy.value) == 0
  {
    hide Load16, Align, Size, Type, Ok, Meets, Payload, MinLen;
  }

  /**
   * nla_parse. policy is None for a null pointer. On success tb indexes the last attribute of
   * every type up to maxtype; on an error it indexes the attributes before the rejected one.
   */
  method Parse(tb: array<int>, maxtype: nat, s: seq<Byte>, policy: Option<seq<Policy>>) returns (err: int)
    requires tb.Length == maxtype + 1
    requires policy.Some? ==> Policies(policy.value, maxtype)
    modifies tb
    ensures forall o | o in Offsets(s, 0) :: Ok(s, o)
    ensures err == if policy.Some? then FirstError(s, 0, maxtype, policy.value) else 0
    ensures err == 0 ==> IsIndex(tb[..], s, Offsets(s, 0))
    ensures err != 0 ==> exists i | 0 <= i < |Offsets(s, 0)| ::
      IsIndex(tb[..], s, Offsets(s, 0)[..i]) && Validate(s, Offsets(s, 0)[i], maxtype, policy.value) == err
  {
    hide Load16, Align, Size, Type, Ok, IsIndex, Meets, Payload, MinLen, Offsets, FirstError, Validate;
    WalkStaysInside(s, 0);
    for i := 0 to maxtype + 1
      invariant forall t | 0 <= t < i :: tb[t] == -1
    {
      tb[i] := -1;
    }
    var pos := 0;
    ghost var os: seq<nat> := [];
    NothingIndexed(tb[..], s);
    while Ok(s, pos)
      invariant Offsets(s, 0) == os + Offsets(s, pos)
      invariant forall o | o in os :: Ok(s, o)
      invariant IsIndex(tb[..], s, os)
      invariant policy.Some? ==> FirstError(s, 0, maxtype, policy.value) == FirstError(s, pos, maxtype, policy.value)
      decreases |s| - pos
    {
      var kind := Type(s, pos);
      ghost var next := pos + Align(Size(s, pos));
      WalkStep(s, pos, maxtype, policy);
      assert Offsets(s, 0) == os + [pos] + Offsets(s, next);
      if kind <= maxtype {
        if policy.Some? {
          err := Validate(s, pos, maxtype, policy.value);
          if err < 0 {
            assert Offsets(s, 0)[..|os|] == os && Offsets(s, 0)[|os|] == pos;
            return;
          }
        }
        IndexNext(tb[..], s, os, pos);
        ghost var before := tb[..];
        tb[kind] := pos;
        assert tb[..] == before[kind := pos];
      } else {
        IndexNext(tb[..], s, os, pos);
      }
      os := os + [pos];
      pos := pos + Align(Size(s, pos));
    }
    WalkStep(s, pos, maxtype, policy);
    assert os + [] == os;
    return 0;
  }

  /** nla_validate. */
  method ValidateStream(s: seq<Byte>, maxtype: nat, policy: seq<Policy>) returns (err: int)
    requires Policies(policy, maxtype)
    ensures err == FirstError(s, 0, maxtype, policy)
  {
    var pos := 0;
    while Ok(s, pos)
      invariant FirstError(s, 0, maxtype, policy) == FirstError(s, pos, maxtype, policy)
      decreases |s| - pos
    {
      err := Validate(s, pos, maxtype, policy);
      if err < 0 {
        return;
      }
      pos := pos + Align(Size(s, pos));
    }
    return 0;
  }

  /** The first attribute of the type from pos on, or -1. */
  function FirstOf(s: seq<Byte>, pos: nat, attrtype: nat): int
    decreases |s| - pos
  {
    if !Ok(s, pos) then -1
    else if Type(s, pos) == attrtype then pos
    else FirstOf(s, pos + Align(Size(s, pos)), attrtype)
  }

  lemma {:induction false} FirstOfIsFirst(s: seq<Byte>, pos: nat, attrtype: nat)
    ensures forall o | o in Offsets(s, pos) :: Ok(s, o)
    ensures var os, r := Offsets(s, pos), FirstOf(s, pos, attrtype);
      if r == -1 then forall o | o in os :: Type(s, o) != attrtype
      else r in os && Type(s, r) == attrtype && forall o | o in os && o < r :: Type(s, o) != attrtype
    decreases |s| - pos
  {
    hide Load16, Align, Size, Type;
    if Ok(s, pos) {
      var next := pos + Align(Size(s, pos));
      WalkStaysInside(s, next);
      FirstOfIsFirst(s, next, attrtype);
    }
  }

  /** nla_find. */
  method Find(s: seq<Byte>, attrtype: nat) returns (r: int)
    ensures r == FirstOf(s, 0, attrtype)
    ensures forall o | o in Offsets(s, 0) :: Ok(s, o)
    ensures if r == -1 then forall o | o in Offsets(s, 0) :: Type(s, o) != attrtype
            else
              && r in Offsets(s, 0) && Type(s, r) == attrtype
              && forall o | o in Offsets(s, 0) && o < r :: Type(s, o) != attrtype
  {
    hide Load16, Size, Type, Ok;
    FirstOfIsFirst(s, 0, attrtype);
    var pos := 0;
    while Ok(s, pos)
      invariant FirstOf(s, 0, attrtype) == FirstOf(s, pos, attrtype)
      decreases |s| - pos
    {
      if Type(s, pos) == attrtype {
        return pos;
      }
      pos := pos + Align(Size(s, pos));
    }
    return -1;
  }

  // ----- parsing and searching what was built

  function Kinds(attrs: seq<Attr>): (ks: seq<nat>)
    ensures |ks| == |attrs| && forall i :: 0 <= i < |ks| ==> ks[i] == attrs[i].kind % 0x4000
  {
    seq(|attrs|, i requires 0 <= i < |attrs| => attrs[i].kind % 0x4000)
  }

  lemma LastIsOne(ks: seq<nat>, t: nat, i: nat, k: nat)
    requires i < |ks| && k < |ks| && ks[i] == ks[k] == t
    requires (forall j | i < j < |ks| :: ks[j] != t) && forall j | k < j < |ks| :: ks[j] != t
    ensures i == k
  {
  }

  lemma FirstIsOne(ks: seq<nat>, t: nat, i: nat, k: nat)
    requires i < |ks| && k < |ks| && ks[i] == ks[k] == t
    requires (forall j | 0 <= j < i :: ks[j] != t) && forall j | 0 <= j < k :: ks[j] != t
    ensures i == k
  {
  }

  /** What the index says of a type. */
  lemma IndexEntry(tb: seq<int>, s: seq<Byte>, os: seq<nat>, t: nat) returns (i: nat)
    requires (forall o | o in os :: Ok(s, o)) && IsIndex(tb, s, os) && t < |tb|
    ensures tb[t] == -1 ==> forall k :: 0 <= k < |os| ==> Type(s, os[k]) != t
    ensures tb[t] != -1 ==>
      i < |os| && os[i] == tb[t] && Type(s, os[i]) == t && forall j | i < j < |os| :: Type(s, os[j]) != t
  {
    hide Type, Ok;
    if tb[t] == -1 {
      i := 0;
      assert forall k :: 0 <= k < |os| ==> os[k] in os;
    } else {
      i :| 0 <= i < |os| && os[i] == tb[t] && Type(s, os[i]) == t && forall j | i < j < |os| :: Type(s, os[j]) != t;
    }
  }

  /** The index of a built list: every type leads to the content of its last attribute, or to none. */
  lemma ParsedTree(tb: seq<int>, attrs: seq<Attr>, t: nat)
    requires AllFit(attrs) && t < |tb|
    requires var s := EncodeAll(attrs);
      (forall o | o in Offsets(s, 0) :: Ok(s, o)) && IsIndex(tb, s, Offsets(s, 0))
    ensures (forall a | a in attrs :: a.kind % 0x4000 != t) ==> tb[t] == -1
    ensures forall k | 0 <= k < |attrs| && attrs[k].kind % 0x4000 == t
                       && (forall j | k < j < |attrs| :: attrs[j].kind % 0x4000 != t) ::
      tb[t] >= 0 && Ok(EncodeAll(attrs), tb[t]) && Payload(EncodeAll(attrs), tb[t]) == Content(attrs[k])
  {
    hide Type, Ok, Payload, Content, EncodeAll, Offsets, AllFit;
    var s, os := EncodeAll(attrs), Offsets(EncodeAll(attrs), 0);
    assert [] + s == s;
    OffsetsOfEncode([], attrs);
    var ks := Kinds(attrs);
    var i := IndexEntry(tb, s, os, t);
    hide IsIndex, Kinds;
    assert forall k :: 0 <= k < |os| ==> ks[k] == Type(s, os[k]);
    if tb[t] == -1 {
      assert forall k :: 0 <= k < |attrs| ==> ks[k] != t;
    } else {
      assert attrs[i] in attrs;
      forall k | 0 <= k < |ks| && ks[k] == t && (forall j | k < j < |ks| :: ks[j] != t)
        ensures k == i
      {
        LastIsOne(ks, t, i, k);
      }
    }
  }

  /** nla_find in a built list gives the content of the first attribute of the type. */
  lemma FoundInTree(attrs: seq<Attr>, t: nat)
    requires AllFit(attrs)
    ensures var s := EncodeAll(attrs);
      var r := FirstOf(s, 0, t);
      && (r == -1 <==> forall a | a in attrs :: a.kind % 0x4000 != t)
      && (forall k | 0 <= k < |attrs| && attrs[k].kind % 0x4000 == t
                     && (forall j | 0 <= j < k :: attrs[j].kind % 0x4000 != t) ::
            r >= 0 && Ok(s, r) && Payload(s, r) == Content(attrs[k]))
  {
    hide Type, Ok, Payload, Content, EncodeAll, Offsets, AllFit, FirstOf;
    var s, os := EncodeAll(attrs), Offsets(EncodeAll(attrs), 0);
    var r := FirstOf(s, 0, t);
    assert [] + s == s;
    OffsetsOfEncode([], attrs);
    FirstOfIsFirst(s, 0, t);
    if r == -1 {
      forall k | 0 <= k < |attrs|
        ensures attrs[k].kind % 0x4000 != t
      {
        assert os[k] in os;
      }
    } else {
      var i :| 0 <= i < |os| && os[i] == r;
      var ks := Kinds(attrs);
      assert attrs[i] in attrs;
      forall j | 0 <= j < i
        ensures ks[j] != t
      {
        WalkDoesNotOverlap(s, 0, j, i);
        assert os[j] in os;
      }
      forall k | 0 <= k < |ks| && ks[k] == t && (forall j | 0 <= j < k :: ks[j] != t)
        ensures k == i
      {
        FirstIsOne(ks, t, i, k);
      }
    }
  }

  /** A built list validates iff the content of every attribute of a known type meets its policy. */
  lemma AcceptedTree(attrs: seq<Attr>, maxtype: nat, policy: seq<Policy>)
    requires AllFit(attrs) && Policies(policy, maxtype)
    ensures FirstError(EncodeAll(attrs), 0, maxtype, policy) == 0 <==>
      forall a | a in attrs && a.kind % 0x4000 <= maxtype :: Meets(Content(a), policy[a.kind % 0x4000])
  {
    hide Type, Ok, Payload, Content, EncodeAll, Offsets, AllFit, Meets, FirstError;
    var s, os := EncodeAll(attrs), Offsets(EncodeAll(attrs), 0);
    assert [] + s == s;
    OffsetsOfEncode([], attrs);
    NoErrorIffAllMeet(s, 0, maxtype, policy);
    forall k | 0 <= k < |attrs|
      ensures os[k] in os && attrs[k] in attrs
    {
    }
  }
}
