/** Building attributes in place in a netlink message buffer. */
module MessageBuilder {
  import opened Errors
  import opened Attributes

  const NLMSG_HDRLEN: nat := 16

  /** Bytes d written over b from position i on. */
  function Put(b: seq<Byte>, i: nat, d: seq<Byte>): (r: seq<Byte>)
    requires i + |d| <= |b|
    ensures |r| == |b| && r[..i] == b[..i]
  {
    b[..i] + d + b[i + |d|..]
  }

  /**
   * What nla_reserve leaves in the buffer: the two header fields, each cut to 16 bits, and
   * zeroed padding placed by the header's own length field.
   */
  function Reserved(b: seq<Byte>, at: nat, kind: nat, attrlen: nat): (r: seq<Byte>)
    requires at + Align(HDRLEN + attrlen) <= |b|
    ensures |r| == |b|
  {
    var size := HDRLEN + attrlen;
    var b1 := Put(b, at, Header(size, kind));
    if attrlen == 0 then b1 else Put(b1, at + size % (USHRT_MAX + 1), Zeros(Align(size) - size))
  }

  lemma PutBytes(b: seq<Byte>, i: nat, d: seq<Byte>)
    requires i + |d| <= |b|
    ensures forall k :: 0 <= k < |b| ==> Put(b, i, d)[k] == if i <= k < i + |d| then d[k - i] else b[k]
  {
  }

  lemma PutZeros(b: seq<Byte>, i: nat, n: nat)
    requires i + n <= |b|
    ensures forall k :: i <= k < i + n ==> Put(b, i, Zeros(n))[k] == 0
  {
    hide Put, Zeros;
    ZerosAreZero(n);
    PutBytes(b, i, Zeros(n));
  }

  /** The padding is zeroed, unless the length is cut: then other bytes are, and the padding stays as it was. */
  lemma ReservedPadding(b: seq<Byte>, at: nat, kind: nat, attrlen: nat)
    requires at + Align(HDRLEN + attrlen) <= |b|
    ensures var size := HDRLEN + attrlen;
      forall i :: at + size <= i < at + Align(size) ==>
        Reserved(b, at, kind, attrlen)[i] == if size <= USHRT_MAX then 0 else b[i]
  {
    hide Align, Put, Header;
    var size := HDRLEN + attrlen;
    var b1 := Put(b, at, Header(size, kind));
    PutBytes(b, at, Header(size, kind));
    ZerosAreZero(Align(size) - size);
    if attrlen != 0 {
      PutBytes(b1, at + size % (USHRT_MAX + 1), Zeros(Align(size) - size));
      if size > USHRT_MAX {
        assert size % (USHRT_MAX + 1) + 4 <= size;
      }
    }
  }

  lemma ReservedThenPayload(b: seq<Byte>, at: nat, kind: nat, payload: seq<Byte>)
    requires at + Align(HDRLEN + |payload|) <= |b| && HDRLEN + |payload| <= USHRT_MAX
    ensures Put(Reserved(b, at, kind, |payload|), at + HDRLEN, payload) == Put(b, at, Tlv(kind, payload))
  {
    hide Align, Header, Zeros, Put;
    var size := HDRLEN + |payload|;
    var pad, h := Zeros(Align(size) - size), Header(size, kind);
    var b1 := Put(b, at, h);
    assert size % (USHRT_MAX + 1) == size;
    PutNothing(b1, at + size);
    assert |payload| == 0 ==> pad == [];
    PutApart(b1, at + HDRLEN, payload, at + size, pad);
    PutTwice(b, at, h, payload);
    PutTwice(b, at, h + payload, pad);
  }

  lemma PutApart(b: seq<Byte>, i: nat, d: seq<Byte>, j: nat, e: seq<Byte>)
    requires i + |d| <= j && j + |e| <= |b|
    ensures Put(Put(b, j, e), i, d) == Put(Put(b, i, d), j, e)
  {
    var one, other := Put(Put(b, j, e), i, d), Put(Put(b, i, d), j, e);
    assert one == b[..i] + d + b[i + |d|..j] + e + b[j + |e|..];
    assert other == b[..i] + d + b[i + |d|..j] + e + b[j + |e|..];
  }

  lemma PutTwice(b: seq<Byte>, at: nat, d: seq<Byte>, e: seq<Byte>)
    requires at + |d| + |e| <= |b|
    ensures Put(Put(b, at, d), at + |d|, e) == Put(b, at, d + e)
  {
  }

  lemma PutNothing(b: seq<Byte>, i: nat)
    requires i <= |b|
    ensures Put(b, i, []) == b
  {
  }

  /** A payload put with nla_put reads back iff it is at most 65531 bytes long. */
  lemma PutReadsBackIff(b: seq<Byte>, at: nat, kind: nat, payload: seq<Byte>)
    requires at + Align(HDRLEN + |payload|) <= |b| && kind < F_NESTED
    ensures var image := Put(Reserved(b, at, kind, |payload|), at + HDRLEN, payload);
      Ok(image, at) && Item(image, at) == Leaf(kind, payload) <==> |payload| <= 65531
  {
    hide Align, Tlv, Load16;
    if |payload| <= 65531 {
      ReservedThenPayload(b, at, kind, payload);
      TlvReads(b[..at], kind, payload, b[at + |Tlv(kind, payload)|..]);
    }
  }

  /**
   * struct nl_msg with the message it points to: the buffer of nm_size bytes and nlmsg_len.
   * The first sixteen bytes are the message header; its other fields are not modelled.
   */
  class Msg {
    const buf: array<Byte>
    var len: nat

    ghost predicate Valid()
      reads this
    {
      NLMSG_HDRLEN <= Align(len) && len <= buf.Length < 0x8000_0000
    }

    constructor (max: nat)
      requires max < 0x8000_0000
      ensures Valid() && len == 16 && fresh(buf)
      ensures buf.Length == if max < 16 then 16 else max
      ensures forall i | 0 <= i < buf.Length :: buf[i] == 0
    {
      buf := new Byte[if max < NLMSG_HDRLEN then NLMSG_HDRLEN else max](i => 0);
      len := NLMSG_HDRLEN;
    }

    /** Overwrites part of the buffer: memcpy and memset. */
    method Write(i: nat, d: seq<Byte>)
      requires i + |d| <= buf.Length
      modifies buf
      ensures buf[..] == Put(old(buf[..]), i, d)
    {
      forall k | 0 <= k < |d| {
        buf[i + k] := d[k];
      }
    }

    /** nla_reserve: the offset of the new attribute, or -1. */
    method Reserve(kind: nat, attrlen: int) returns (at: int)
      requires Valid()
      modifies this`len, buf
      ensures Valid()
      ensures at == -1 <==> attrlen < 0 || Align(old(len)) + Align(HDRLEN + attrlen) > buf.Length
      ensures at == -1 ==> len == old(len) && buf[..] == old(buf[..])
      ensures at != -1 ==> at == Align(old(len)) && len == at + Align(HDRLEN + attrlen)
      ensures at != -1 ==> buf[..] == Reserved(old(buf[..]), at, kind, attrlen)
      ensures at != -1 && HDRLEN + attrlen <= USHRT_MAX ==> forall i :: at + HDRLEN + attrlen <= i < len ==> buf[i] == 0
    {
      hide Align, Put, Header, Zeros;
      if attrlen < 0 {
        return -1;
      }
      var tlen := Align(len) + Align(HDRLEN + attrlen);
      if tlen > buf.Length {
        return -1;
      }
      at := Align(len);
      ReservedPadding(buf[..], at, kind, attrlen);
      var size := HDRLEN + attrlen;
      Write(at, Header(size, kind));
      if attrlen != 0 {
        Write(at + size % (USHRT_MAX + 1), Zeros(Align(size) - size));
      }
      len := tlen;
    }

    /** nla_put. */
    method PutAttr(kind: nat, datalen: int, data: seq<Byte>) returns (err: int)
      requires Valid() && datalen <= |data|
      modifies this`len, buf
      ensures Valid()
      ensures err == if datalen < 0 then -NLE_INVAL
                     else if Align(old(len)) + Align(HDRLEN + datalen) > buf.Length then -NLE_NOMEM else 0
      ensures err != 0 ==> len == old(len) && buf[..] == old(buf[..])
      ensures err == 0 ==> len == Align(old(len)) + Align(HDRLEN + datalen)
      ensures err == 0 && HDRLEN + datalen <= USHRT_MAX ==>
        buf[..] == Put(old(buf[..]), Align(old(len)), Tlv(kind, data[..datalen]))
      ensures err == 0 ==>
        forall i :: Align(old(len)) + HDRLEN + datalen <= i < len ==>
          buf[i] == if HDRLEN + datalen <= USHRT_MAX then 0 else old(buf[i])
    {
      hide Reserved, Put, Tlv, Align;
      var at := Reserve(kind, datalen);
      if at == -1 {
        return if datalen < 0 then -NLE_INVAL else -NLE_NOMEM;
      }
      ReservedPadding(old(buf[..]), at, kind, datalen);
      if datalen > 0 {
        PutBytes(buf[..], at + HDRLEN, data[..datalen]);
        Write(at + HDRLEN, data[..datalen]);
      }
      if HDRLEN + datalen <= USHRT_MAX {
        ReservedThenPayload(old(buf[..]), at, kind, data[..datalen]);
        PutNothing(Reserved(old(buf[..]), at, kind, datalen), at + HDRLEN);
      }
      return 0;
    }

    /** The bytes nlmsg_attrdata and nlmsg_attrlen delimit after a family header of hdrlen bytes. */
    ghost function AttrStream(hdrlen: nat): seq<Byte>
      requires Valid()
      reads this, buf
    {
      var start := NLMSG_HDRLEN + Align(hdrlen);
      if start <= len then buf[start..len] else []
    }

    /** nlmsg_reserve, for pad zero or a power of two: the offset of the room, or -1. */
    method ReserveRoom(n: nat, pad: nat) returns (at: int)
      requires Valid()
      modifies this`len, buf
      ensures Valid()
      ensures var tlen := if pad == 0 then n else (n + pad - 1) / pad * pad;
        if n > buf.Length || old(len) + tlen > buf.Length then at == -1 && len == old(len) && buf[..] == old(buf[..])
        else at == old(len) && len == at + tlen && n <= tlen && buf[..] == Put(old(buf[..]), at + n, Zeros(tlen - n))
      ensures at != -1 ==> forall i :: at + n <= i < len ==> buf[i] == 0
    {
      hide Put, Zeros;
      if n > buf.Length {
        return -1;
      }
      var tlen := if pad == 0 then n else (n + pad - 1) / pad * pad;
      if len + tlen > buf.Length {
        return -1;
      }
      RoundedUp(n, pad);
      at := len;
      len := len + tlen;
      PutNothing(buf[..], at + n);
      assert Zeros(0) == [];
      if tlen > n {
        Write(at + n, Zeros(tlen - n));
        PutZeros(old(buf[..]), at + n, tlen - n);
        assert forall i :: at + n <= i < len ==> buf[i] == buf[..][i];
      }
    }

    /** nla_nest_start: the offset of the container, or -1. */
    method NestStart(kind: nat) returns (start: int)
      requires Valid() && kind < F_NESTED
      modifies this`len, buf
      ensures Valid()
      ensures start == -1 <==> Align(old(len)) + HDRLEN > buf.Length
      ensures start == -1 ==> len == old(len) && buf[..] == old(buf[..])
      ensures start != -1 ==> start == Align(old(len)) && len == start + HDRLEN
      ensures start != -1 ==> buf[..] == Put(old(buf[..]), start, Tlv(F_NESTED + kind, []))
    {
      start := Align(len);
      var err := PutAttr(F_NESTED + kind, 0, []);
      if err < 0 {
        return -1;
      }
    }

    /** nla_nest_cancel. */
    method NestCancel(start: nat)
      requires Valid() && start % 4 == 0 && NLMSG_HDRLEN <= start <= Align(len) <= buf.Length
      modifies this`len, buf
      ensures Valid() && Align(len) == start && old(len) - len == Align(old(len)) - start
      ensures buf[..] == Put(old(buf[..]), start, Zeros(Align(old(len)) - start))
      ensures forall i :: start <= i < Align(old(len)) ==> buf[i] == 0
    {
      hide Put, Zeros, Align;
      var n := Align(len) - start;
      PutNothing(buf[..], start);
      assert Zeros(0) == [];
      if n > 0 {
        AlignIs(len - n, start);
        len := len - n;
        Write(Align(len), Zeros(n));
        PutZeros(old(buf[..]), start, n);
        assert forall i :: start <= i < start + n ==> buf[i] == buf[..][i];
      }
    }

    /** _nest_end: strips a container that is too large or, unless kept, empty; otherwise writes its length. */
    method NestEnd(start: nat, keepEmpty: bool) returns (err: int)
      requires Valid() && start % 4 == 0 && NLMSG_HDRLEN <= start
      requires start + HDRLEN <= Align(len) <= buf.Length
      modifies this`len, buf
      ensures Valid()
      ensures var n := Align(old(len)) - start;
        if n > USHRT_MAX || (!keepEmpty && n == HDRLEN) then
          && err == (if n == HDRLEN then 0 else -NLE_ATTRSIZE)
          && Align(len) == start && old(len) - len == n && buf[..] == Put(old(buf[..]), start, Zeros(n))
        else
          err == 0 && len == Align(old(len)) && buf[..] == Put(old(buf[..]), start, U16(n))
    {
      hide Put, Align;
      var n := Align(len) - start;
      if n > USHRT_MAX || (!keepEmpty && n == HDRLEN) {
        NestCancel(start);
        return if n == HDRLEN then 0 else -NLE_ATTRSIZE;
      }
      Write(start, U16(n));
      var pad := Align(len) - len;
      if pad > 0 {
        PutNothing(buf[..], len + pad);
        var at := ReserveRoom(pad, 0);
        assert Zeros(pad - pad) == [];
        assert at != -1;
      }
      return 0;
    }
  }

  // ----- what building leaves of a tree

  /**
   * What is left of an attribute when the empty containers are stripped that keep does not hold of: those the caller
   * ends with nla_nest_end. It ends the others with nla_nest_end_keep_empty.
   */
  function Prune(keep: Attr -> bool, a: Attr): (r: seq<Attr>)
    ensures |r| <= 1
    decreases a, 1
  {
    match a
    case Leaf(_, _) => [a]
    case Nest(kind, kids) =>
      var left := PruneAll(keep, kids);
      if left == [] && !keep(a) then [] else [Nest(kind, left)]
  }

  function PruneAll(keep: Attr -> bool, attrs: seq<Attr>): (r: seq<Attr>)
    ensures |r| <= |attrs|
    decreases attrs, 0
  {
    if attrs == [] then [] else Prune(keep, attrs[0]) + PruneAll(keep, attrs[1..])
  }

  /** The room it takes to build an attribute: a container that is stripped needs it for a while. */
  function Room(keep: Attr -> bool, a: Attr): (n: nat)
    ensures n >= |EncodeAll(Prune(keep, a))| && n >= HDRLEN
    decreases a, 1
  {
    match a
    case Leaf(_, _) =>
      EncodeOne(a);
      |Encode(a)|
    case Nest(kind, kids) =>
      EncodeOne(Nest(kind, PruneAll(keep, kids)));
      EncodeNest(kind, PruneAll(keep, kids));
      HDRLEN + RoomAll(keep, kids)
  }

  function RoomAll(keep: Attr -> bool, attrs: seq<Attr>): (n: nat)
    ensures n >= |EncodeAll(PruneAll(keep, attrs))|
    decreases attrs, 0
  {
    if attrs == [] then 0
    else
      EncodeConcat(Prune(keep, attrs[0]), PruneAll(keep, attrs[1..]));
      var one, rest := Room(keep, attrs[0]), |EncodeAll(Prune(keep, attrs[0]))| + RoomAll(keep, attrs[1..]);
      if one >= rest then one else rest
  }

  /** What nla_put demands: types below the nested flag, and leaves that fit their length field. */
  predicate Sized(a: Attr)
    decreases a, 1
  {
    a.kind < F_NESTED && match a
      case Leaf(_, payload) => HDRLEN + |payload| <= USHRT_MAX
      case Nest(_, kids) => AllSized(kids)
  }

  predicate AllSized(attrs: seq<Attr>)
    decreases attrs, 0
  {
    attrs == [] || (Sized(attrs[0]) && AllSized(attrs[1..]))
  }

  /** Every container fits its length field when it is ended. */
  predicate Closes(keep: Attr -> bool, a: Attr)
    decreases a, 1
  {
    match a
    case Leaf(_, _) => true
    case Nest(_, kids) => AllClose(keep, kids) && HDRLEN + |EncodeAll(PruneAll(keep, kids))| <= USHRT_MAX
  }

  predicate AllClose(keep: Attr -> bool, attrs: seq<Attr>)
    decreases attrs, 0
  {
    attrs == [] || (Closes(keep, attrs[0]) && AllClose(keep, attrs[1..]))
  }

  /** No container is stripped. */
  predicate Settled(keep: Attr -> bool, a: Attr)
    decreases a, 1
  {
    match a
    case Leaf(_, _) => true
    case Nest(_, kids) => (kids != [] || keep(a)) && AllSettled(keep, kids)
  }

  predicate AllSettled(keep: Attr -> bool, attrs: seq<Attr>)
    decreases attrs, 0
  {
    attrs == [] || (Settled(keep, attrs[0]) && AllSettled(keep, attrs[1..]))
  }

  lemma EncodeOne(a: Attr)
    ensures EncodeAll([a]) == Encode(a)
  {
    hide Encode;
    assert [a][1..] == [];
    assert EncodeAll([a]) == Join(Encode(a), EncodeAll([]));
  }

  lemma EncodeLeaf(kind: nat, payload: seq<Byte>)
    ensures Encode(Leaf(kind, payload)) == Tlv(kind, payload)
  {
  }

  lemma EncodeNest(kind: nat, kids: seq<Attr>)
    ensures |Encode(Nest(kind, kids))| == HDRLEN + |EncodeAll(kids)| && |Tlv(F_NESTED + kind, [])| == HDRLEN
  {
    hide Align, Tlv, EncodeAll;
  }

  lemma {:induction false} EncodeConcat(a: seq<Attr>, b: seq<Attr>)
    ensures EncodeAll(a + b) == EncodeAll(a) + EncodeAll(b)
  {
    hide Encode;
    if a == [] {
      assert a + b == b;
    } else {
      assert (a + b)[1..] == a[1..] + b;
      EncodeConcat(a[1..], b);
    }
  }

  /** Only an empty list has an empty wire form. */
  lemma NothingLeftIff(attrs: seq<Attr>)
    ensures EncodeAll(attrs) == [] <==> attrs == []
  {
    hide Encode;
  }

  lemma {:induction false} PrunedFit(keep: Attr -> bool, attrs: seq<Attr>)
    requires AllSized(attrs) && AllClose(keep, attrs)
    ensures AllFit(PruneAll(keep, attrs))
    decreases attrs, 0
  {
    hide EncodeAll;
    if attrs != [] {
      PrunedFit(keep, attrs[1..]);
      var one, rest := Prune(keep, attrs[0]), PruneAll(keep, attrs[1..]);
      if attrs[0].Nest? {
        PrunedFit(keep, attrs[0].kids);
      }
      assert one != [] ==> Fits(one[0]) && (one + rest)[1..] == rest;
      assert one == [] ==> one + rest == rest;
    }
  }

  /** Pruning leaves a tree as it is iff no container is stripped; then building needs room for the result only. */
  lemma {:induction false} PrunedIsSameIff(keep: Attr -> bool, attrs: seq<Attr>)
    ensures PruneAll(keep, attrs) == attrs <==> AllSettled(keep, attrs)
    ensures AllSettled(keep, attrs) ==> RoomAll(keep, attrs) == |EncodeAll(attrs)|
    decreases attrs, 0
  {
    hide Encode, EncodeAll;
    if attrs == [] {
      NothingLeftIff(attrs);
    } else {
      var a, rest := attrs[0], PruneAll(keep, attrs[1..]);
      var one := Prune(keep, a);
      PrunedIsSameIff(keep, attrs[1..]);
      if a.Nest? {
        PrunedIsSameIff(keep, a.kids);
        EncodeNest(a.kind, a.kids);
      }
      assert Settled(keep, a) <==> one == [a];
      if one == [a] {
        assert one + rest == attrs <==> rest == attrs[1..] by {
          assert (one + rest)[1..] == rest && (one + rest)[0] == a;
        }
        EncodeOne(a);
        EncodeConcat([a], attrs[1..]);
        assert [a] + attrs[1..] == attrs;
        assert Settled(keep, a) ==> Room(keep, a) == |Encode(a)|;
      } else {
        assert one != [] ==> (one + rest)[0] != a;
      }
    }
  }

  // ----- building whole trees

  /**
   * The bytes of b before at stay, e stands behind them, and nothing changes from room bytes behind at on.
   */
  predicate Extends(image: seq<Byte>, b: seq<Byte>, at: nat, e: seq<Byte>, room: nat) {
    && |image| == |b| && |e| <= room && at + room <= |b|
    && image[..at + |e|] == b[..at] + e && image[at + room..] == b[at + room..]
  }

  lemma PutExtends(b: seq<Byte>, at: nat, d: seq<Byte>)
    requires at + |d| <= |b|
    ensures Extends(Put(b, at, d), b, at, d, |d|)
  {
  }

  lemma NothingExtends(b: seq<Byte>, at: nat)
    requires at <= |b|
    ensures Extends(b, b, at, [], 0)
  {
  }

  lemma ExtendsTwice(b: seq<Byte>, at: nat, b1: seq<Byte>, e: seq<Byte>, room: nat,
                     b2: seq<Byte>, f: seq<Byte>, more: nat)
    requires Extends(b1, b, at, e, room) && Extends(b2, b1, at + |e|, f, more)
    ensures Extends(b2, b, at, e + f, if room >= |e| + more then room else |e| + more)
  {
    var all := if room >= |e| + more then room else |e| + more;
    assert b2[..at + |e + f|] == b[..at] + e + f;
    forall i | at + all <= i < |b| ensures b2[i] == b[i] {
      assert b2[i] == b2[at + |e| + more..][i - (at + |e| + more)];
      assert b1[i] == b1[at + room..][i - (at + room)];
    }
  }

  /** All before it stays. */
  lemma ExtendsPrefix(image: seq<Byte>, b: seq<Byte>, at: nat, e: seq<Byte>, room: nat, n: nat)
    requires Extends(image, b, at, e, room) && n <= at
    ensures image[..n] == b[..n]
  {
    assert image[..n] == image[..at + |e|][..n];
  }

  /** Patching the length of an opened container with its contents gives the wire form of the container. */
  lemma NestImage(b: seq<Byte>, at: nat, kind: nat, kids: seq<Attr>, image: seq<Byte>, room: nat)
    requires kind < F_NESTED && HDRLEN + |EncodeAll(kids)| <= USHRT_MAX
    requires Extends(image, b, at, Tlv(F_NESTED + kind, []) + EncodeAll(kids), room)
    ensures Extends(Put(image, at, U16(HDRLEN + |EncodeAll(kids)|)), b, at, Encode(Nest(kind, kids)), room)
  {
    hide EncodeAll;
    var e := EncodeAll(kids);
    var k, n := F_NESTED + kind, HDRLEN + |EncodeAll(kids)|;
    assert Tlv(k, []) + e == U16(HDRLEN) + (U16(k) + e);
    assert Encode(Nest(kind, kids)) == U16(n) + (U16(k) + e);
    Repatch(b, at, U16(HDRLEN), U16(n), U16(k) + e, image, room);
  }

  /** Overwriting the first bytes of what was written. */
  lemma Repatch(b: seq<Byte>, at: nat, d: seq<Byte>, d': seq<Byte>, e: seq<Byte>, image: seq<Byte>, room: nat)
    requires Extends(image, b, at, d + e, room) && |d| == |d'|
    ensures Extends(Put(image, at, d'), b, at, d' + e, room)
  {
    var n := at + |d + e|;
    var patched := Put(image, at, d');
    ExtendsPrefix(image, b, at, d + e, room, at);
    assert image[at + |d|..n] == image[..n][at + |d|..] == e;
    assert patched[..n] == image[..at] + d' + image[at + |d|..n];
    assert patched[at + room..] == image[at + room..];
  }

  /** Cancelling a container leaves nothing of it. */
  lemma CancelImage(b: seq<Byte>, at: nat, e: seq<Byte>, image: seq<Byte>, room: nat)
    requires Extends(image, b, at, e, room)
    ensures Extends(Put(image, at, Zeros(|e|)), b, at, [], room)
  {
    var cleared := Put(image, at, Zeros(|e|));
    ExtendsPrefix(image, b, at, e, room, at);
    assert cleared[..at] == image[..at];
    assert cleared[at + room..] == image[at + room..];
  }

  /** Where the next attribute goes, and the bytes before it that the buffer has. */
  function Before(len: nat, size: nat): (n: nat)
    ensures n <= size && n <= Align(len)
  {
    if Align(len) <= size then Align(len) else size
  }

  /** The bytes before the aligned length stay whatever happens. */
  twostate predicate Spared(msg: Msg)
    reads msg, msg.buf
  {
    var n := Before(old(msg.len), msg.buf.Length);
    msg.buf[..n] == old(msg.buf[..])[..n]
  }

  /** One attribute and the others. */
  lemma Unfolded(keep: Attr -> bool, attrs: seq<Attr>)
    requires attrs != []
    ensures AllSized(attrs) ==> Sized(attrs[0]) && AllSized(attrs[1..])
    ensures AllClose(keep, attrs) <==> Closes(keep, attrs[0]) && AllClose(keep, attrs[1..])
    ensures var e, f := EncodeAll(Prune(keep, attrs[0])), EncodeAll(PruneAll(keep, attrs[1..]));
      && EncodeAll(PruneAll(keep, attrs)) == e + f
      && var one, more := Room(keep, attrs[0]), RoomAll(keep, attrs[1..]);
         RoomAll(keep, attrs) == if one >= |e| + more then one else |e| + more
    ensures attrs[1..] == [] ==> PruneAll(keep, attrs[1..]) == [] && RoomAll(keep, attrs[1..]) == 0
  {
    hide EncodeAll;
    EncodeConcat(Prune(keep, attrs[0]), PruneAll(keep, attrs[1..]));
  }

  /**
   * A caller's encoder: nla_put for a leaf, nla_nest_start and one of the two ends around the contents of a
   * container.
   */
  method BuildOne(msg: Msg, keep: Attr -> bool, a: Attr) returns (ok: bool)
    requires msg.Valid() && Sized(a)
    modifies msg`len, msg.buf
    ensures msg.Valid() && Align(old(msg.len)) <= Align(msg.len) && (msg.len % 4 == 0 || msg.len == old(msg.len))
    ensures ok <==> Closes(keep, a) && Align(old(msg.len)) + Room(keep, a) <= msg.buf.Length
    ensures var at, e := Align(old(msg.len)), EncodeAll(Prune(keep, a));
      ok ==> msg.len == at + |e| && Extends(msg.buf[..], old(msg.buf[..]), at, e, Room(keep, a))
    ensures Spared(msg)
    decreases a, 2
  {
    hide Tlv, Encode, EncodeAll, Put, Align, Extends;
    match a
    case Leaf(kind, payload) =>
      EncodeLeaf(kind, payload);
      EncodeOne(a);
      var err := msg.PutAttr(kind, |payload|, payload);
      assert payload[..|payload|] == payload;
      if err == 0 {
        PutExtends(old(msg.buf[..]), Align(old(msg.len)), Encode(a));
      }
      return err == 0;
    case Nest(kind, kids) =>
      ok := BuildNest(msg, keep, a);
  }

  method BuildNest(msg: Msg, keep: Attr -> bool, a: Attr) returns (ok: bool)
    requires msg.Valid() && Sized(a) && a.Nest?
    modifies msg`len, msg.buf
    ensures msg.Valid() && Align(old(msg.len)) <= Align(msg.len) && (msg.len % 4 == 0 || msg.len == old(msg.len))
    ensures ok <==> Closes(keep, a) && Align(old(msg.len)) + Room(keep, a) <= msg.buf.Length
    ensures var at, e := Align(old(msg.len)), EncodeAll(Prune(keep, a));
      ok ==> msg.len == at + |e| && Extends(msg.buf[..], old(msg.buf[..]), at, e, Room(keep, a))
    ensures Spared(msg)
    decreases a, 1
  {
    hide Tlv, Encode, EncodeAll, Put, Align, Extends, Prune, PruneAll, Closes, Room, RoomAll, Sized;
    ghost var b := msg.buf[..];
    NestOutcome(keep, a);
    var start := msg.NestStart(a.kind);
    if start == -1 {
      return false;
    }
    ok := FillNest(msg, start, keep, a, b);
  }

  /** The contents and the end of a container that has been opened. */
  method FillNest(msg: Msg, start: nat, keep: Attr -> bool, a: Attr, ghost b: seq<Byte>) returns (ok: bool)
    requires msg.Valid() && Sized(a) && a.Nest? && start % 4 == 0 && NLMSG_HDRLEN <= start
    requires msg.len == start + HDRLEN <= |b| && |Tlv(F_NESTED + a.kind, [])| == HDRLEN
    requires msg.buf[..] == Put(b, start, Tlv(F_NESTED + a.kind, []))
    modifies msg`len, msg.buf
    ensures msg.Valid() && start <= msg.len && msg.len % 4 == 0 && msg.buf[..start] == b[..start]
    ensures ok <==> Closes(keep, a) && start + Room(keep, a) <= msg.buf.Length
    ensures var e := EncodeAll(Prune(keep, a));
      ok ==> msg.len == start + |e| && Extends(msg.buf[..], b, start, e, Room(keep, a))
    decreases a, 0
  {
    hide Tlv, Encode, EncodeAll, Put, Align, Extends, Prune, PruneAll, Closes, Room, RoomAll, Sized;
    hide AllClose, AllSized;
    ghost var left, head := PruneAll(keep, a.kids), Tlv(F_NESTED + a.kind, []);
    NestOutcome(keep, a);
    NothingExtends(msg.buf[..], start + HDRLEN);
    ok := BuildAll(msg, keep, a.kids);
    StillBefore(b, start, head, msg.buf[..]);
    if ok {
      InsideOpened(b, start, head, msg.buf[..], EncodeAll(left), RoomAll(keep, a.kids));
      ok := CloseNest(msg, start, keep, a, b);
    }
  }

  /** What stands behind the header of an open container extends the message before it was opened. */
  lemma InsideOpened(b: seq<Byte>, at: nat, head: seq<Byte>, image: seq<Byte>, e: seq<Byte>, room: nat)
    requires at + |head| <= |b| && Extends(image, Put(b, at, head), at + |head|, e, room)
    ensures Extends(image, b, at, head + e, |head| + room)
  {
    PutExtends(b, at, head);
    ExtendsTwice(b, at, Put(b, at, head), head, |head|, image, e, room);
  }

  lemma StillBefore(b: seq<Byte>, at: nat, head: seq<Byte>, image: seq<Byte>)
    requires at + |head| <= |b| == |image| && image[..at + |head|] == Put(b, at, head)[..at + |head|]
    ensures image[..at] == b[..at]
  {
    assert image[..at] == image[..at + |head|][..at];
  }

  /** The end of a container whose contents have been built. */
  method CloseNest(msg: Msg, start: nat, keep: Attr -> bool, a: Attr, ghost b: seq<Byte>) returns (ok: bool)
    requires msg.Valid() && Sized(a) && a.Nest? && AllClose(keep, a.kids)
    requires start % 4 == 0 && NLMSG_HDRLEN <= start
    requires var e := EncodeAll(PruneAll(keep, a.kids));
      && msg.len == start + HDRLEN + |e|
      && Extends(msg.buf[..], b, start, Tlv(F_NESTED + a.kind, []) + e, Room(keep, a))
    modifies msg`len, msg.buf
    ensures msg.Valid() && start <= msg.len && msg.len % 4 == 0 && msg.buf[..start] == b[..start]
    ensures ok <==> Closes(keep, a)
    ensures var e := EncodeAll(Prune(keep, a));
      ok ==> msg.len == start + |e| && Extends(msg.buf[..], b, start, e, Room(keep, a))
  {
    hide Tlv, Encode, EncodeAll, Put, Align, Prune, PruneAll, Closes, Room, RoomAll, Sized, AllClose;
    ghost var image, left, head := msg.buf[..], PruneAll(keep, a.kids), Tlv(F_NESTED + a.kind, []);
    NestOutcome(keep, a);
    ExtendsPrefix(image, b, start, head + EncodeAll(left), Room(keep, a), start);
    var err := msg.NestEnd(start, keep(a));
    hide Extends;
    ok := err == 0;
    if ok {
      if EncodeAll(Prune(keep, a)) == [] {
        assert head + EncodeAll(left) == head;
        CancelImage(b, start, head, image, Room(keep, a));
      } else {
        NestImage(b, start, a.kind, left, image, Room(keep, a));
      }
    }
  }

  /** What becomes of a container and how much room that takes. */
  lemma NestOutcome(keep: Attr -> bool, a: Attr)
    requires a.Nest? && Sized(a)
    ensures a.kind < F_NESTED && AllSized(a.kids) && Room(keep, a) == HDRLEN + RoomAll(keep, a.kids)
    ensures var left := PruneAll(keep, a.kids);
      && (a.kids == [] ==> left == [] && RoomAll(keep, a.kids) == 0 && AllClose(keep, []))
      && (EncodeAll(left) == [] <==> left == [])
      && (Closes(keep, a) <==> AllClose(keep, a.kids) && HDRLEN + |EncodeAll(left)| <= USHRT_MAX)
      && |Tlv(F_NESTED + a.kind, [])| == HDRLEN && |Encode(Nest(a.kind, left))| == HDRLEN + |EncodeAll(left)|
      && EncodeAll(Prune(keep, a)) == if left == [] && !keep(a) then [] else Encode(Nest(a.kind, left))
  {
    hide Encode, Tlv;
    var left := PruneAll(keep, a.kids);
    NothingLeftIff(left);
    EncodeNest(a.kind, left);
    EncodeOne(Nest(a.kind, left));
  }

  method BuildAll(msg: Msg, keep: Attr -> bool, attrs: seq<Attr>) returns (ok: bool)
    requires msg.Valid() && AllSized(attrs)
    modifies msg`len, msg.buf
    ensures msg.Valid() && Align(old(msg.len)) <= Align(msg.len) && (msg.len % 4 == 0 || msg.len == old(msg.len))
    ensures ok <==>
      attrs == [] || (AllClose(keep, attrs) && Align(old(msg.len)) + RoomAll(keep, attrs) <= msg.buf.Length)
    ensures attrs == [] ==> msg.len == old(msg.len) && msg.buf[..] == old(msg.buf[..])
    ensures var at, e := Align(old(msg.len)), EncodeAll(PruneAll(keep, attrs));
      ok && attrs != [] ==>
        msg.len == at + |e| && Extends(msg.buf[..], old(msg.buf[..]), at, e, RoomAll(keep, attrs))
    ensures Spared(msg)
    decreases attrs, 0
  {
    hide Encode, EncodeAll, Put, Sized, AllSized, Closes, AllClose, Room, RoomAll, Prune, PruneAll, Align, Extends;
    if attrs == [] {
      return true;
    }
    Unfolded(keep, attrs);
    ghost var b, at := msg.buf[..], Align(msg.len);
    ok := BuildOne(msg, keep, attrs[0]);
    if ok {
      ghost var b1, e := msg.buf[..], EncodeAll(Prune(keep, attrs[0]));
      NothingExtends(b1, msg.len);
      NothingToBuild(keep);
      ok := BuildAll(msg, keep, attrs[1..]);
      if ok {
        ghost var f, more := EncodeAll(PruneAll(keep, attrs[1..])), RoomAll(keep, attrs[1..]);
        ExtendsTwice(b, at, b1, e, Room(keep, attrs[0]), msg.buf[..], f, more);
      }
    }
  }

  lemma NothingToBuild(keep: Attr -> bool)
    ensures PruneAll(keep, []) == [] && RoomAll(keep, []) == 0 && EncodeAll([]) == [] && AllClose(keep, [])
  {
  }

  /** nlmsg_put with a payload: room for the family header after the message header. */
  method StartMessage(max: nat, hdrlen: nat) returns (msg: Msg, ok: bool)
    requires max < 0x8000_0000
    ensures msg.Valid() && fresh(msg) && fresh(msg.buf) && msg.len <= msg.buf.Length
    ensures ok <==> NLMSG_HDRLEN + Align(hdrlen) <= msg.buf.Length
    ensures ok ==> msg.len == NLMSG_HDRLEN + Align(hdrlen)
  {
    hide Put;
    msg := new Msg(max);
    if hdrlen > 0 {
      var at := msg.ReserveRoom(hdrlen, 4);
      return msg, at != -1;
    }
    return msg, true;
  }

  /**
   * A message built from any tree of attributes that nla_put takes walks back to what is left of the tree when the
   * containers to be stripped are: the whole tree iff none is. The build succeeds iff every container fits its length
   * field and the buffer has the room.
   */
  method BuildMessage(max: nat, hdrlen: nat, keep: Attr -> bool, attrs: seq<Attr>) returns (msg: Msg, ok: bool)
    requires max < 0x8000_0000 && AllSized(attrs)
    ensures msg.Valid() && fresh(msg)
    ensures ok <==> AllClose(keep, attrs) && NLMSG_HDRLEN + Align(hdrlen) + RoomAll(keep, attrs) <= msg.buf.Length
    ensures ok ==> msg.AttrStream(hdrlen) == EncodeAll(PruneAll(keep, attrs))
    ensures ok ==> Walk(msg.AttrStream(hdrlen), 0) == PruneAll(keep, attrs)
    ensures ok ==> (Walk(msg.AttrStream(hdrlen), 0) == attrs <==> AllSettled(keep, attrs))
    ensures ok ==> ZeroPadded(msg.AttrStream(hdrlen), 0)
    ensures AllSettled(keep, attrs) ==>
      (ok <==> AllFit(attrs) && NLMSG_HDRLEN + Align(hdrlen) + |EncodeAll(attrs)| <= msg.buf.Length)
  {
    hide Put, EncodeAll, Walk, Align, AllFit, PruneAll, AllClose, AllSettled, RoomAll, AllSized, Extends;
    PrunedIsSameIff(keep, attrs);
    SettledFitIff(keep, attrs);
    msg, ok := StartMessage(max, hdrlen);
    if !ok {
      return;
    }
    ghost var b, start, left := msg.buf[..], msg.len, PruneAll(keep, attrs);
    NothingToBuild(keep);
    NothingExtends(b, start);
    ok := BuildAll(msg, keep, attrs);
    if ok {
      ExtensionReads(msg.buf[..], b, start, EncodeAll(left), RoomAll(keep, attrs));
      assert msg.AttrStream(hdrlen) == EncodeAll(left);
      PrunedFit(keep, attrs);
      WalkOfEncode([], left);
      EncodeIsZeroPadded([], left);
      assert [] + EncodeAll(left) == EncodeAll(left);
    }
  }

  lemma ExtensionReads(image: seq<Byte>, b: seq<Byte>, at: nat, e: seq<Byte>, room: nat)
    requires Extends(image, b, at, e, room)
    ensures image[at..at + |e|] == e
  {
    assert image[at..at + |e|] == image[..at + |e|][at..];
  }

  lemma {:induction false} SettledFitIff(keep: Attr -> bool, attrs: seq<Attr>)
    requires AllSized(attrs)
    ensures AllSettled(keep, attrs) ==> (AllClose(keep, attrs) <==> AllFit(attrs))
    decreases attrs, 0
  {
    hide EncodeAll;
    if attrs != [] {
      SettledFitIff(keep, attrs[1..]);
      if attrs[0].Nest? {
        SettledFitIff(keep, attrs[0].kids);
        PrunedIsSameIff(keep, attrs[0].kids);
        assert Settled(keep, attrs[0]) ==> (Closes(keep, attrs[0]) <==> Fits(attrs[0]));
      }
    }
  }

  /** A container opened, filled as far as it goes and cancelled leaves the message as it was. */
  method OpenFillCancel(msg: Msg, kind: nat, keep: Attr -> bool, kids: seq<Attr>)
    requires msg.Valid() && kind < F_NESTED && AllSized(kids)
    modifies msg`len, msg.buf
    ensures msg.Valid() && Align(msg.len) == Align(old(msg.len)) && Spared(msg)
  {
    hide Put, EncodeAll, Tlv;
    var start := msg.NestStart(kind);
    if start != -1 {
      var _ := BuildAll(msg, keep, kids);
      assert msg.buf[..start] == msg.buf[..start + HDRLEN][..start];
      msg.NestCancel(start);
    }
  }

  /** nla_nest_end strips a container that stayed empty. */
  method OpenCloseEmpty(msg: Msg, kind: nat) returns (err: int)
    requires msg.Valid() && kind < F_NESTED
    requires Align(msg.len) + HDRLEN <= msg.buf.Length
    modifies msg`len, msg.buf
    ensures err == 0 && msg.Valid() && msg.len == Align(old(msg.len))
    ensures msg.buf[..msg.len] == old(msg.buf[..Align(msg.len)])
  {
    hide Put, Tlv;
    var start := msg.NestStart(kind);
    err := msg.NestEnd(start, false);
  }

  lemma RoundedUp(n: nat, pad: nat)
    ensures pad > 0 ==> n <= (n + pad - 1) / pad * pad
  {
    if pad > 0 {
      var q, r := (n + pad - 1) / pad, (n + pad - 1) % pad;
      assert n + pad - 1 == q * pad + r && r < pad;
    }
  }
}
