/** Cacheable objects: attribute masks, comparison, and identity. */
module Objects {
  import opened Wrappers
  import opened Lookup3

  // ----- abstract addresses

  /** A struct nl_addr; a_len is the number of bytes. */
  datatype Address = Address(family: int, prefixlen: int, bytes: seq<Byte>)

  /** memcmp over two buffers of the same length. */
  function MemCmp(a: seq<Byte>, b: seq<Byte>): int
    requires |a| == |b|
  {
    if a == [] then 0
    else if a[0] != b[0] then a[0] as int - b[0] as int
    else MemCmp(a[1..], b[1..])
  }

  lemma {:induction false} MemCmpZero(a: seq<Byte>, b: seq<Byte>)
    requires |a| == |b|
    ensures MemCmp(a, b) == 0 <==> a == b
  {
    if a != [] {
      if a[0] == b[0] {
        MemCmpZero(a[1..], b[1..]);
        assert a == [a[0]] + a[1..] && b == [b[0]] + b[1..];
      }
    }
  }

  /** Otherwise it is the difference of the first two bytes that differ. */
  lemma {:induction false} MemCmpFirst(a: seq<Byte>, b: seq<Byte>, k: nat)
    requires |a| == |b| && k < |a| && a[..k] == b[..k] && a[k] != b[k]
    ensures MemCmp(a, b) == a[k] as int - b[k] as int
  {
    if k > 0 {
      assert a[0] == a[..k][0] == b[..k][0] == b[0];
      assert a[1..][..k - 1] == a[..k][1..] == b[..k][1..] == b[1..][..k - 1];
      MemCmpFirst(a[1..], b[1..], k - 1);
    }
  }

  /** nl_addr_cmp; None is a null pointer. */
  function AddrCmp(a: Option<Address>, b: Option<Address>): int {
    if a == b then 0
    else if a.None? then -1
    else if b.None? then 1
    else
      var x, y := a.value, b.value;
      if x.family != y.family then x.family - y.family
      else if |x.bytes| != |y.bytes| then |x.bytes| - |y.bytes|
      else if |x.bytes| != 0 then
        (if MemCmp(x.bytes, y.bytes) != 0 then MemCmp(x.bytes, y.bytes) else x.prefixlen - y.prefixlen)
      else 0
  }

  /**
   * nl_addr_cmp tells two addresses equal iff family and bytes agree, and the prefix length too unless there are
   * no bytes.
   */
  lemma AddrCmpZero(a: Option<Address>, b: Option<Address>)
    ensures AddrCmp(a, b) == 0 <==>
      || (a.None? && b.None?)
      || (a.Some? && b.Some? && a.value.family == b.value.family && a.value.bytes == b.value.bytes
          && (a.value.bytes == [] || a.value.prefixlen == b.value.prefixlen))
  {
    if a.Some? && b.Some? && |a.value.bytes| == |b.value.bytes| {
      MemCmpZero(a.value.bytes, b.value.bytes);
    }
  }

  /** A null pointer comes first; then family, length, bytes and prefix length decide, in this order. */
  lemma AddrCmpOrder(a: Option<Address>, b: Option<Address>)
    ensures a.None? && b.Some? ==> AddrCmp(a, b) < 0 < AddrCmp(b, a)
    ensures a.Some? && b.Some? ==>
      var x, y := a.value, b.value;
      && (x.family < y.family ==> AddrCmp(a, b) < 0 < AddrCmp(b, a))
      && (x.family == y.family && |x.bytes| < |y.bytes| ==> AddrCmp(a, b) < 0 < AddrCmp(b, a))
      && (x.family == y.family && |x.bytes| == |y.bytes| ==>
            && (forall k | 0 <= k < |x.bytes| && x.bytes[..k] == y.bytes[..k] && x.bytes[k] < y.bytes[k] ::
                  AddrCmp(a, b) < 0 < AddrCmp(b, a))
            && (x.bytes == y.bytes && x.bytes != [] && x.prefixlen < y.prefixlen ==> AddrCmp(a, b) < 0 < AddrCmp(b, a)))
  {
    if a.Some? && b.Some? {
      var x, y := a.value, b.value;
      forall k | 0 <= k < |x.bytes| && |x.bytes| == |y.bytes| && x.bytes[..k] == y.bytes[..k] && x.bytes[k] < y.bytes[k]
        ensures x.family == y.family ==> AddrCmp(a, b) < 0 < AddrCmp(b, a)
      {
        MemCmpFirst(x.bytes, y.bytes, k);
        MemCmpFirst(y.bytes, x.bytes, k);
      }
      if |x.bytes| == |y.bytes| {
        MemCmpZero(x.bytes, y.bytes);
        MemCmpZero(y.bytes, x.bytes);
      }
    }
  }

  // ----- attribute values and comparison

  datatype Value = Num(n: int) | Addr(a: Address) | Blob(bytes: seq<Byte>)

  /**
   * The type-specific part of an object and its ce_mask. A mask is the set of its bit
   * numbers; a field without a value is at its zero default.
   */
  datatype Data = Data(mask: set<nat>, vals: map<nat, Value>)
  {
    function NumOf(i: nat): int { if i in vals && vals[i].Num? then vals[i].n else 0 }

    function AddrOf(i: nat): Option<Address> { if i in vals && vals[i].Addr? then Some(vals[i].a) else None }

    function BlobOf(i: nat): seq<Byte> { if i in vals && vals[i].Blob? then vals[i].bytes else [] }
  }

  /** ATTR_MISMATCH: the attribute is in only one object, or in both and the expression holds. */
  predicate Mismatch(a: Data, b: Data, attr: nat, expr: bool) {
    (attr in a.mask) != (attr in b.mask) || (attr in a.mask && attr in b.mask && expr)
  }

  /** A struct nl_object_ops, as far as comparison, identity and hashing go. */
  class ObjectOps {
    /** The attributes oo_compare looks at, each with ATTR_DIFF and its own expression. */
    const known: set<nat>
    const differs: (nat, Data, Data) -> bool
    /** The expressions used under LOOSE_COMPARISON. */
    const looselyDiffers: (nat, Data, Data) -> bool
    const idAttrs: set<nat>
    const idAttrsGet: Option<Data -> set<nat>>
    const keygen: Option<(Data, nat) -> nat>
    /** The objects the hash key is meant for. */
    ghost const admits: Data -> bool

    constructor (known: set<nat>, differs: (nat, Data, Data) -> bool, looselyDiffers: (nat, Data, Data) -> bool,
                 idAttrs: set<nat>, idAttrsGet: Option<Data -> set<nat>>, keygen: Option<(Data, nat) -> nat>,
                 ghost admits: Data -> bool)
      ensures this.known == known && this.differs == differs && this.looselyDiffers == looselyDiffers
      ensures this.idAttrs == idAttrs && this.idAttrsGet == idAttrsGet && this.keygen == keygen && this.admits == admits
    {
      this.known, this.differs, this.looselyDiffers := known, differs, looselyDiffers;
      this.idAttrs, this.idAttrsGet, this.keygen, this.admits := idAttrs, idAttrsGet, keygen, admits;
    }

    /** oo_compare: the attributes among attrs that mismatch. */
    function Compare(a: Data, b: Data, attrs: set<nat>, loose: bool): set<nat> {
      set i | i in known && i in attrs && Mismatch(a, b, i, if loose then looselyDiffers(i, a, b) else differs(i, a, b))
    }

    /** The id attributes an object provides; with none declared, all it has. */
    function Required(d: Data): set<nat> {
      if idAttrsGet.Some? then idAttrsGet.value(d) * d.mask
      else if idAttrs != {} then idAttrs * d.mask
      else d.mask
    }

    /** nl_object_identical for two objects of this type. */
    predicate SameId(a: Data, b: Data) {
      Required(a) == Required(b) && Compare(a, b, Required(a), false) == {}
    }

    /** nl_object_diff64. */
    function Diff(a: Data, b: Data): set<nat> { Compare(a, b, known, false) }

    /** nl_object_match_filter. */
    predicate Matches(d: Data, filter: Data) {
      Compare(d, filter, filter.mask, true) == {}
    }

    /** nl_object_keygen. */
    function Key(d: Data, size: nat): nat {
      if keygen.Some? then keygen.value(d, size) else 0
    }

    /** Each attribute's expression is the complement of an equivalence. */
    ghost predicate ComparesByEquivalences() {
      && (forall i, a :: !differs(i, a, a))
      && (forall i, a, b :: differs(i, a, b) ==> differs(i, b, a))
      && (forall i, a, b, c :: !differs(i, a, b) && !differs(i, b, c) ==> !differs(i, a, c))
    }

    /** Keys are below the table size, and identical objects have the same key. */
    ghost predicate HashesById() {
      && (forall d, size: nat | size > 0 :: Key(d, size) < size)
      && (forall a, b, size: nat | size > 0 && admits(a) && admits(b) && SameId(a, b) :: Key(a, size) == Key(b, size))
    }

    ghost predicate Lawful() {
      ComparesByEquivalences() && HashesById()
    }

    lemma LawfulCompares()
      requires Lawful()
      ensures ComparesByEquivalences()
    {
    }

    lemma CompareEmpty(a: Data, b: Data, attrs: set<nat>, loose: bool)
      ensures Compare(a, b, attrs, loose) == {} <==>
        forall i | i in known && i in attrs ::
          !Mismatch(a, b, i, if loose then looselyDiffers(i, a, b) else differs(i, a, b))
    {
      if i :| i in known && i in attrs
              && Mismatch(a, b, i, if loose then looselyDiffers(i, a, b) else differs(i, a, b)) {
        assert i in Compare(a, b, attrs, loose);
      }
    }

    /**
     * What a difference contains: every attribute of the type that only one object has, or that both have and that
     * compares as different.
     */
    lemma DiffTells(a: Data, b: Data, i: nat)
      ensures i in Diff(a, b) <==>
        i in known && ((i in a.mask) != (i in b.mask) || (i in a.mask && i in b.mask && differs(i, a, b)))
    {
    }

    /** So there is none iff the objects agree in every attribute of the type. */
    lemma NoDiffIffAgree(a: Data, b: Data)
      ensures Diff(a, b) == {} <==>
        forall i | i in known :: (i in a.mask <==> i in b.mask) && (i in a.mask ==> !differs(i, a, b))
    {
      CompareEmpty(a, b, known, false);
    }

    /** What identity means for declared, undeclared and computed id attributes. */
    lemma IdentityTells(a: Data, b: Data)
      ensures idAttrsGet.None? && idAttrs != {} ==>
        (SameId(a, b) <==>
           forall i | i in idAttrs ::
             (i in a.mask <==> i in b.mask) && (i in a.mask && i in known ==> !differs(i, a, b)))
      ensures idAttrsGet.None? && idAttrs == {} ==>
        (SameId(a, b) <==> a.mask == b.mask && forall i | i in a.mask && i in known :: !differs(i, a, b))
      ensures idAttrsGet.Some? ==>
        var p, q := idAttrsGet.value(a) * a.mask, idAttrsGet.value(b) * b.mask;
        (SameId(a, b) <==> p == q && forall i | i in p && i in known :: !differs(i, a, b))
    {
      CompareEmpty(a, b, Required(a), false);
      if idAttrsGet.None? && idAttrs != {} {
        assert forall i | i in idAttrs :: (i in Required(a) <==> i in a.mask) && (i in Required(b) <==> i in b.mask);
      }
    }

    /** An object matches a filter iff it has each attribute of the filter and none compares as different. */
    lemma MatchTells(d: Data, filter: Data)
      ensures Matches(d, filter) <==>
        forall i | i in known && i in filter.mask :: i in d.mask && !looselyDiffers(i, d, filter)
    {
      CompareEmpty(d, filter, filter.mask, true);
    }

    /** nl_object_identical is an equivalence relation when every expression is. */
    lemma IdentityIsEquivalence(a: Data, b: Data, c: Data)
      requires ComparesByEquivalences()
      ensures SameId(a, a)
      ensures SameId(a, b) ==> SameId(b, a)
      ensures SameId(a, b) && SameId(b, c) ==> SameId(a, c)
    {
      CompareEmpty(a, a, Required(a), false);
      CompareEmpty(a, b, Required(a), false);
      CompareEmpty(b, a, Required(b), false);
      CompareEmpty(b, c, Required(b), false);
      CompareEmpty(a, c, Required(a), false);
    }

    /** So is having no difference at all. */
    lemma NoDiffIsEquivalence(a: Data, b: Data, c: Data)
      requires ComparesByEquivalences()
      ensures Diff(a, a) == {}
      ensures Diff(a, b) == {} ==> Diff(b, a) == {}
      ensures Diff(a, b) == {} && Diff(b, c) == {} ==> Diff(a, c) == {}
    {
      CompareEmpty(a, a, known, false);
      CompareEmpty(a, b, known, false);
      CompareEmpty(b, a, known, false);
      CompareEmpty(b, c, known, false);
      CompareEmpty(a, c, known, false);
    }

    /** The loose flag makes no difference to how these attributes compare. */
    ghost predicate IgnoresLoose(attrs: set<nat>) {
      forall i, a, b | i in attrs :: looselyDiffers(i, a, b) == differs(i, a, b)
    }

    /**
     * A filter that carries exactly its own id attributes is identical to the objects that
     * match it and provide these same id attributes.
     */
    lemma IdenticalIffMatching(d: Data, filter: Data)
      requires Required(filter) == filter.mask && IgnoresLoose(filter.mask)
      ensures SameId(d, filter) <==> Matches(d, filter) && Required(d) == filter.mask
    {
      CompareEmpty(d, filter, filter.mask, true);
      CompareEmpty(d, filter, filter.mask, false);
    }

    /** When the id attributes are static and compared, every match provides them. */
    lemma IdFilterMatchesIdentical(d: Data, filter: Data)
      requires idAttrsGet.None? && idAttrs != {} && idAttrs <= known && filter.mask == idAttrs
      requires IgnoresLoose(idAttrs)
      ensures Matches(d, filter) <==> SameId(d, filter)
    {
      IdenticalIffMatching(d, filter);
      CompareEmpty(d, filter, filter.mask, true);
      if Matches(d, filter) {
        forall i | i in idAttrs
          ensures i in d.mask
        {
          assert !Mismatch(d, filter, i, looselyDiffers(i, d, filter));
        }
        assert Required(d) == idAttrs;
      }
    }

    /** The fast path of nl_cache_find answers the filter scan's question iff the type declares id attributes. */
    lemma IdFilterExact(filter: Data)
      requires idAttrsGet.None? && idAttrs <= known && filter.mask == idAttrs && IgnoresLoose(idAttrs)
      ensures (forall d :: Matches(d, filter) <==> SameId(d, filter)) <==> idAttrs != {}
    {
      if idAttrs != {} {
        forall d
          ensures Matches(d, filter) <==> SameId(d, filter)
        {
          IdFilterMatchesIdentical(d, filter);
        }
      } else {
        var d := Data({0}, map[]);
        assert Matches(d, filter) && Required(d) == {0} && !SameId(d, filter);
      }
    }
  }
}
