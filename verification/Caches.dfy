/** The object cache: a list of reference-counted objects, indexed by a chained hash table. */
module Caches {
  import opened Wrappers
  import opened Errors
  import opened Objects

  /** A struct nl_object. */
  class Obj {
    const ops: ObjectOps
    const data: Data
    var refcnt: int
    var cache: Cache?
    /** ce_list does not point to itself. Removal leaves the links stale, so this stays true. */
    var listed: bool
    var marked: bool
    var freed: bool
    /** References held by callers. */
    ghost var handles: nat
    ghost var inList: bool
    ghost var inTable: bool

    /** ce_refcnt is the number of handles, plus one on a cache list, plus one in its hash table. */
    ghost predicate Counted()
      reads this
    {
      && refcnt == handles + (if inList then 1 else 0) + (if inTable then 1 else 0)
      && (freed <==> refcnt == 0)
      && (cache == null ==> !inList && !inTable)
    }

    /** Counted, and not in the middle of a list operation. */
    ghost predicate AtRest()
      reads this
    {
      Counted() && (cache != null <==> inList) && (inList ==> listed)
    }

    constructor (ops: ObjectOps, data: Data)
      ensures Counted() && handles == 1 && cache == null && !listed && !marked && !inList && !inTable
      ensures this.ops == ops && this.data == data
    {
      this.ops, this.data := ops, data;
      refcnt, cache, listed, marked, freed := 1, null, false, false, false;
      handles, inList, inTable := 1, false, false;
    }

    /** nl_object_get. */
    method Get()
      requires Counted() && !freed
      modifies this`refcnt, this`handles
      ensures Counted() && handles == old(handles) + 1
    {
      refcnt := refcnt + 1;
      handles := handles + 1;
    }

    /** nl_object_put by a holder of a handle. An object on a list or in a table is never freed. */
    method Release()
      requires Counted() && handles > 0
      modifies this`refcnt, this`handles, this`freed
      ensures Counted() && handles == old(handles) - 1
      ensures freed <==> handles == 0 && !inList && !inTable
    {
      refcnt := refcnt - 1;
      handles := handles - 1;
      if refcnt <= 0 {
        freed := true;
      }
    }

    /** nl_object_identical. */
    function Identical(other: Obj): bool {
      this == other || (ops == other.ops && ops.SameId(data, other.data))
    }

    /** nl_object_match_filter. */
    function MatchesFilter(filter: Obj): bool {
      ops == filter.ops && ops.Matches(data, filter.data)
    }

    /** nl_object_clone, when memory suffices. */
    method Clone() returns (o: Obj)
      ensures fresh(o) && o.Counted() && o.handles == 1 && o.cache == null && !o.listed && !o.marked
      ensures o.ops == ops && o.data == data
    {
      o := new Obj(ops, data);
    }

    ghost function Key(size: nat): nat { ops.Key(data, size) }
  }

  // ----- change events

  datatype Act = New | Del | Change | Get

  /** Which change callback is registered. */
  datatype Callback = NoCallback | V1 | V2

  datatype Event =
    | Told(obj: Data, act: Act)
    | ToldV2(prior: Option<Data>, now: Option<Data>, diff: set<nat>, act: Act)

  /** The callbacks cache_include makes for a type without oo_update, given the object replaced. */
  function EventsOf(ops: ObjectOps, prior: Option<Data>, obj: Data, act: Act, cb: Callback): seq<Event> {
    if cb == NoCallback then []
    else if act == Del then
      (if prior.None? then []
       else if cb == V2 then [ToldV2(prior, None, {}, Del)] else [Told(prior.value, Del)])
    else if act != New then []
    else if prior.None? then
      (if cb == V2 then [ToldV2(None, Some(obj), {}, New)] else [Told(obj, New)])
    else
      var diff := ops.Diff(prior.value, obj);
      if diff == {} then [] else if cb == V2 then [ToldV2(prior, Some(obj), diff, Change)] else [Told(obj, Change)]
  }

  lemma NoEvents(ops: ObjectOps, obj: Data, act: Act, cb: Callback)
    requires act != New && act != Del
    ensures forall prior :: EventsOf(ops, prior, obj, act, cb) == []
  {
  }

  // ----- sequences of objects

  ghost predicate Distinct(s: seq<Obj>) {
    forall i, j | 0 <= i < j < |s| :: s[i] != s[j]
  }

  ghost predicate NoTwoIdentical(s: seq<Obj>) {
    forall i, j | 0 <= i < j < |s| :: !s[i].Identical(s[j])
  }

  /** The position of the first object identical to o, or the length. */
  function Position(s: seq<Obj>, o: Obj): (i: nat)
    ensures i <= |s|
    ensures i < |s| ==> s[i].Identical(o)
    ensures forall j | 0 <= j < i :: !s[j].Identical(o)
  {
    if s == [] || s[0].Identical(o) then 0
    else
      var i := Position(s[1..], o);
      assert forall j | 1 <= j < i + 1 :: s[j] == s[1..][j - 1];
      i + 1
  }

  lemma PositionIs(s: seq<Obj>, o: Obj, i: nat)
    requires i <= |s| && (i < |s| ==> s[i].Identical(o)) && forall j | 0 <= j < i :: !s[j].Identical(o)
    ensures Position(s, o) == i
  {
  }

  /** The linear scan: the first object identical to o. */
  function FirstIdentical(s: seq<Obj>, o: Obj): (r: Obj?)
    ensures r != null ==> r in s && r.Identical(o)
    ensures r == null ==> forall p | p in s :: !p.Identical(o)
  {
    if Position(s, o) < |s| then s[Position(s, o)] else null
  }

  function RemoveAt<T>(s: seq<T>, i: nat): seq<T>
    requires i < |s|
  {
    s[..i] + s[i + 1..]
  }

  lemma RemoveAtKeepsOrder<T>(s: seq<T>, i: nat, k: nat)
    requires i < |s| && k < |s| - 1
    ensures |RemoveAt(s, i)| == |s| - 1 && RemoveAt(s, i)[k] == if k < i then s[k] else s[k + 1]
  {
  }

  /** The sequence without the first object identical to o, if there is one. */
  function Without(s: seq<Obj>, o: Obj): seq<Obj> {
    if Position(s, o) < |s| then RemoveAt(s, Position(s, o)) else s
  }

  /** The position of o itself, or the length. */
  function IndexOf(s: seq<Obj>, o: Obj): (i: nat)
    ensures i <= |s| && (i < |s| <==> o in s)
    ensures i < |s| ==> s[i] == o
  {
    if s == [] || s[0] == o then 0 else 1 + IndexOf(s[1..], o)
  }

  /** The sequence without o itself. */
  function Minus(s: seq<Obj>, o: Obj): seq<Obj> {
    if o in s then RemoveAt(s, IndexOf(s, o)) else s
  }

  /** The list after cache_include. */
  function Included(s: seq<Obj>, o: Obj, act: Act): seq<Obj> {
    if act == New then Minus(Without(s, o), o) + [o] else if act == Del then Without(s, o) else s
  }

  // ----- the hash index as a value

  /** The chains hold exactly the items, each once and in the bucket of its key. */
  ghost predicate IsIndex(nodes: seq<seq<Obj>>, items: seq<Obj>) {
    && |nodes| > 0
    && (forall o | o in items :: o.Key(|nodes|) < |nodes| && o in nodes[o.Key(|nodes|)])
    && (forall k, o | 0 <= k < |nodes| && o in nodes[k] :: o in items && o.Key(|nodes|) == k)
    && (forall k | 0 <= k < |nodes| :: Distinct(nodes[k]))
  }

  /** All objects have type ops and admit its hash key. */
  ghost predicate AllOf(ops: ObjectOps, items: seq<Obj>) {
    forall o | o in items :: o.ops == ops && ops.admits(o.data)
  }

  lemma IdenticalTransitive(a: Obj, b: Obj, c: Obj)
    requires a.ops.Lawful()
    ensures a.Identical(b) ==> b.Identical(a)
    ensures a.Identical(b) && b.Identical(c) ==> a.Identical(c)
  {
    a.ops.IdentityIsEquivalence(a.data, b.data, c.data);
  }

  /** In a sequence without two identical objects the object identical to o is unique. */
  lemma FoundIsUnique(s: seq<Obj>, x: Obj, o: Obj)
    requires o.ops.Lawful() && NoTwoIdentical(s) && x in s && x.Identical(o)
    ensures FirstIdentical(s, o) == x
  {
    var y := FirstIdentical(s, o);
    IdenticalTransitive(o, y, x);
    IdenticalTransitive(o, x, y);
    IdenticalTransitive(y, o, x);
    IdenticalTransitive(x, o, y);
  }

  /** Looking in the bucket of the needle's key finds what the scan of the whole list finds. */
  lemma BucketLookupIsLinearScan(ops: ObjectOps, nodes: seq<seq<Obj>>, items: seq<Obj>, needle: Obj)
    requires ops.Lawful() && IsIndex(nodes, items) && NoTwoIdentical(items) && AllOf(ops, items)
    requires needle.ops == ops && ops.admits(needle.data)
    ensures needle.Key(|nodes|) < |nodes|
    ensures FirstIdentical(nodes[needle.Key(|nodes|)], needle) == FirstIdentical(items, needle)
  {
    var k := needle.Key(|nodes|);
    var x, y := FirstIdentical(items, needle), FirstIdentical(nodes[k], needle);
    if x != null {
      assert x in items && x.Key(|nodes|) == k;
    }
    if y != null {
      assert y in nodes[k];
      FoundIsUnique(items, y, needle);
    }
  }

  lemma IndexAfterAdd(nodes: seq<seq<Obj>>, items: seq<Obj>, o: Obj)
    requires IsIndex(nodes, items) && o !in items && o.Key(|nodes|) < |nodes|
    ensures var k := o.Key(|nodes|); IsIndex(nodes[k := [o] + nodes[k]], items + [o])
  {
  }

  lemma IndexAfterDel(nodes: seq<seq<Obj>>, items: seq<Obj>, o: Obj)
    requires IsIndex(nodes, items) && Distinct(items) && o in items
    requires FirstIdentical(nodes[o.Key(|nodes|)], o) == o
    ensures var k := o.Key(|nodes|); IsIndex(nodes[k := Without(nodes[k], o)], Minus(items, o))
  {
    var k := o.Key(|nodes|);
    RemovedMembers(items, IndexOf(items, o));
    RemovedMembers(nodes[k], Position(nodes[k], o));
    hide RemoveAt, Distinct, Position, IndexOf;
    assert forall p :: p in Minus(items, o) <==> p in items && p != o;
    assert forall p :: p in Without(nodes[k], o) <==> p in nodes[k] && p != o;
  }

  lemma RemovedMembers(s: seq<Obj>, i: nat)
    requires i < |s| && Distinct(s)
    ensures Distinct(RemoveAt(s, i))
    ensures forall o :: o in RemoveAt(s, i) <==> o in s && o != s[i]
  {
    var r := RemoveAt(s, i);
    forall o | o in s && o != s[i]
      ensures o in r
    {
      var j :| 0 <= j < |s| && s[j] == o;
      assert r[if j < i then j else j - 1] == o;
    }
  }

  /** The filter scan of nl_cache_find: the first object that matches. */
  function FirstMatch(s: seq<Obj>, filter: Obj): (r: Obj?)
    ensures r != null ==> r in s && r.MatchesFilter(filter)
    ensures r == null ==> forall p | p in s :: !p.MatchesFilter(filter)
  {
    if s == [] then null else if s[0].MatchesFilter(filter) then s[0] else FirstMatch(s[1..], filter)
  }

  /** The scan returns the first match, not just any. */
  lemma {:induction false} FirstMatchIsFirst(s: seq<Obj>, filter: Obj, i: nat)
    requires i < |s| && s[i].MatchesFilter(filter) && forall j :: 0 <= j < i ==> !s[j].MatchesFilter(filter)
    ensures FirstMatch(s, filter) == s[i]
  {
    if i > 0 {
      FirstMatchIsFirst(s[1..], filter, i - 1);
    }
  }

  /**
   * For a filter that carries exactly its own id attributes, the identity lookup gives what
   * the filter scan gives iff nothing matches or the first match provides these same ids.
   */
  lemma {:induction false} LookupIsMatchScanIff(s: seq<Obj>, filter: Obj)
    requires filter.ops.Lawful() && NoTwoIdentical(s) && forall o | o in s :: o.ops == filter.ops
    requires filter.ops.Required(filter.data) == filter.data.mask && filter.ops.IgnoresLoose(filter.data.mask)
    ensures FirstIdentical(s, filter) == FirstMatch(s, filter) <==>
      FirstMatch(s, filter) == null || filter.ops.Required(FirstMatch(s, filter).data) == filter.data.mask
  {
    hide Position;
    forall o | o in s
      ensures o.Identical(filter) <==> o.MatchesFilter(filter) && filter.ops.Required(o.data) == filter.data.mask
    {
      filter.ops.IdenticalIffMatching(o.data, filter.data);
      filter.ops.IdentityIsEquivalence(o.data, o.data, o.data);
    }
    var m := FirstMatch(s, filter);
    if m != null && m.Identical(filter) {
      FoundIsUnique(s, m, filter);
    }
  }

  /** A hash table; nodes[k] is the chain of bucket k. */
  class HashTable {
    const nodes: array<seq<Obj>>

    constructor (size: nat)
      ensures nodes.Length == size && fresh(nodes)
      ensures forall k | 0 <= k < size :: nodes[k] == []
    {
      nodes := new seq<Obj>[size](i => []);
    }

    /** nl_hash_table_lookup. */
    method Lookup(obj: Obj) returns (r: Obj?)
      requires obj.Key(nodes.Length) < nodes.Length
      ensures r == FirstIdentical(nodes[obj.Key(nodes.Length)], obj)
    {
      var chain := nodes[obj.ops.Key(obj.data, nodes.Length)];
      var i := 0;
      while i < |chain|
        invariant 0 <= i <= |chain|
        invariant forall j | 0 <= j < i :: !chain[j].Identical(obj)
      {
        if chain[i].Identical(obj) {
          return chain[i];
        }
        i := i + 1;
      }
      return null;
    }

    /** nl_hash_table_add: the new node goes to the head of its chain. */
    method Add(obj: Obj) returns (err: int)
      requires obj.Key(nodes.Length) < nodes.Length && obj.Counted() && !obj.freed && !obj.inTable && obj.cache != null
      modifies nodes, obj`refcnt, obj`inTable
      ensures obj.Counted()
      ensures var k := obj.Key(nodes.Length); var chain := old(nodes[k]);
        if FirstIdentical(chain, obj) != null then
          err == -NLE_EXIST && nodes[..] == old(nodes[..]) && !obj.inTable
        else
          err == 0 && nodes[..] == old(nodes[..])[k := [obj] + chain] && obj.inTable
    {
      var k := obj.ops.Key(obj.data, nodes.Length);
      var chain := nodes[k];
      var i := 0;
      while i < |chain|
        invariant 0 <= i <= |chain|
        invariant forall j | 0 <= j < i :: !chain[j].Identical(obj)
      {
        if chain[i].Identical(obj) {
          return -NLE_EXIST;
        }
        i := i + 1;
      }
      obj.refcnt := obj.refcnt + 1;
      obj.inTable := true;
      nodes[k] := [obj] + chain;
      return 0;
    }

    /** The object of the node that nl_hash_table_del unlinks. */
    ghost function Linked(obj: Obj): set<Obj>
      reads nodes
      requires obj.Key(nodes.Length) < nodes.Length
    {
      var x := FirstIdentical(nodes[obj.Key(nodes.Length)], obj);
      if x == null then {} else {x}
    }

    /**
     * nl_hash_table_del: unlinks the first identical node. The reference it drops is one to obj,
     * whichever object the node was for.
     */
    method Del(obj: Obj) returns (err: int)
      requires obj.Key(nodes.Length) < nodes.Length && obj.refcnt > 0 && !obj.freed
      modifies nodes, obj`refcnt, obj`freed, Linked(obj)
      ensures var k := obj.Key(nodes.Length);
        var x := FirstIdentical(old(nodes[k]), obj);
        && nodes[..] == old(nodes[..])[k := Without(old(nodes[k]), obj)]
        && err == (if x == null then -NLE_OBJ_NOTFOUND else 0)
        && obj.refcnt == old(obj.refcnt) - (if x == null then 0 else 1) && (obj.freed <==> obj.refcnt == 0)
        && (x != null ==> !x.inTable && (x != obj ==> x.refcnt == old(x.refcnt) && x.freed == old(x.freed)))
      ensures forall x | x in old(Linked(obj)) + {obj} ::
        && x.handles == old(x.handles) && x.inList == old(x.inList) && x.cache == old(x.cache)
        && x.listed == old(x.listed) && x.marked == old(x.marked)
    {
      var k := obj.ops.Key(obj.data, nodes.Length);
      var chain := nodes[k];
      var i := 0;
      while i < |chain| && !chain[i].Identical(obj)
        invariant 0 <= i <= |chain|
        invariant forall j | 0 <= j < i :: !chain[j].Identical(obj)
      {
        i := i + 1;
      }
      PositionIs(chain, obj, i);
      hide Obj.Identical, Position;
      if i == |chain| {
        return -NLE_OBJ_NOTFOUND;
      }
      chain[i].inTable := false;
      obj.refcnt := obj.refcnt - 1;
      if obj.refcnt <= 0 {
        obj.freed := true;
      }
      nodes[k] := RemoveAt(chain, i);
      return 0;
    }
  }

  /** A struct nl_cache of one object type; table is null when the type has no key generator. */
  class Cache {
    const ops: ObjectOps
    const table: HashTable?
    var items: seq<Obj>
    var nitems: int

    ghost function Region(): set<object>
      reads this
    {
      {this} + (if table == null then {} else {table.nodes})
    }

    /** An object on this cache's list, with all its references accounted for. */
    ghost predicate Member(o: Obj)
      reads o
    {
      o.Counted() && o.cache == this && o.inList && (o.inTable <==> table != null) && o.listed && o.ops == ops
    }

    /** List and hash table hold the same objects, each once; in a hashed cache no two are identical. */
    ghost predicate Valid()
      reads Region(), items
    {
      && ops.Lawful() && nitems == |items| && Distinct(items)
      && (forall o | o in items :: Member(o))
      && (table != null ==> IsIndex(table.nodes[..], items) && NoTwoIdentical(items) && AllOf(ops, items))
    }

    /** An object that may be offered to this cache. */
    ghost predicate Admissible(o: Obj) {
      o.ops == ops && (table != null ==> ops.admits(o.data))
    }

    constructor (ops: ObjectOps, size: nat)
      requires ops.Lawful() && size > 0
      ensures Valid() && items == [] && this.ops == ops && fresh(Region())
      ensures table != null <==> ops.keygen.Some?
    {
      this.ops, items, nitems := ops, [], 0;
      if ops.keygen.Some? {
        table := new HashTable(size);
      } else {
        table := null;
      }
    }

    /** __cache_add. The handle passed in becomes the list's reference. */
    method Link(obj: Obj) returns (err: int)
      requires Valid() && Admissible(obj) && obj.Counted() && obj.handles > 0 && obj.cache == null
      modifies Region(), obj
      ensures Valid() && obj.AtRest() && !obj.freed && obj.marked == old(obj.marked)
      ensures var clash := table != null && FirstIdentical(old(items), obj) != null;
        if clash then
          && err == -NLE_EXIST && items == old(items) && obj.cache == null
          && obj.handles == old(obj.handles) && obj.listed == old(obj.listed)
        else
          err == 0 && items == old(items) + [obj] && obj.cache == this && obj.handles == old(obj.handles) - 1
    {
      hide ObjectOps.Lawful, Distinct, NoTwoIdentical, IsIndex, AllOf, FirstIdentical;
      assert obj !in items;
      DistinctSnoc(items, obj);
      obj.cache := this;
      if table != null {
        BucketLookupIsLinearScan(ops, table.nodes[..], items, obj);
        err := table.Add(obj);
        if err < 0 {
          obj.cache := null;
          return;
        }
        IndexAfterAdd(old(table.nodes[..]), items, obj);
        NoClash(ops, items, obj);
      }
      items := items + [obj];
      obj.listed := true;
      obj.inList := true;
      obj.handles := obj.handles - 1;
      nitems := nitems + 1;
      return 0;
    }

    /** nl_cache_remove for an object of this cache: the list's and the table's references go. */
    method Unlink(obj: Obj)
      requires Valid() && obj in items
      modifies Region(), obj
      ensures Valid() && items == Minus(old(items), obj) && obj !in items
      ensures obj.Counted() && obj.cache == null && obj.handles == old(obj.handles)
      ensures obj.listed && obj.marked == old(obj.marked)
    {
      hide ObjectOps.Lawful, Distinct, NoTwoIdentical, IsIndex, AllOf, Without, Minus, FirstIdentical;
      MinusKeeps(items, obj);
      if table != null {
        assert AllOf(ops, Minus(items, obj)) && obj.ops == ops && ops.admits(obj.data) by {
          AllOfMinus(ops, items, obj);
        }
        FoundIsUnique(items, obj, obj);
        BucketLookupIsLinearScan(ops, table.nodes[..], items, obj);
        IndexAfterDel(table.nodes[..], items, obj);
        var err := table.Del(obj);
      }
      items := Minus(items, obj);
      obj.inList := false;
      obj.cache := null;
      obj.handles := obj.handles + 1;
      obj.Release();
      nitems := nitems - 1;
    }

    /** nl_cache_remove: nothing for an object on no cache. */
    static method Remove(obj: Obj)
      requires obj.AtRest() && (obj.cache != null ==> obj.cache.Valid() && obj in obj.cache.items)
      modifies obj, if obj.cache == null then {} else obj.cache.Region()
      ensures obj.AtRest() && obj.cache == null && obj.handles == old(obj.handles)
      ensures obj.marked == old(obj.marked) && obj.listed == old(obj.listed)
      ensures var c := old(obj.cache); c != null ==> c.Valid() && c.items == Minus(old(c.items), obj) && obj !in c.items
    {
      if obj.cache == null {
        return;
      }
      obj.cache.Unlink(obj);
    }

    /** nl_cache_add. added is the object that went in: obj, or a clone of it when obj has been on a list. */
    method Add(obj: Obj) returns (err: int, ghost added: Obj?)
      requires Valid() && obj.AtRest() && !obj.freed && (obj.ops == ops ==> Admissible(obj))
      modifies Region(), if obj.listed then {} else {obj}
      ensures Valid() && obj.AtRest() && obj.handles == old(obj.handles) && obj.marked == old(obj.marked)
      ensures err == if obj.ops != ops then -NLE_OBJ_MISMATCH
                     else if table != null && FirstIdentical(old(items), obj) != null then -NLE_EXIST else 0
      ensures err != 0 ==> items == old(items) && obj.cache == old(obj.cache)
      ensures err == 0 ==> added != null && items == old(items) + [added] && added.data == obj.data && added.ops == ops
      ensures err == 0 ==> added.AtRest() && added.cache == this && (!old(obj.listed) ==> added == obj)
      ensures err == 0 && old(obj.listed) ==> fresh(added) && added.handles == 0 && !added.freed
    {
      hide ObjectOps.Lawful, Distinct, NoTwoIdentical, IsIndex, AllOf, FirstIdentical, Valid;
      if ops != obj.ops {
        return -NLE_OBJ_MISMATCH, null;
      }
      if obj.listed {
        var clone := obj.Clone();
        InOrder();
        CloneClashes(items, obj, clone);
        err := LinkOrDrop(clone);
        return err, clone;
      }
      TakeHandle(obj, null);
      err := LinkOrDrop(obj);
      return err, obj;
    }

    /** __cache_add, and nl_object_put if it fails. */
    method LinkOrDrop(o: Obj) returns (err: int)
      requires Valid() && Admissible(o) && o.Counted() && o.handles > 0 && o.cache == null
      modifies Region(), o
      ensures Valid() && o.AtRest() && o.marked == old(o.marked) && o.handles == old(o.handles) - 1
      ensures err == 0 ==> !o.freed
      ensures err == if table != null && FirstIdentical(old(items), o) != null then -NLE_EXIST else 0
      ensures o.cache == if err == 0 then this else null
      ensures items == if err == 0 then old(items) + [o] else old(items)
    {
      hide ObjectOps.Lawful, FirstIdentical, Valid;
      err := Link(o);
      if err < 0 {
        DropHandle(o, null);
      }
    }

    /** The other cache an object is on, if any, with what that cache owns. */
    ghost function Elsewhere(obj: Obj): set<object>
      reads this, obj, obj.cache
    {
      if obj.cache == null || obj.cache == this then {} else obj.cache.Region()
    }

    /** The object is on no cache, on this one, or on a separate one. */
    ghost predicate Reachable(obj: Obj)
      reads this, obj, obj.cache, Elsewhere(obj), if obj.cache == null then [] else obj.cache.items
    {
      && obj.AtRest()
      && (obj.cache == this ==> obj in items)
      && (obj.cache != null && obj.cache != this ==>
            obj.cache.Valid() && obj in obj.cache.items && obj.cache.Region() !! Region())
    }

    /**
     * nl_cache_move. The object leaves the cache it is on; when an identical object is
     * already indexed here it ends up on no cache and keeps one reference too many.
     */
    method Move(obj: Obj) returns (err: int)
      requires Valid() && Reachable(obj) && !obj.freed && (obj.ops == ops ==> Admissible(obj))
      modifies Holders(obj)
      ensures Valid() && obj.AtRest() && obj.marked == old(obj.marked)
      ensures obj.ops != ops ==> err == -NLE_OBJ_MISMATCH && items == old(items) && obj.cache == old(obj.cache)
      ensures obj.ops == ops ==>
        err == if table != null && FirstIdentical(Minus(old(items), obj), obj) != null then -NLE_EXIST else 0
      ensures err == 0 ==> items == Minus(old(items), obj) + [obj] && obj.cache == this
      ensures err == -NLE_EXIST ==> items == Minus(old(items), obj) && obj.cache == null
      ensures obj.handles == old(obj.handles) + if err == -NLE_EXIST then 1 else 0
      ensures var c := old(obj.cache); c != null && c != this ==>
        c.Valid() && c.items == if obj.ops == ops then Minus(old(c.items), obj) else old(c.items)
    {
      hide ObjectOps.Lawful, Distinct, NoTwoIdentical, IsIndex, AllOf, FirstIdentical;
      if ops != obj.ops {
        return -NLE_OBJ_MISMATCH;
      }
      TakeHandle(obj, if obj.cache == this then null else obj.cache);
      if obj.listed {
        // nl_cache_remove
        if obj.cache != null {
          obj.cache.Unlink(obj);
        }
      }
      err := Link(obj);
    }

    /** nl_cache_search: the object, with a handle for the caller. */
    method Search(needle: Obj) returns (r: Obj?)
      requires Valid() && Admissible(needle)
      modifies Found(needle)
      ensures Valid() && r == FirstIdentical(items, needle)
      ensures r != null ==>
        r.handles == old(r.handles) + 1 && r.marked == old(r.marked) && r.AtRest() && r.cache == this
    {
      if table != null {
        BucketLookupIsLinearScan(ops, table.nodes[..], items, needle);
        r := table.Lookup(needle);
        if r != null {
          r.Get();
        }
        return;
      }
      var i := 0;
      while i < |items|
        invariant 0 <= i <= |items|
        invariant forall j | 0 <= j < i :: !items[j].Identical(needle)
      {
        if items[i].Identical(needle) {
          assert items[i] in items;
          items[i].Get();
          return items[i];
        }
        i := i + 1;
      }
      return null;
    }

    /**
     * cache_include for a type without oo_update: a NEW object replaces the identical one,
     * a DEL object removes it, and the callbacks made are returned as events.
     */
    method Include(obj: Obj, act: Act, cb: Callback) returns (events: seq<Event>)
      requires Valid() && Admissible(obj) && Reachable(obj) && !obj.freed
      modifies Footprint(obj)
      ensures Valid() && obj.AtRest() && obj.handles == old(obj.handles) && obj.marked == old(obj.marked)
      ensures items == Included(old(items), obj, act)
      ensures var o := FirstIdentical(old(items), obj);
        events == EventsOf(ops, if o == null then None else Some(o.data), obj.data, act, cb)
      ensures var o := FirstIdentical(old(items), obj); o != null ==>
        (old(o.AtRest()) ==> o.AtRest()) && o.handles == old(o.handles) && o.marked == old(o.marked)
      ensures var o := FirstIdentical(old(items), obj); o != null && o != obj ==>
        o.cache == if act == New || act == Del then null else old(o.cache)
      ensures obj.cache == if act == New then this
                           else if act == Del && FirstIdentical(old(items), obj) == obj then null else old(obj.cache)
      ensures var c := old(obj.cache); c != null && c != this ==>
        c.Valid() && c.items == if act == New then Minus(old(c.items), obj) else old(c.items)
    {
      hide ObjectOps.Lawful, Distinct, NoTwoIdentical, IsIndex, AllOf, FirstIdentical, Without, Minus, Valid, EventsOf;
      ghost var other := if obj.cache == this then null else obj.cache;
      events := [];
      if act != New && act != Del {
        NoEvents(ops, obj.data, act, cb);
        return;
      }
      var found := TakeOut(obj);
      if act == New {
        var err := Move(obj);
        assert err == 0;
      }
      events := EventsOf(ops, if found == null then None else Some(found.data), obj.data, act, cb);
      if found != null {
        DropHandle(found, other);
      }
    }

    /**
     * pickup_checkdup_cb for a type without oo_update: like nl_cache_add, but replacing. added is
     * the object that went in: obj, or a clone of it when obj has been on a list.
     */
    method PickupCheckdup(obj: Obj) returns (err: int, ghost added: Obj?)
      requires Valid() && Admissible(obj) && Reachable(obj) && obj.handles > 0
      modifies Around(obj)
      ensures Valid() && err == 0 && added != null && items == Without(old(items), obj) + [added]
      ensures obj.AtRest() && obj.handles == old(obj.handles)
      ensures added.AtRest() && added.cache == this && added.data == obj.data && added.ops == ops
      ensures !old(obj.listed) ==> added == obj
      ensures old(obj.listed) ==> fresh(added) && added.handles == 0 && !added.freed
      ensures old(obj.listed) ==> obj.cache == if FirstIdentical(old(items), obj) == obj then null else old(obj.cache)
      ensures var o := FirstIdentical(old(items), obj); o != null ==>
        o.AtRest() && o.handles == old(o.handles) && (o != added ==> o.cache == null)
      ensures var c := old(obj.cache); c != null && c != this ==> c.Valid() && c.items == old(c.items)
    {
      hide ObjectOps.Lawful, Distinct, NoTwoIdentical, IsIndex, AllOf, FirstIdentical, Without, Minus, Valid;
      Displace(obj);
      err, added := Add(obj);
    }

    /** The start of pickup_checkdup_cb: the identical object leaves the cache and the reference found is put back. */
    method Displace(obj: Obj)
      requires Valid() && Admissible(obj) && Reachable(obj) && obj.handles > 0
      modifies Region(), Found(obj)
      ensures Valid() && items == Without(old(items), obj) && obj.AtRest() && obj.handles == old(obj.handles)
      ensures table != null ==> FirstIdentical(items, obj) == null
      ensures obj.listed == old(obj.listed) && obj.marked == old(obj.marked)
      ensures obj.cache == if FirstIdentical(old(items), obj) == obj then null else old(obj.cache)
      ensures var o := FirstIdentical(old(items), obj); o != null ==>
        o.AtRest() && o.handles == old(o.handles) && o.cache == null
      ensures var c := old(obj.cache); c != null && c != this ==> c.Valid() && c.items == old(c.items)
    {
      hide ObjectOps.Lawful, Distinct, NoTwoIdentical, IsIndex, AllOf, FirstIdentical, Without, Minus;
      ghost var other := if obj.cache == this then null else obj.cache;
      if table != null {
        NoneStays(items, obj);
      }
      var found := TakeOut(obj);
      if found != null {
        DropHandle(found, other);
      }
    }

    /** nl_cache_clear. */
    method Clear()
      requires Valid()
      modifies Region(), items
      ensures Valid() && items == []
      ensures forall o | o in old(items) :: o.AtRest() && o.cache == null && o.handles == old(o.handles)
    {
      hide ObjectOps.Lawful, NoTwoIdentical, IsIndex, AllOf, Valid;
      ghost var was, k := items, 0;
      while items != []
        invariant Valid() && k <= |was| && items == was[k..]
        invariant forall j :: 0 <= j < |was| ==> was[j].handles == old(was[j].handles)
        invariant forall j :: 0 <= j < k ==> was[j].AtRest() && was[j].cache == null
        decreases |items|
      {
        RemoveFirst();
        k := k + 1;
      }
    }

    method RemoveFirst()
      requires Valid() && items != []
      modifies Region(), items[0]
      ensures Valid() && items == old(items)[1..]
      ensures var o := old(items)[0]; o.AtRest() && o.cache == null && o.handles == old(o.handles) && o !in items
    {
      Unlink(items[0]);
    }

    /** nl_cache_search and nl_cache_remove of what it found; the handle on it stays with the caller. */
    method TakeOut(obj: Obj) returns (found: Obj?)
      requires Valid() && Admissible(obj) && Reachable(obj) && !obj.freed
      modifies Region(), Found(obj)
      ensures Valid() && Reachable(obj) && items == Without(old(items), obj) && found == FirstIdentical(old(items), obj)
      ensures found != null ==> found.AtRest() && found.cache == null && found.handles == old(found.handles) + 1
      ensures found != null ==> found.marked == old(found.marked) && found !in items && old(found.cache) == this
      ensures obj.listed == old(obj.listed) && (obj != found ==> obj.cache == old(obj.cache))
      ensures table != null ==> FirstIdentical(Minus(items, obj), obj) == null
      ensures obj.cache == null ==> obj !in items
    {
      hide ObjectOps.Lawful, Distinct, NoTwoIdentical, IsIndex, AllOf, FirstIdentical, Without, Minus;
      NoneLeft(items, obj);
      found := Search(obj);
      if found != null {
        MinusFound(items, obj);
        ghost var c := obj.cache;
        assert Member(found);
        assert c != null && c != this ==> forall o | o in c.items :: o.cache == c by {
          assert c != null && c != this ==> forall o | o in c.items :: c.Member(o);
        }
        Unlink(found);
      }
      assert forall o | o in items :: Member(o);
    }

    lemma InOrder()
      requires Valid()
      ensures ops.Lawful()
    {
    }

    /** nl_object_get; the caches stay in order. */
    method TakeHandle(o: Obj, ghost other: Cache?)
      requires Valid() && o.AtRest() && !o.freed && (other != null ==> other.Valid())
      modifies o`refcnt, o`handles
      ensures Valid() && (other != null ==> other.Valid()) && o.AtRest() && o.handles == old(o.handles) + 1
    {
      o.Get();
    }

    /** nl_object_put; the caches stay in order. */
    method DropHandle(o: Obj, ghost other: Cache?)
      requires Valid() && o.AtRest() && o.handles > 0 && (other != null ==> other.Valid())
      modifies o`refcnt, o`handles, o`freed
      ensures Valid() && (other != null ==> other.Valid()) && o.AtRest() && o.handles == old(o.handles) - 1
    {
      o.Release();
    }

    /**
     * The fast path of nl_cache_find applies: the filter carries exactly the id attributes nl_object_get_id_attrs
     * names.
     */
    predicate TakesFastPath(filter: Obj) {
      && (if ops.idAttrsGet.Some? then ops.idAttrsGet.value(filter.data) else ops.idAttrs) == filter.data.mask
      && table != null
    }

    /** The type declares its id attributes statically, compares each of them, and ignores the loose flag on them. */
    ghost predicate FixedIds() {
      ops.idAttrsGet.None? && ops.idAttrs != {} && ops.idAttrs <= ops.known && ops.IgnoresLoose(ops.idAttrs)
    }

    /**
     * nl_cache_find. On the fast path the result is the filter scan's iff the scan finds nothing
     * or an object with the filter's id attributes; with fixed ids that always holds.
     */
    method Find(filter: Obj) returns (r: Obj?)
      requires Valid() && Admissible(filter)
      modifies if TakesFastPath(filter) then Found(filter) else FoundMatch(filter)
      ensures Valid() && r == if TakesFastPath(filter) then FirstIdentical(items, filter) else FirstMatch(items, filter)
      ensures ops.IgnoresLoose(filter.data.mask) ==>
        var m := FirstMatch(items, filter);
        r == m <==> !TakesFastPath(filter) || m == null || ops.Required(m.data) == filter.data.mask
      ensures FixedIds() ==> r == FirstMatch(items, filter)
      ensures table != null && ops.idAttrsGet.None? && filter.data.mask == ops.idAttrs ==>
        r == FirstIdentical(items, filter)
      ensures table != null && ops.idAttrsGet.Some? && filter.data.mask == ops.idAttrsGet.value(filter.data) ==>
        r == FirstIdentical(items, filter)
      ensures r != null ==>
        r.handles == old(r.handles) + 1 && r.marked == old(r.marked) && r.AtRest() && r.cache == this
    {
      hide ObjectOps.Lawful, Distinct, NoTwoIdentical, IsIndex, AllOf;
      if TakesFastPath(filter) {
        BucketLookupIsLinearScan(ops, table.nodes[..], items, filter);
        r := table.Lookup(filter);
        if r != null {
          r.Get();
        }
        if ops.IgnoresLoose(filter.data.mask) {
          LookupIsMatchScanIff(items, filter);
          if FixedIds() && FirstMatch(items, filter) != null {
            ops.IdFilterMatchesIdentical(FirstMatch(items, filter).data, filter.data);
          }
        }
        return;
      }
      var i := 0;
      while i < |items|
        invariant 0 <= i <= |items|
        invariant FirstMatch(items, filter) == FirstMatch(items[i..], filter)
      {
        if items[i].MatchesFilter(filter) {
          assert items[i] in items;
          items[i].Get();
          return items[i];
        }
        i := i + 1;
      }
      return null;
    }

    ghost function FoundMatch(filter: Obj): set<Obj>
      reads this
    {
      if FirstMatch(items, filter) == null then {} else {FirstMatch(items, filter)}
    }

    /** All that pickup_checkdup_cb may change. */
    ghost function Around(obj: Obj): set<object>
      reads this
    {
      Region() + Found(obj) + {obj}
    }

    /** All that nl_cache_move may change. */
    ghost function Holders(obj: Obj): set<object>
      reads this, obj, obj.cache
    {
      Region() + Elsewhere(obj) + {obj}
    }

    /** All that cache_include may change. */
    ghost function Footprint(obj: Obj): set<object>
      reads this, obj, obj.cache
    {
      Around(obj) + Elsewhere(obj)
    }

    ghost function Found(needle: Obj): set<Obj>
      reads this
    {
      if FirstIdentical(items, needle) == null then {} else {FirstIdentical(items, needle)}
    }
  }

  /** A clone clashes with the same objects as its original. */
  lemma CloneClashes(s: seq<Obj>, o: Obj, c: Obj)
    requires o.ops.Lawful() && o.ops == c.ops && o.data == c.data && c !in s
    ensures FirstIdentical(s, o) == null <==> FirstIdentical(s, c) == null
  {
    o.ops.IdentityIsEquivalence(o.data, o.data, o.data);
  }

  /** Removing the first identical object is removing that object. */
  lemma MinusFound(s: seq<Obj>, o: Obj)
    requires FirstIdentical(s, o) != null && Distinct(s)
    ensures Minus(s, FirstIdentical(s, o)) == Without(s, o)
  {
  }

  /** Once the identical object is removed, nothing identical is left to clash with. */
  lemma NoneLeft(s: seq<Obj>, o: Obj)
    requires o.ops.Lawful() && Distinct(s)
    ensures Distinct(Without(s, o)) && forall p | p in Without(s, o) :: p in s
    ensures FirstIdentical(s, o) == null ==> Without(s, o) == s
    ensures forall p | p in s && p != FirstIdentical(s, o) :: p in Without(s, o)
    ensures NoTwoIdentical(s) ==> FirstIdentical(Minus(Without(s, o), o), o) == null
  {
    var x := FirstIdentical(s, o);
    if x != null {
      MinusFound(s, o);
      MinusKeeps(s, x);
    }
    if o in Without(s, o) {
      MinusKeeps(Without(s, o), o);
    }
    var y := FirstIdentical(Minus(Without(s, o), o), o);
    if NoTwoIdentical(s) && y != null {
      FoundIsUnique(s, y, o);
    }
  }

  /** Without two identical objects, removing the one identical to o leaves none, o included. */
  lemma NoneStays(s: seq<Obj>, o: Obj)
    requires o.ops.Lawful() && Distinct(s) && NoTwoIdentical(s)
    ensures FirstIdentical(Without(s, o), o) == null
  {
    NoneLeft(s, o);
    if o in Without(s, o) {
      FoundIsUnique(s, o, o);
      MinusFound(s, o);
      MinusKeeps(s, o);
    }
  }

  lemma DistinctSnoc(s: seq<Obj>, o: Obj)
    requires Distinct(s) && o !in s
    ensures Distinct(s + [o])
  {
  }

  lemma MinusKeeps(s: seq<Obj>, o: Obj)
    requires o in s && Distinct(s)
    ensures var r := Minus(s, o); |r| == |s| - 1 && Distinct(r) && forall p :: p in r <==> p in s && p != o
    ensures NoTwoIdentical(s) ==> NoTwoIdentical(Minus(s, o))
  {
    RemovedMembers(s, IndexOf(s, o));
  }

  lemma AllOfMinus(ops: ObjectOps, s: seq<Obj>, o: Obj)
    requires AllOf(ops, s) && o in s && Distinct(s)
    ensures AllOf(ops, Minus(s, o)) && o.ops == ops && ops.admits(o.data)
  {
    MinusKeeps(s, o);
  }

  lemma NoClash(ops: ObjectOps, s: seq<Obj>, o: Obj)
    requires NoTwoIdentical(s) && FirstIdentical(s, o) == null && AllOf(ops, s) && o.ops == ops && ops.admits(o.data)
    ensures NoTwoIdentical(s + [o]) && AllOf(ops, s + [o])
  {
  }
}
