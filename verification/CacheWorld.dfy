/** Any number of caches and objects, and any run of calls on them. */
module CacheWorld {
  import opened Errors
  import opened Wrappers
  import opened Objects
  import opened Caches

  lemma LeavingMembers(c: Cache, o: Obj)
    requires c.Valid()
    ensures forall p | p in Minus(c.items, o) :: p in c.items && p != o
    ensures forall p | p in c.items && p != o :: p in Minus(c.items, o)
  {
    if o in c.items {
      MinusKeeps(c.items, o);
    }
  }

  twostate predicate Untouched(c: Cache)
    reads c.Region()
  {
    && c.items == old(c.items) && c.nitems == old(c.nitems)
    && (c.table != null ==> c.table.nodes[..] == old(c.table.nodes[..]))
  }

  /** The object is on the same list and in the same table, and its references are still counted. */
  twostate predicate StaysPut(o: Obj)
    reads o
  {
    && o.cache == old(o.cache) && o.listed == old(o.listed) && o.inList == old(o.inList) && o.inTable == old(o.inTable)
    && ((o.refcnt == old(o.refcnt) && o.handles == old(o.handles) && o.freed == old(o.freed)) || o.Counted())
  }

  /** A cache is in order as long as nothing of it changes. */
  twostate lemma StillValid(e: Cache)
    requires old(e.Valid()) && Untouched(e) && forall o | o in e.items :: StaysPut(o)
    ensures e.Valid()
  {
  }

  /** The caches of a program, the bucket arrays they own, and all objects made so far. */
  datatype World = World(caches: set<Cache>, buckets: set<array<seq<Obj>>>, objs: set<Obj>)

  ghost predicate OwnsItems(w: World, c: Cache)
    reads c, w.objs
  {
    forall o | o in c.items :: o in w.objs && o.cache == c
  }

  ghost predicate InOrder(c: Cache)
    reads c.Region(), c.items
  {
    c.Valid()
  }

  ghost predicate Apart(c: Cache, d: Cache) {
    c.table != null && d.table != null ==> c.table.nodes != d.table.nodes
  }

  /** The object is accounted for, and the cache it names is the one whose list it is on. */
  ghost predicate Placed(w: World, o: Obj)
    reads o, w.caches
  {
    o.AtRest() && (o.cache != null ==> o.cache in w.caches && o in o.cache.items)
  }

  /**
   * Every cache is in order and apart from the others, and the reference count of every
   * object is its handles, plus its list, plus its table.
   */
  ghost predicate Sound(w: World)
    reads w.caches, w.buckets, w.objs
  {
    && (forall c | c in w.caches :: OwnsItems(w, c) && (c.table != null ==> c.table.nodes in w.buckets) && InOrder(c))
    && (forall c, d | c in w.caches && d in w.caches && c != d :: Apart(c, d))
    && (forall o | o in w.objs :: Placed(w, o))
  }

  /** What a call may touch: a cache, the cache an object is on, that object, and one found on the first cache. */
  datatype Touch = Touch(w: World, c: Cache, d: Cache?, o: Obj?, x: Obj?)

  /** All that a call does not touch is in order. */
  ghost predicate Others(t: Touch)
    reads t.w.caches, t.w.buckets, t.w.objs
  {
    && (forall c | c in t.w.caches :: c.table != null ==> c.table.nodes in t.w.buckets)
    && (forall c, d | c in t.w.caches && d in t.w.caches && c != d :: Apart(c, d))
    && (forall e | e in t.w.caches && e != t.c && e != t.d :: OwnsItems(t.w, e) && InOrder(e))
    && (forall p | p in t.w.objs && p != t.o && p != t.x :: Placed(t.w, p))
  }

  ghost predicate Minded(w: World, c: Cache)
    reads w.caches, w.buckets, w.objs
  {
    c in w.caches && OwnsItems(w, c) && (c.table != null ==> c.table.nodes in w.buckets) && InOrder(c)
  }

  /** So is what it touches, counting an object that is new. */
  ghost predicate Restored(t: Touch, added: Obj?)
    reads t.w.caches, t.w.buckets, t.w.objs, added
  {
    var w := With(t.w, added);
    && Minded(w, t.c) && (t.d != null ==> Minded(w, t.d))
    && (t.o != null ==> t.o in w.objs && Placed(w, t.o)) && (t.x != null ==> t.x in w.objs && Placed(w, t.x))
    && (added != null ==> Placed(w, added))
  }

  function NodesOf(c: Cache?): set<array<seq<Obj>>> { if c == null || c.table == null then {} else {c.table.nodes} }

  /** What a call does not touch. */
  function Rest(t: Touch): World {
    World(t.w.caches - {t.c, t.d}, t.w.buckets - NodesOf(t.c) - NodesOf(t.d), t.w.objs - {t.o, t.x})
  }

  twostate predicate Spared(r: World)
    reads r.caches, r.buckets, r.objs
  {
    unchanged(r.caches) && unchanged(r.buckets) && unchanged(r.objs)
  }

  twostate lemma OthersInOrder(t: Touch)
    requires old(Sound(t.w)) && t.c in t.w.caches && (t.d == null || t.d in t.w.caches)
    requires t.o != null ==> forall e | e in t.w.caches && e != t.c && e != t.d :: t.o !in old(e.items)
    requires t.x != null ==> t.x in old(t.c.items)
    requires Spared(Rest(t))
    requires forall p | p in old(t.c.items) && p != t.o && p != t.x :: p in t.c.items
    requires t.d != null ==> forall p | p in old(t.d.items) && p != t.o && p != t.x :: p in t.d.items
    ensures Others(t)
  {
    assert t.x != null ==> old(OwnsItems(t.w, t.c));
    forall e | e in t.w.caches && e != t.c && e != t.d
      ensures OwnsItems(t.w, e) && InOrder(e)
    {
      assert old(OwnsItems(t.w, e)) && old(InOrder(e));
      assert Apart(e, t.c) && (t.d != null ==> Apart(e, t.d));
      StillValid(e);
    }
    forall p | p in t.w.objs && p != t.o && p != t.x
      ensures Placed(t.w, p)
    {
      assert old(Placed(t.w, p));
    }
  }

  /** A call that restores what it touches and touches nothing else keeps the world sound. */
  lemma SoundAgain(t: Touch, added: Obj?)
    requires Others(t) && Restored(t, added)
    ensures Sound(With(t.w, added))
  {
    hide InOrder;
    assert forall p | p in t.w.objs && p != t.o && p != t.x :: Placed(With(t.w, added), p);
    assert forall e | e in t.w.caches && e != t.c && e != t.d :: OwnsItems(With(t.w, added), e);
  }

  /** The world with one more object, if there is one. */
  ghost function With(w: World, added: Obj?): World {
    if added == null then w else w.(objs := w.objs + {added})
  }

  /** nl_object_alloc and filling in the fields: one reference, held by the caller. */
  method NewObject(ghost w: World, ops: ObjectOps, data: Data) returns (o: Obj, ghost w': World)
    requires Sound(w)
    ensures Sound(w') && fresh(o) && w' == w.(objs := w.objs + {o}) && o.handles == 1 && o.ops == ops && o.data == data
  {
    o := new Obj(ops, data);
    forall e | e in w.caches
      ensures InOrder(e) && OwnsItems(w, e)
    {
      assert old(InOrder(e)) && old(OwnsItems(w, e));
      StillValid(e);
    }
    assert forall p | p in w.objs :: old(Placed(w, p));
    w' := w.(objs := w.objs + {o});
  }

  method NewCache(ghost w: World, ops: ObjectOps, size: nat) returns (c: Cache, ghost w': World)
    requires Sound(w) && ops.Lawful() && size > 0
    ensures Sound(w') && fresh(c) && w'.caches == w.caches + {c} && w'.objs == w.objs && c.items == [] && c.ops == ops
    ensures w.buckets <= w'.buckets && fresh(w'.buckets - w.buckets)
  {
    c := new Cache(ops, size);
    assert InOrder(c);
    forall e | e in w.caches
      ensures InOrder(e) && OwnsItems(w, e) && Apart(c, e) && Apart(e, c)
    {
      assert old(InOrder(e)) && old(OwnsItems(w, e));
      StillValid(e);
    }
    assert forall p | p in w.objs :: old(Placed(w, p));
    w' := World(w.caches + {c}, w.buckets + (if c.table == null then {} else {c.table.nodes}), w.objs);
  }

  /** nl_object_get by a holder. */
  method TakeAnother(ghost w: World, o: Obj)
    requires Sound(w) && o in w.objs && !o.freed
    modifies o
    ensures Sound(w) && o.handles == old(o.handles) + 1
    ensures forall p | p in w.objs && p != o :: p.handles == old(p.handles)
  {
    assert Placed(w, o);
    o.Get();
    forall e | e in w.caches
      ensures InOrder(e) && OwnsItems(w, e)
    {
      assert old(InOrder(e)) && old(OwnsItems(w, e));
      StillValid(e);
    }
    assert forall p | p in w.objs :: old(Placed(w, p));
  }

  /** nl_object_put by the caller: the object is freed exactly when no cache holds it either. */
  method Release(ghost w: World, o: Obj)
    requires Sound(w) && o in w.objs && o.handles > 0
    modifies o
    ensures Sound(w) && o.handles == old(o.handles) - 1 && (o.freed <==> o.handles == 0 && o.cache == null)
    ensures forall p | p in w.objs && p != o :: p.handles == old(p.handles)
  {
    assert Placed(w, o);
    o.Release();
    forall e | e in w.caches
      ensures InOrder(e) && OwnsItems(w, e)
    {
      assert old(InOrder(e)) && old(OwnsItems(w, e));
      StillValid(e);
    }
    assert forall p | p in w.objs :: old(Placed(w, p));
  }

  /**
   * An object that went on c in place of o: o itself, or a clone that the cache alone holds when o has been on a
   * list.
   */
  twostate predicate Stands(c: Cache, o: Obj, new added: Obj)
    reads o, added
  {
    && added.data == o.data && added.ops == o.ops && added.cache == c
    && if old(o.listed) then fresh(added) && added.handles == 0 && !added.freed else added == o
  }

  /** nl_cache_add. */
  method Add(ghost w: World, c: Cache, o: Obj) returns (err: int, ghost added: Obj?)
    requires Sound(w) && c in w.caches && o in w.objs && !o.freed && (o.ops == c.ops ==> c.Admissible(o))
    modifies w.caches, w.buckets, w.objs
    ensures Sound(With(w, added)) && (added != null <==> err == 0)
    ensures err == if o.ops != c.ops then -NLE_OBJ_MISMATCH
                   else if c.table != null && FirstIdentical(old(c.items), o) != null then -NLE_EXIST else 0
    ensures added != null ==> Stands(c, o, added)
    ensures c.items == old(c.items) + if added != null then [added] else []
    ensures forall e | e in w.caches && e != c :: e.items == old(e.items)
    ensures forall p | p in w.objs :: p.handles == old(p.handles)
  {
    hide Cache.Valid, Obj.AtRest, Cache.Admissible, FirstIdentical, Position;
    assert OwnsItems(w, c) && Placed(w, o);
    NotListed(o);
    assert !o.listed ==> forall e | e in w.caches :: OwnsItems(w, e) && o !in e.items;
    err, added := c.Add(o);
    if err != 0 {
      added := null;
    }
    ghost var w' := With(w, added);
    forall e | e in w.caches && e != c
      ensures OwnsItems(w', e) && InOrder(e)
    {
      assert Apart(e, c);
      assert old(OwnsItems(w, e)) && old(InOrder(e));
      StillValid(e);
    }
    forall p | p in w'.objs
      ensures Placed(w', p)
    {
      assert p in w.objs ==> old(Placed(w, p));
    }
  }

  lemma NotListed(o: Obj)
    requires o.AtRest()
    ensures !o.listed ==> o.cache == null
  {
  }

  /** nl_cache_remove. */
  method Remove(ghost w: World, o: Obj)
    requires Sound(w) && o in w.objs
    modifies w.caches, w.buckets, o
    ensures Sound(w) && o.cache == null
    ensures forall e | e in w.caches :: e.items == if e == old(o.cache) then Minus(old(e.items), o) else old(e.items)
    ensures forall p | p in w.objs :: p.handles == old(p.handles)
  {
    assert Placed(w, o);
    ghost var c := o.cache;
    hide Cache.Valid, Obj.AtRest, Minus;
    if o.cache == null {
      return;
    }
    assert OwnsItems(w, c);
    LeavingMembers(c, o);
    Cache.Remove(o);
    forall e | e in w.caches && e != c
      ensures OwnsItems(w, e) && InOrder(e)
    {
      assert Apart(e, c);
      assert old(OwnsItems(w, e)) && old(InOrder(e)) && o !in old(e.items);
      StillValid(e);
    }
    forall p | p in w.objs
      ensures Placed(w, p)
    {
      assert old(Placed(w, p));
    }
  }

  method Clear(ghost w: World, c: Cache)
    requires Sound(w) && c in w.caches
    modifies w.caches, w.buckets, w.objs
    ensures Sound(w) && forall e | e in w.caches :: e.items == if e == c then [] else old(e.items)
    ensures forall p | p in w.objs :: p.handles == old(p.handles)
  {
    hide Cache.Valid, Obj.AtRest;
    assert OwnsItems(w, c);
    c.Clear();
    forall e | e in w.caches && e != c
      ensures OwnsItems(w, e) && InOrder(e)
    {
      assert Apart(e, c);
      assert old(OwnsItems(w, e)) && old(InOrder(e));
      StillValid(e);
    }
    forall p | p in w.objs
      ensures Placed(w, p)
    {
      assert old(Placed(w, p));
    }
  }

  /** nl_cache_search: one handle more on the object returned. */
  method Search(ghost w: World, c: Cache, needle: Obj) returns (r: Obj?)
    requires Sound(w) && c in w.caches && c.Admissible(needle)
    modifies w.objs
    ensures Sound(w) && r == FirstIdentical(c.items, needle) && (r != null ==> r in w.objs)
    ensures forall e | e in w.caches :: e.items == old(e.items)
    ensures forall p | p in w.objs :: p.handles == old(p.handles) + if p == r then 1 else 0
  {
    hide Cache.Valid, Obj.AtRest, Cache.Admissible, FirstIdentical, Position;
    assert OwnsItems(w, c);
    r := c.Search(needle);
    forall e | e in w.caches && e != c
      ensures OwnsItems(w, e) && InOrder(e)
    {
      assert old(OwnsItems(w, e)) && old(InOrder(e));
      StillValid(e);
    }
    forall p | p in w.objs
      ensures Placed(w, p)
    {
      assert old(Placed(w, p));
    }
  }

  /** nl_cache_find: one handle more on the object returned. */
  method Find(ghost w: World, c: Cache, filter: Obj) returns (r: Obj?)
    requires Sound(w) && c in w.caches && c.Admissible(filter)
    modifies w.objs
    ensures Sound(w) && (r != null ==> r in w.objs) && forall e | e in w.caches :: e.items == old(e.items)
    ensures r == if c.TakesFastPath(filter) then FirstIdentical(c.items, filter) else FirstMatch(c.items, filter)
    ensures forall p | p in w.objs :: p.handles == old(p.handles) + if p == r then 1 else 0
  {
    hide Cache.Valid, Obj.AtRest, Cache.Admissible, FirstIdentical, Position, Cache.FixedIds, Cache.TakesFastPath;
    assert OwnsItems(w, c);
    r := c.Find(filter);
    forall e | e in w.caches && e != c
      ensures OwnsItems(w, e) && InOrder(e)
    {
      assert old(OwnsItems(w, e)) && old(InOrder(e));
      StillValid(e);
    }
    forall p | p in w.objs
      ensures Placed(w, p)
    {
      assert old(Placed(w, p));
    }
  }

  lemma PointBack(c: Cache)
    requires c.Valid()
    ensures forall p | p in c.items :: p.cache == c
  {
    assert forall p | p in c.items :: c.Member(p);
  }

  lemma LeavingIdentical(c: Cache, o: Obj)
    requires c.Valid() && o.ops == c.ops
    ensures forall p | p in Without(c.items, o) :: p in c.items
    ensures forall p | p in c.items && p != FirstIdentical(c.items, o) :: p in Without(c.items, o)
    ensures FirstIdentical(c.items, o) != null ==> FirstIdentical(c.items, o) in c.items
    ensures forall p | p in Minus(Without(c.items, o), o) :: p in Without(c.items, o)
    ensures forall p | p in Without(c.items, o) && p != o :: p in Minus(Without(c.items, o), o)
  {
    NoneLeft(c.items, o);
    if o in Without(c.items, o) {
      MinusKeeps(Without(c.items, o), o);
    }
  }

  /** The objects and caches a call of cache_include or pickup_checkdup_cb may touch. */
  ghost function Around(w: World, c: Cache, o: Obj): Touch
    reads o, c
  {
    Touch(w, c, o.cache, o, FirstIdentical(c.items, o))
  }

  /** What may be said of a cache and an object before a call on them. */
  lemma BeforeCall(w: World, c: Cache, o: Obj)
    requires Sound(w) && c in w.caches && o in w.objs
    ensures c.Valid() && c.Reachable(o) && OwnsItems(w, c) && Placed(w, o)
    ensures o.cache != null ==> o.cache in w.caches && Minded(w, o.cache) && (o.cache != c ==> Apart(c, o.cache))
    ensures forall e | e in w.caches && e != o.cache :: o !in e.items
  {
    hide Obj.Identical;
    assert OwnsItems(w, c) && InOrder(c) && Placed(w, o);
    if o.cache != null {
      assert OwnsItems(w, o.cache) && InOrder(o.cache) && (o.cache != c ==> Apart(c, o.cache));
    }
    assert forall e | e in w.caches :: OwnsItems(w, e);
  }

  lemma MindedAgain(w: World, c: Cache)
    requires c in w.caches && (c.table != null ==> c.table.nodes in w.buckets)
    requires c.Valid() && forall p | p in c.items :: p in w.objs
    ensures Minded(w, c) && forall p | p in c.items :: p.cache == c
  {
    PointBack(c);
  }

  lemma PlacedAgain(w: World, p: Obj)
    requires p.AtRest() && (p.cache != null ==> p.cache in w.caches && p in p.cache.items)
    ensures Placed(w, p)
  {
  }

  /** What may be said before a call of cache_include about the lists after it. */
  lemma BeforeInclude(w: World, c: Cache, o: Obj, act: Act)
    requires Sound(w) && c in w.caches && o in w.objs && o.ops == c.ops
    ensures var s, x := Included(c.items, o, act), FirstIdentical(c.items, o);
      && (forall p | p in s :: p in w.objs)
      && (if act == New then o in s else o.cache == c && !(act == Del && x == o) ==> o in s)
      && (x != null ==> x in w.objs && x.cache == c && (act != New && act != Del ==> x in s))
    ensures c.table != null ==> c.table.nodes in w.buckets
    ensures var d := o.cache; d != null ==>
      && d in w.caches && (d.table != null ==> d.table.nodes in w.buckets) && o in d.items
      && (forall p | p in d.items :: p in w.objs) && (forall p | p in Minus(d.items, o) :: p in w.objs)
  {
    hide Obj.Identical, Position;
    BeforeCall(w, c, o);
    LeavingIdentical(c, o);
    if o.cache != null {
      LeavingMembers(o.cache, o);
    }
  }

  lemma IncludeKeeps(c: Cache, o: Obj, act: Act)
    requires c.Valid() && o.ops == c.ops
    ensures forall p | p in c.items && p != o && p != FirstIdentical(c.items, o) :: p in Included(c.items, o, act)
  {
    hide Obj.Identical, Position;
    LeavingIdentical(c, o);
  }

  /** What nl_cache_move, cache_include and pickup_checkdup_cb declare to modify. */
  lemma FootprintOf(w: World, c: Cache, o: Obj)
    requires Sound(w) && c in w.caches && o in w.objs
    ensures var f, rest := c.Footprint(o), Rest(Around(w, c, o));
      && (forall r | r in f :: r in w.caches || r in w.buckets || r in w.objs) && c.Around(o) <= f && c.Holders(o) <= f
      && rest.caches !! f && rest.buckets !! f && rest.objs !! f
      && Rest(Touch(w, c, o.cache, o, null)).objs !! c.Holders(o)
  {
    hide Obj.Identical;
    BeforeCall(w, c, o);
  }

  /** nl_cache_move, and what it leaves alone. */
  method MoveSparing(ghost w: World, c: Cache, o: Obj) returns (err: int)
    requires Sound(w) && c in w.caches && o in w.objs && !o.freed && (o.ops == c.ops ==> c.Admissible(o))
    modifies w.caches, w.buckets, w.objs
    ensures Spared(old(Rest(Touch(w, c, o.cache, o, null))))
    ensures c.Valid() && o.AtRest()
    ensures err == if o.ops != c.ops then -NLE_OBJ_MISMATCH
                   else if c.table != null && FirstIdentical(Minus(old(c.items), o), o) != null then -NLE_EXIST else 0
    ensures c.items == if err == -NLE_OBJ_MISMATCH then old(c.items)
                       else Minus(old(c.items), o) + if err == 0 then [o] else []
    ensures o.cache == if err == 0 then c else if err == -NLE_EXIST then null else old(o.cache)
    ensures var d := old(o.cache); d != null && d != c ==>
      d.Valid() && d.items == if o.ops == c.ops then Minus(old(d.items), o) else old(d.items)
    ensures o.handles == old(o.handles) + if err == -NLE_EXIST then 1 else 0
  {
    BeforeCall(w, c, o);
    FootprintOf(w, c, o);
    hide Cache.Valid, Obj.AtRest, Cache.Admissible, FirstIdentical, Position, Minus, RemoveAt;
    hide ObjectOps.Lawful, Obj.Identical, IndexOf, Cache.Holders, Sound, Placed, Minded, Rest, Around;
    err := c.Move(o);
  }

  /** nl_cache_move. */
  method Move(ghost w: World, c: Cache, o: Obj) returns (err: int)
    requires Sound(w) && c in w.caches && o in w.objs && !o.freed && (o.ops == c.ops ==> c.Admissible(o))
    modifies w.caches, w.buckets, w.objs
    ensures Sound(w)
    ensures err == if o.ops != c.ops then -NLE_OBJ_MISMATCH
                   else if c.table != null && FirstIdentical(Minus(old(c.items), o), o) != null then -NLE_EXIST else 0
    ensures c.items == if err == -NLE_OBJ_MISMATCH then old(c.items)
                       else Minus(old(c.items), o) + if err == 0 then [o] else []
    ensures forall e | e in w.caches && e != c ::
      e.items == if e == old(o.cache) && o.ops == c.ops then Minus(old(e.items), o) else old(e.items)
    ensures forall p | p in w.objs :: p.handles == old(p.handles) + if p == o && err == -NLE_EXIST then 1 else 0
  {
    hide Cache.Valid, Obj.AtRest, Minus, Cache.Admissible, FirstIdentical, Position, RemoveAt;
    hide ObjectOps.Lawful, Obj.Identical, IndexOf;
    assert OwnsItems(w, c) && Placed(w, o);
    ghost var t := Touch(w, c, o.cache, o, null);
    LeavingMembers(c, o);
    if t.d != null {
      assert OwnsItems(w, t.d) && (c != t.d ==> Apart(c, t.d));
      LeavingMembers(t.d, o);
    }
    err := MoveSparing(w, c, o);
    OthersInOrder(t);
    SoundAgain(t, null);
  }

  /** cache_include, and what it leaves alone. */
  method IncludeSparing(ghost w: World, c: Cache, o: Obj, act: Act, cb: Callback) returns (events: seq<Event>)
    requires Sound(w) && c in w.caches && o in w.objs && !o.freed && c.Admissible(o)
    modifies w.caches, w.buckets, w.objs
    ensures Spared(old(Rest(Around(w, c, o))))
    ensures c.Valid() && c.items == Included(old(c.items), o, act)
    ensures var d := old(o.cache); d != null ==>
      d.Valid() && (d != c ==> d.items == if act == New then Minus(old(d.items), o) else old(d.items))
    ensures var x := FirstIdentical(old(c.items), o);
      && events == EventsOf(c.ops, if x == null then None else Some(x.data), o.data, act, cb)
      && o.AtRest() && o.cache == (if act == New then c else if act == Del && x == o then null else old(o.cache))
      && (x != null ==> x.AtRest())
      && (x != null && x != o ==> x.cache == if act == New || act == Del then null else c)
    ensures forall p | p in w.objs :: p.handles == old(p.handles)
  {
    assert o.ops == c.ops;
    BeforeCall(w, c, o);
    FootprintOf(w, c, o);
    hide Cache.Valid, Obj.AtRest, Cache.Admissible, FirstIdentical, Position, Minus, Without, RemoveAt, Included;
    hide ObjectOps.Lawful, Obj.Identical, IndexOf, EventsOf, Cache.Footprint;
    hide Sound, Placed, Minded, Rest, Around;
    events := c.Include(o, act, cb);
  }

  /** cache_include; all that it does not touch stays in order, and what it touches is as its contract says. */
  method IncludeTouching(ghost w: World, c: Cache, o: Obj, act: Act, cb: Callback) returns (events: seq<Event>)
    requires Sound(w) && c in w.caches && o in w.objs && !o.freed && c.Admissible(o)
    modifies w.caches, w.buckets, w.objs
    ensures Others(old(Around(w, c, o)))
    ensures c.Valid() && c.items == Included(old(c.items), o, act)
    ensures forall e | e in w.caches && e != c ::
      e.items == if e == old(o.cache) && act == New then Minus(old(e.items), o) else old(e.items)
    ensures var d := old(o.cache); d != null ==> d.Valid()
    ensures var x := FirstIdentical(old(c.items), o);
      && events == EventsOf(c.ops, if x == null then None else Some(x.data), o.data, act, cb)
      && o.AtRest() && o.cache == (if act == New then c else if act == Del && x == o then null else old(o.cache))
      && (x != null ==> x.AtRest())
      && (x != null && x != o ==> x.cache == if act == New || act == Del then null else c)
    ensures forall p | p in w.objs :: p.handles == old(p.handles)
  {
    assert o.ops == c.ops;
    BeforeCall(w, c, o);
    IncludeKeeps(c, o, act);
    if o.cache != null {
      LeavingMembers(o.cache, o);
    }
    ghost var t := Around(w, c, o);
    hide Cache.Valid, Obj.AtRest, Cache.Admissible, FirstIdentical, Position, Minus, Without, RemoveAt, Included;
    hide ObjectOps.Lawful, Obj.Identical, IndexOf, EventsOf, Sound, Others, Placed, Minded;
    events := IncludeSparing(w, c, o, act, cb);
    OthersInOrder(t);
  }

  /** cache_include, whatever cache the object came from: nobody's handles change. */
  method Include(ghost w: World, c: Cache, o: Obj, act: Act, cb: Callback) returns (events: seq<Event>)
    requires Sound(w) && c in w.caches && o in w.objs && !o.freed && c.Admissible(o)
    modifies w.caches, w.buckets, w.objs
    ensures Sound(w)
    ensures c.items == Included(old(c.items), o, act)
    ensures forall e | e in w.caches && e != c ::
      e.items == if e == old(o.cache) && act == New then Minus(old(e.items), o) else old(e.items)
    ensures var x := FirstIdentical(old(c.items), o);
      events == EventsOf(c.ops, if x == null then None else Some(x.data), o.data, act, cb)
    ensures forall p | p in w.objs :: p.handles == old(p.handles)
  {
    assert o.ops == c.ops;
    BeforeInclude(w, c, o, act);
    ghost var t := Around(w, c, o);
    hide Cache.Valid, Obj.AtRest, Cache.Admissible, FirstIdentical, Position, Minus, Without, RemoveAt, Included;
    hide ObjectOps.Lawful, Obj.Identical, IndexOf, EventsOf, Others, Sound, OwnsItems, Minded, Placed;
    events := IncludeTouching(w, c, o, act, cb);
    MindedAgain(w, c);
    if t.d != null {
      MindedAgain(w, t.d);
    }
    PlacedAgain(w, o);
    if t.x != null {
      PlacedAgain(w, t.x);
    }
    SoundAgain(t, null);
  }

  /** pickup_checkdup_cb, and what it leaves alone. */
  method PickupSparing(ghost w: World, c: Cache, o: Obj) returns (err: int, ghost added: Obj?)
    requires Sound(w) && c in w.caches && o in w.objs && o.handles > 0 && c.Admissible(o)
    modifies w.caches, w.buckets, w.objs
    ensures Spared(old(Rest(Around(w, c, o))))
    ensures c.Valid() && err == 0 && added != null && c.items == Without(old(c.items), o) + [added]
    ensures Stands(c, o, added) && added.AtRest() && o.AtRest()
    ensures old(o.listed) ==> o.cache == if old(FirstIdentical(c.items, o)) == o then null else old(o.cache)
    ensures var x := FirstIdentical(old(c.items), o); x != null ==> x.AtRest() && (x != added ==> x.cache == null)
    ensures var d := old(o.cache); d != null && d != c ==> d.Valid() && d.items == old(d.items)
    ensures forall p | p in w.objs :: p.handles == old(p.handles)
  {
    assert o.ops == c.ops;
    BeforeCall(w, c, o);
    FootprintOf(w, c, o);
    hide Cache.Valid, Obj.AtRest, Cache.Admissible, FirstIdentical, Position, Minus, Without, RemoveAt;
    hide ObjectOps.Lawful, Obj.Identical, IndexOf, Cache.Around, Cache.Footprint, Sound, Placed, Minded, Rest, Around;
    err, added := c.PickupCheckdup(o);
  }

  /** pickup_checkdup_cb; all that it does not touch stays in order, and what it touches is as its contract says. */
  method PickupTouching(ghost w: World, c: Cache, o: Obj) returns (err: int, ghost added: Obj?)
    requires Sound(w) && c in w.caches && o in w.objs && o.handles > 0 && c.Admissible(o)
    modifies w.caches, w.buckets, w.objs
    ensures Others(old(Around(w, c, o)))
    ensures c.Valid() && err == 0 && added != null && c.items == Without(old(c.items), o) + [added]
    ensures Stands(c, o, added) && added.AtRest() && o.AtRest()
    ensures old(o.listed) ==> o.cache == if old(FirstIdentical(c.items, o)) == o then null else old(o.cache)
    ensures var x := FirstIdentical(old(c.items), o); x != null ==> x.AtRest() && (x != added ==> x.cache == null)
    ensures var d := old(o.cache); d != null && d != c ==> d.Valid() && d.items == old(d.items)
    ensures forall e | e in w.caches && e != c :: e.items == old(e.items)
    ensures forall p | p in w.objs :: p.handles == old(p.handles)
  {
    assert o.ops == c.ops;
    BeforeCall(w, c, o);
    LeavingIdentical(c, o);
    ghost var t := Around(w, c, o);
    hide Cache.Valid, Obj.AtRest, Cache.Admissible, FirstIdentical, Position, Minus, Without, RemoveAt;
    hide ObjectOps.Lawful, Obj.Identical, IndexOf, Sound, Others, Placed, Minded;
    err, added := PickupSparing(w, c, o);
    OthersInOrder(t);
  }

  /** pickup_checkdup_cb: nobody's handles change, and a clone that goes in is held by the cache alone. */
  method PickupCheckdup(ghost w: World, c: Cache, o: Obj) returns (err: int, ghost added: Obj?)
    requires Sound(w) && c in w.caches && o in w.objs && o.handles > 0 && c.Admissible(o)
    modifies w.caches, w.buckets, w.objs
    ensures Sound(With(w, added))
    ensures err == 0 && added != null && Stands(c, o, added)
    ensures c.items == Without(old(c.items), o) + [added]
    ensures forall e | e in w.caches && e != c :: e.items == old(e.items)
    ensures forall p | p in w.objs :: p.handles == old(p.handles)
  {
    assert o.ops == c.ops;
    BeforeCall(w, c, o);
    LeavingIdentical(c, o);
    NotListed(o);
    ghost var t := Around(w, c, o);
    hide Cache.Valid, Obj.AtRest, Cache.Admissible, FirstIdentical, Position, Minus, Without, RemoveAt;
    hide ObjectOps.Lawful, Obj.Identical, IndexOf, Cache.Region, Cache.Elsewhere, Others, Sound;
    err, added := PickupTouching(w, c, o);
    PointBack(c);
    ghost var w' := With(w, added);
    assert Minded(w', c) && (t.d != null ==> Minded(w', t.d));
    assert Placed(w', o) && Placed(w', added) && (t.x != null ==> Placed(w', t.x));
    SoundAgain(t, added);
  }
}
