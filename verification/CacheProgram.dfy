/** A program that calls the cache library: every reference is accounted for after any run of calls. */
module CacheProgram {
  import opened Errors
  import opened Objects
  import opened Caches
  import opened CacheWorld

  /** A call; objects and caches are named by their place among those the program has got hold of. */
  datatype Call =
    | AllocObject(ops: ObjectOps, data: Data)
    | AllocCache(ops: ObjectOps, size: nat)
    | Borrow(c: nat, i: nat)
    | Take(o: nat)
    | Put(o: nat)
    | AddTo(c: nat, o: nat)
    | MoveTo(c: nat, o: nat)
    | Drop(o: nat)
    | Empty(c: nat)
    | SearchIn(c: nat, o: nat)
    | FindIn(c: nat, o: nat)
    | IncludeIn(c: nat, o: nat, act: Act, cb: Callback)
    | PickupIn(c: nat, o: nat)
  {
    ghost predicate Lawful() {
      (AllocObject? ==> ops.admits(data)) && (AllocCache? ==> ops.Lawful() && size > 0)
    }
  }

  /** What the program has got hold of, and how many references to each object it is to give back. */
  datatype Hands = Hands(objs: seq<Obj>, caches: seq<Cache>, held: map<Obj, nat>)
  {
    /** The program has a reference to this object to give back. */
    predicate Holds(o: nat) { o < |objs| && Count(held, objs[o]) > 0 }

    /** The program may use this object: it holds it, or somebody else does. */
    predicate Alive(o: nat)
      reads objs
    {
      o < |objs| && !objs[o].freed
    }

    function More(r: Obj): Hands { Hands(objs + [r], caches, held[r := Count(held, r) + 1]) }
  }

  function Count(m: map<Obj, nat>, o: Obj): nat { if o in m then m[o] else 0 }

  /** Every object's handles are what the program holds and what moves that clashed have lost. */
  ghost predicate Tally(w: World, h: Hands, lost: map<Obj, nat>)
    reads w.objs
  {
    && (forall o | o in w.objs :: o.ops.admits(o.data))
    && (forall o | o in h.objs :: o in w.objs) && (forall c | c in h.caches :: c in w.caches)
    && h.held.Keys <= w.objs && lost.Keys <= w.objs
    && (forall o | o in w.objs :: o.handles == Count(h.held, o) + Count(lost, o))
  }

  /**
   * Every object's count is what the program holds and what moves that clashed have lost, plus
   * its list and its table.
   */
  ghost predicate Fair(w: World, h: Hands, lost: map<Obj, nat>)
    reads w.caches, w.buckets, w.objs
  {
    Sound(w) && Tally(w, h, lost)
  }

  lemma TallyWith(w: World, h: Hands, lost: map<Obj, nat>, added: Obj?)
    requires Tally(w, h, lost)
    requires added != null ==> added.ops.admits(added.data) && (added in w.objs || added.handles == 0)
    ensures Tally(With(w, added), h, lost)
  {
  }

  /** What the program may rely on for an object it knows. */
  lemma InHand(w: World, h: Hands, lost: map<Obj, nat>, i: nat)
    requires Tally(w, h, lost) && i < |h.objs|
    ensures var o := h.objs[i]; o in w.objs && o.ops.admits(o.data) && (h.Holds(i) ==> o.handles > 0 && o in h.held)
  {
  }

  lemma AtHand(w: World, h: Hands, lost: map<Obj, nat>, i: nat)
    requires Tally(w, h, lost) && i < |h.caches|
    ensures h.caches[i] in w.caches
  {
  }

  /** The books before and after a call. */
  datatype Entry = Entry(w: World, h: Hands, lost: map<Obj, nat>, h': Hands, lost': map<Obj, nat>)

  /** The books still balance when every object's handles change as they do. */
  twostate lemma Balances(b: Entry)
    requires old(Tally(b.w, b.h, b.lost))
    requires b.h'.caches == b.h.caches && (forall o | o in b.h'.objs :: o in b.h.objs || o in b.w.objs)
    requires b.h'.held.Keys <= b.w.objs && b.lost'.Keys <= b.w.objs
    requires forall o | o in b.w.objs ::
      o.handles - Count(b.h'.held, o) - Count(b.lost', o) == old(o.handles) - Count(b.h.held, o) - Count(b.lost, o)
    ensures Tally(b.w, b.h', b.lost')
  {
  }

  twostate predicate Grows(w: World, new w': World) {
    && w.caches <= w'.caches && w.buckets <= w'.buckets && w.objs <= w'.objs
    && fresh(w'.caches - w.caches) && fresh(w'.buckets - w.buckets) && fresh(w'.objs - w.objs)
  }

  /** What a call does to the program's hands, as far as that does not depend on the caches. */
  ghost predicate Follows(h: Hands, call: Call, h': Hands) {
    var got, made := |h'.objs| == |h.objs| + 1, |h'.caches| == |h.caches| + 1;
    match call
    case AllocObject(ops, data) =>
      got && var o := h'.objs[|h.objs|]; o.ops == ops && o.data == data && h' == h.More(o)
    case AllocCache(ops, _) =>
      made && var c := h'.caches[|h.caches|]; c.ops == ops && h' == h.(caches := h.caches + [c])
    case Borrow(_, _) => h' == h || (got && h' == h.(objs := h.objs + [h'.objs[|h.objs|]]))
    case Take(o) => (h' == h && !h.Holds(o)) || (o < |h.objs| && h' == h.More(h.objs[o]))
    case Put(o) => h' == if h.Holds(o) then h.(held := h.held[h.objs[o] := Count(h.held, h.objs[o]) - 1]) else h
    case SearchIn(_, _) => h' == h || (got && h' == h.More(h'.objs[|h.objs|]))
    case FindIn(_, _) => h' == h || (got && h' == h.More(h'.objs[|h.objs|]))
    case _ => h' == h
  }

  method CreateObject(ghost w: World, h: Hands, ghost lost: map<Obj, nat>, call: Call)
    returns (h': Hands, ghost w': World)
    requires Fair(w, h, lost) && call.Lawful() && call.AllocObject?
    ensures Fair(w', h', lost) && Grows(w, w') && Follows(h, call, h')
    ensures |h'.objs| == |h.objs| + 1 && h'.objs[|h.objs|] in w'.objs - w.objs && h'.objs[|h.objs|].handles == 1
  {
    hide Sound, Tally;
    HeldKeys(w, h, lost);
    var o;
    o, w' := NewObject(w, call.ops, call.data);
    h' := h.More(o);
    TallyWithNew(w, h, lost, o);
  }

  lemma TallyWithNew(w: World, h: Hands, lost: map<Obj, nat>, o: Obj)
    requires Tally(w, h, lost) && o !in w.objs && o.handles == 1 && o.ops.admits(o.data)
    ensures Tally(w.(objs := w.objs + {o}), h.More(o), lost)
  {
  }

  method CreateCache(ghost w: World, h: Hands, ghost lost: map<Obj, nat>, call: Call)
    returns (h': Hands, ghost w': World)
    requires Fair(w, h, lost) && call.Lawful() && call.AllocCache?
    ensures Fair(w', h', lost) && Grows(w, w') && Follows(h, call, h')
    ensures |h'.caches| == |h.caches| + 1 && h'.caches[|h.caches|] in w'.caches - w.caches
    ensures h'.caches[|h.caches|].items == []
  {
    hide Sound;
    var c;
    c, w' := NewCache(w, call.ops, call.size);
    h' := h.(caches := h.caches + [c]);
  }

  lemma HandledFollows(h: Hands, call: Call)
    requires call.Take? || call.Put? || call.Drop?
    ensures (call.Drop? || !h.Holds(call.o)) ==> Follows(h, call, h)
    ensures call.Take? && call.o < |h.objs| ==> Follows(h, call, h.More(h.objs[call.o]))
    ensures call.Put? && h.Holds(call.o) ==>
      var o := h.objs[call.o]; Follows(h, call, h.(held := h.held[o := Count(h.held, o) - 1]))
  {
  }

  method Handle(ghost w: World, h: Hands, ghost lost: map<Obj, nat>, call: Call) returns (h': Hands)
    requires Fair(w, h, lost) && (call.Take? || call.Put? || call.Drop?)
    modifies w.caches, w.buckets, w.objs
    ensures Fair(w, h', lost) && Follows(h, call, h')
    ensures if !(if call.Put? then h.Holds(call.o) else old(h.Alive(call.o))) then h' == h
            else match call
              case Take(o) => h' == h.More(h.objs[o])
              case Put(o) => h' == h.(held := h.held[h.objs[o] := Count(h.held, h.objs[o]) - 1])
              case Drop(o) => h' == h && h.objs[o].cache == null
  {
    hide Sound, Minus, Tally, Follows;
    HandledFollows(h, call);
    h' := h;
    if h.Holds(call.o) {
      HeldIsAlive(w, h, lost, call.o);
    }
    if if call.Put? then h.Holds(call.o) else h.Alive(call.o) {
      InHand(w, h, lost, call.o);
      HeldKeys(w, h, lost);
      var o := h.objs[call.o];
      match call {
        case Take(_) =>
          TakeAnother(w, o);
          h' := h.More(o);
        case Put(_) =>
          Release(w, o);
          h' := h.(held := h.held[o := h.held[o] - 1]);
        case Drop(_) =>
          Remove(w, o);
      }
      Balances(Entry(w, h, lost, h', lost));
    }
  }

  lemma HeldKeys(w: World, h: Hands, lost: map<Obj, nat>)
    requires Tally(w, h, lost)
    ensures h.held.Keys <= w.objs && lost.Keys <= w.objs
  {
  }

  method Enter(ghost w: World, h: Hands, ghost lost: map<Obj, nat>, call: Call) returns (ghost w': World)
    requires Fair(w, h, lost) && (call.AddTo? || call.PickupIn?)
    modifies w.caches, w.buckets, w.objs
    ensures Fair(w', h, lost) && Grows(w, w')
    ensures call.c < |h.caches| && (if call.AddTo? then old(h.Alive(call.o)) else h.Holds(call.o)) ==>
      var c, o := h.caches[call.c], h.objs[call.o];
      if o.ops != c.ops || (call.AddTo? && c.table != null && FirstIdentical(old(c.items), o) != null)
      then c.items == old(c.items)
      else exists x | x in w'.objs ::
        Stands(c, o, x) && c.items == (if call.AddTo? then old(c.items) else Without(old(c.items), o)) + [x]
  {
    hide Sound, FirstIdentical, Without, Tally;
    w' := w;
    if call.c < |h.caches| && if call.AddTo? then h.Alive(call.o) else h.Holds(call.o) {
      InHand(w, h, lost, call.o);
      AtHand(w, h, lost, call.c);
      HeldKeys(w, h, lost);
      var c, o := h.caches[call.c], h.objs[call.o];
      ghost var added := null;
      if call.AddTo? {
        var err;
        err, added := Add(w, c, o);
      } else if o.ops == c.ops {
        var err;
        err, added := PickupCheckdup(w, c, o);
      }
      Balances(Entry(w, h, lost, h, lost));
      TallyWith(w, h, lost, added);
      w' := With(w, added);
    }
  }

  method Relocate(ghost w: World, h: Hands, ghost lost: map<Obj, nat>, call: Call) returns (ghost lost': map<Obj, nat>)
    requires Fair(w, h, lost) && call.MoveTo?
    modifies w.caches, w.buckets, w.objs
    ensures Fair(w, h, lost')
    ensures call.c < |h.caches| && old(h.Alive(call.o)) ==>
      var c, o := h.caches[call.c], h.objs[call.o];
      var clash := c.table != null && FirstIdentical(Minus(old(c.items), o), o) != null;
      if o.ops != c.ops then c.items == old(c.items) && lost' == lost
      else if clash then c.items == Minus(old(c.items), o) && lost' == lost[o := Count(lost, o) + 1]
      else c.items == Minus(old(c.items), o) + [o] && lost' == lost
  {
    hide Sound, FirstIdentical, Minus, Tally;
    lost' := lost;
    if call.c < |h.caches| && h.Alive(call.o) {
      InHand(w, h, lost, call.o);
      AtHand(w, h, lost, call.c);
      HeldKeys(w, h, lost);
      var o := h.objs[call.o];
      var err := Move(w, h.caches[call.c], o);
      if err == -NLE_EXIST {
        lost' := lost[o := Count(lost, o) + 1];
      }
      Balances(Entry(w, h, lost, h, lost'));
    }
  }

  method Refill(ghost w: World, h: Hands, ghost lost: map<Obj, nat>, call: Call)
    requires Fair(w, h, lost) && (call.IncludeIn? || call.Empty?)
    modifies w.caches, w.buckets, w.objs
    ensures Fair(w, h, lost)
    ensures call.Empty? && call.c < |h.caches| ==> h.caches[call.c].items == []
    ensures call.IncludeIn? && call.c < |h.caches| && old(h.Alive(call.o)) ==>
      var c, o := h.caches[call.c], h.objs[call.o];
      c.items == if o.ops == c.ops then Included(old(c.items), o, call.act) else old(c.items)
  {
    hide Sound, FirstIdentical, Included, Minus, EventsOf, Tally;
    if call.c < |h.caches| {
      AtHand(w, h, lost, call.c);
      HeldKeys(w, h, lost);
      var c := h.caches[call.c];
      if call.Empty? {
        Clear(w, c);
      } else if h.Alive(call.o) {
        InHand(w, h, lost, call.o);
        if h.objs[call.o].ops == c.ops {
          var events := Include(w, c, h.objs[call.o], call.act, call.cb);
        }
      }
      Balances(Entry(w, h, lost, h, lost));
    }
  }

  lemma FoundFollows(h: Hands, call: Call)
    requires call.SearchIn? || call.FindIn?
    ensures Follows(h, call, h)
  {
  }

  lemma MoreFollows(h: Hands, call: Call, r: Obj)
    requires call.SearchIn? || call.FindIn?
    ensures Follows(h, call, h.More(r))
  {
  }

  method Look(ghost w: World, h: Hands, ghost lost: map<Obj, nat>, call: Call) returns (h': Hands)
    requires Fair(w, h, lost) && (call.SearchIn? || call.FindIn?)
    modifies w.caches, w.buckets, w.objs
    ensures Fair(w, h', lost) && Follows(h, call, h')
    ensures if call.c < |h.caches| && old(h.Alive(call.o)) && h.objs[call.o].ops == h.caches[call.c].ops then
              var c, o := h.caches[call.c], h.objs[call.o];
              var r := if call.SearchIn? || c.TakesFastPath(o) then FirstIdentical(c.items, o)
                       else FirstMatch(c.items, o);
              h' == if r == null then h else h.More(r)
            else h' == h
  {
    hide Sound, FirstIdentical, FirstMatch, Cache.TakesFastPath, Tally, Follows;
    FoundFollows(h, call);
    h' := h;
    if call.c < |h.caches| && h.Alive(call.o) {
      InHand(w, h, lost, call.o);
      AtHand(w, h, lost, call.c);
      HeldKeys(w, h, lost);
      var c, o := h.caches[call.c], h.objs[call.o];
      if o.ops == c.ops {
        var r;
        if call.SearchIn? {
          r := Search(w, c, o);
        } else {
          r := Find(w, c, o);
        }
        if r != null {
          h' := h.More(r);
          MoreFollows(h, call, r);
        }
        Balances(Entry(w, h, lost, h', lost));
      }
    }
  }

  /** nl_cache_get_first and nl_cache_get_next: an object of the cache, and no reference to give back. */
  method Lend(ghost w: World, h: Hands, ghost lost: map<Obj, nat>, call: Call) returns (h': Hands)
    requires Fair(w, h, lost) && call.Borrow?
    ensures Fair(w, h', lost) && Follows(h, call, h')
    ensures if call.c < |h.caches| && call.i < |h.caches[call.c].items|
            then h' == h.(objs := h.objs + [h.caches[call.c].items[call.i]])
            else h' == h
  {
    hide Cache.Valid;
    h' := h;
    if call.c < |h.caches| && call.i < |h.caches[call.c].items| {
      assert OwnsItems(w, h.caches[call.c]);
      h' := h.(objs := h.objs + [h.caches[call.c].items[call.i]]);
    }
  }

  /** An object the program holds is not freed. */
  lemma HeldIsAlive(w: World, h: Hands, lost: map<Obj, nat>, o: nat)
    requires Fair(w, h, lost) && h.Holds(o)
    ensures h.Alive(o)
  {
    assert Placed(w, h.objs[o]);
  }

  /** One call of the program. */
  method Perform(ghost w: World, h: Hands, ghost lost: map<Obj, nat>, call: Call)
    returns (h': Hands, ghost w': World, ghost lost': map<Obj, nat>)
    requires Fair(w, h, lost) && call.Lawful()
    modifies w.caches, w.buckets, w.objs
    ensures Fair(w', h', lost') && Grows(w, w')
    ensures Follows(h, call, h')
  {
    hide Fair, FirstIdentical, FirstMatch, Included, Minus, Without, Stands, Cache.TakesFastPath, Hands.Alive;
    h', w', lost' := h, w, lost;
    if call.AllocObject? {
      h', w' := CreateObject(w, h, lost, call);
    } else if call.AllocCache? {
      h', w' := CreateCache(w, h, lost, call);
    } else if call.Borrow? {
      h' := Lend(w, h, lost, call);
    } else if call.Take? || call.Put? || call.Drop? {
      h' := Handle(w, h, lost, call);
    } else if call.AddTo? || call.PickupIn? {
      w' := Enter(w, h, lost, call);
    } else if call.SearchIn? || call.FindIn? {
      h' := Look(w, h, lost, call);
    } else if call.MoveTo? {
      lost' := Relocate(w, h, lost, call);
    } else {
      Refill(w, h, lost, call);
    }
  }

  lemma EmptyLog(h: Hands)
    requires h == Hands([], [], map[])
    ensures IsLog([h], [])
  {
  }

  lemma LogGrows(log: seq<Hands>, calls: seq<Call>, i: nat, h: Hands)
    requires i < |calls| && IsLog(log, calls[..i]) && Follows(log[i], calls[i], h)
    ensures IsLog(log + [h], calls[..i + 1])
  {
    hide Follows;
  }

  lemma Balanced(w: World, h: Hands, lost: map<Obj, nat>)
    requires Fair(w, h, lost)
    ensures forall o | o in w.objs ::
      && o.refcnt == Count(h.held, o) + Count(lost, o) + (if o.inList then 1 else 0) + (if o.inTable then 1 else 0)
      && (o.freed <==> Count(h.held, o) == 0 && Count(lost, o) == 0 && o.cache == null)
  {
    assert forall o | o in w.objs :: Placed(w, o);
  }

  /** The hands before and after each call, from empty ones on. */
  ghost predicate IsLog(log: seq<Hands>, calls: seq<Call>) {
    && |log| == |calls| + 1 && log[0] == Hands([], [], map[])
    && forall i :: 0 <= i < |calls| ==> Follows(log[i], calls[i], log[i + 1])
  }

  /**
   * Any run of calls, each made in turn, skipping those with an object that is freed, and putting or picking up one
   * without a reference to it: all caches stay in order, and every object's count is what the program holds, what
   * clashing moves have lost, its list and its table. So nothing on a cache is ever freed, and an
   * object that lost nothing is freed exactly when the program and the caches have let go of it.
   */
  method Run(calls: seq<Call>)
    returns (h: Hands, ghost w: World, ghost lost: map<Obj, nat>, ghost log: seq<Hands>)
    requires forall call | call in calls :: call.Lawful()
    ensures Fair(w, h, lost)
    ensures IsLog(log, calls) && |log| == |calls| + 1 && log[|calls|] == h
    ensures forall o | o in w.objs ::
      && o.refcnt == Count(h.held, o) + Count(lost, o) + (if o.inList then 1 else 0) + (if o.inTable then 1 else 0)
      && (o.freed <==> Count(h.held, o) == 0 && Count(lost, o) == 0 && o.cache == null)
  {
    h, w, lost := Hands([], [], map[]), World({}, {}, {}), map[];
    log := [h];
    assert Fair(w, h, lost);
    EmptyLog(h);
    hide Fair, Follows, IsLog;
    var i := 0;
    while i < |calls|
      invariant i <= |calls| && Fair(w, h, lost)
      invariant fresh(w.caches) && fresh(w.buckets) && fresh(w.objs)
      invariant IsLog(log, calls[..i]) && |log| == i + 1 && log[i] == h
    {
      var call := calls[i];
      assert call in calls && calls[..i + 1][..i] == calls[..i];
      h, w, lost := Perform(w, h, lost, call);
      LogGrows(log, calls, i, h);
      log := log + [h];
      i := i + 1;
    }
    assert calls[..i] == calls;
    Balanced(w, h, lost);
  }
}
