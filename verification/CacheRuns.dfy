/** Whole runs of a cache: NEW and DEL messages, the callbacks they make, and resynchronisation. */
module CacheRuns {
  import opened Wrappers
  import opened Errors
  import opened Objects
  import opened Caches

  // ----- a cache as a map from identities to objects

  /** What is stored under the identity of d, for any d. */
  type View = Data -> Option<Data>

  function EmptyView(): View { d => None }

  function Insert(ops: ObjectOps, v: View, x: Data): View {
    d => if ops.SameId(x, d) then Some(x) else v(d)
  }

  function Delete(ops: ObjectOps, v: View, x: Data): View {
    d => if ops.SameId(x, d) then None else v(d)
  }

  ghost predicate Same(v: View, w: View) {
    forall d :: v(d) == w(d)
  }

  function Stored(ops: ObjectOps, s: seq<Obj>, d: Data): Option<Data> {
    if s == [] then None else if ops.SameId(s[0].data, d) then Some(s[0].data) else Stored(ops, s[1..], d)
  }

  function ViewOf(ops: ObjectOps, s: seq<Obj>): View { d => Stored(ops, s, d) }

  ghost predicate OfType(ops: ObjectOps, s: seq<Obj>) {
    forall o | o in s :: o.ops == ops
  }

  /** A cache content of one type without two identical objects. */
  ghost predicate Proper(ops: ObjectOps, s: seq<Obj>) {
    ops.Lawful() && NoTwoIdentical(s) && OfType(ops, s)
  }

  // ----- runs of messages

  datatype Message = Message(obj: Obj, act: Act)

  /** The content after one message carrying a newly parsed object. */
  function Step(s: seq<Obj>, m: Message): seq<Obj> {
    if m.act == New then Without(s, m.obj) + [m.obj]
    else if m.act == Del then Without(s, m.obj)
    else s
  }

  function Run(s: seq<Obj>, ms: seq<Message>): seq<Obj>
    decreases |ms|
  {
    if ms == [] then s else Run(Step(s, ms[0]), ms[1..])
  }

  function Apply(ops: ObjectOps, v: View, m: Message): View {
    if m.act == New then Insert(ops, v, m.obj.data) else if m.act == Del then Delete(ops, v, m.obj.data) else v
  }

  /** The reference: messages folded over a map, NEW inserting or replacing and DEL deleting. */
  function FoldView(ops: ObjectOps, v: View, ms: seq<Message>): View
    decreases |ms|
  {
    if ms == [] then v else FoldView(ops, Apply(ops, v, ms[0]), ms[1..])
  }

  lemma {:induction false} StoredInMiddle(ops: ObjectOps, s: seq<Obj>, t: seq<Obj>, d: Data)
    ensures Stored(ops, s + t, d) == if Stored(ops, s, d).Some? then Stored(ops, s, d) else Stored(ops, t, d)
  {
    if s == [] {
      assert s + t == t;
    } else {
      assert (s + t)[1..] == s[1..] + t;
      StoredInMiddle(ops, s[1..], t, d);
    }
  }

  lemma {:induction false} StoredIffSome(ops: ObjectOps, s: seq<Obj>, d: Data)
    ensures Stored(ops, s, d).None? <==> forall o | o in s :: !ops.SameId(o.data, d)
    ensures Stored(ops, s, d).Some? ==> exists o :: o in s && ops.SameId(o.data, d) && Stored(ops, s, d) == Some(o.data)
  {
    if s != [] {
      StoredIffSome(ops, s[1..], d);
    }
  }

  /** Objects identical to x have the identity of d exactly if x has. */
  lemma SameClass(ops: ObjectOps, o: Obj, x: Obj, d: Data)
    requires ops.Lawful() && o.ops == x.ops == ops
    ensures o.Identical(x) ==> x.Identical(o) && (ops.SameId(o.data, d) <==> ops.SameId(x.data, d))
    ensures ops.SameId(o.data, d) && ops.SameId(x.data, d) ==> o.Identical(x)
  {
    ops.IdentityIsEquivalence(o.data, x.data, d);
    ops.IdentityIsEquivalence(x.data, o.data, d);
    ops.IdentityIsEquivalence(x.data, d, d);
    ops.IdentityIsEquivalence(o.data, d, x.data);
  }

  lemma WithoutProper(ops: ObjectOps, s: seq<Obj>, x: Obj)
    requires Proper(ops, s)
    ensures Proper(ops, Without(s, x)) && forall o | o in Without(s, x) :: o in s
  {
    hide ObjectOps.Lawful, Obj.Identical, Position;
    if Position(s, x) < |s| {
      RemovedProper(s, Position(s, x));
    }
  }

  lemma RemovedProper(s: seq<Obj>, i: nat)
    requires NoTwoIdentical(s) && i < |s|
    ensures NoTwoIdentical(RemoveAt(s, i)) && forall o | o in RemoveAt(s, i) :: o in s
  {
    hide Obj.Identical;
    var w := RemoveAt(s, i);
    forall j, k | 0 <= j < k < |w|
      ensures !w[j].Identical(w[k])
    {
      var j', k' := if j < i then j else j + 1, if k < i then k else k + 1;
      assert w[j] == s[j'] && w[k] == s[k'];
    }
  }

  /** Removing the object identical to x deletes its identity and nothing else. */
  lemma WithoutView(ops: ObjectOps, s: seq<Obj>, x: Obj, d: Data)
    requires Proper(ops, s) && x.ops == ops
    ensures Proper(ops, Without(s, x))
    ensures Stored(ops, Without(s, x), d) == if ops.SameId(x.data, d) then None else Stored(ops, s, d)
  {
    hide ObjectOps.Lawful, ObjectOps.SameId, Obj.Identical, Position, Stored;
    WithoutProper(ops, s, x);
    var i := Position(s, x);
    if i == |s| {
      StoredIffSome(ops, s, d);
      forall o | o in s
        ensures ops.SameId(x.data, d) ==> !ops.SameId(o.data, d)
      {
        SameClass(ops, o, x, d);
      }
    } else {
      SplitView(ops, s, i, d);
      SameClass(ops, s[i], x, d);
      if ops.SameId(x.data, d) {
        forall o | o in Without(s, x)
          ensures !ops.SameId(o.data, d)
        {
          var j :| 0 <= j < |s| && j != i && s[j] == o;
          SameClass(ops, s[j], s[i], d);
          SameClass(ops, s[i], s[j], d);
        }
        StoredIffSome(ops, Without(s, x), d);
      }
    }
  }

  lemma SplitView(ops: ObjectOps, s: seq<Obj>, i: nat, d: Data)
    requires i < |s|
    ensures !ops.SameId(s[i].data, d) ==> Stored(ops, RemoveAt(s, i), d) == Stored(ops, s, d)
  {
    hide ObjectOps.SameId;
    var before, after := s[..i], s[i + 1..];
    assert s == before + ([s[i]] + after);
    StoredInMiddle(ops, before, [s[i]] + after, d);
    StoredInMiddle(ops, [s[i]], after, d);
    StoredInMiddle(ops, before, after, d);
  }

  lemma StepView(ops: ObjectOps, s: seq<Obj>, m: Message, d: Data)
    requires Proper(ops, s) && m.obj.ops == ops
    ensures Proper(ops, Step(s, m))
    ensures Stored(ops, Step(s, m), d) == Apply(ops, ViewOf(ops, s), m)(d)
  {
    hide ObjectOps.Lawful, ObjectOps.SameId, Obj.Identical, Position;
    WithoutView(ops, s, m.obj, d);
    var w := Without(s, m.obj);
    StoredInMiddle(ops, w, [m.obj], d);
    if m.act == New {
      NothingLeft(ops, s, m.obj);
    }
  }

  lemma NothingLeft(ops: ObjectOps, s: seq<Obj>, x: Obj)
    requires Proper(ops, s) && x.ops == ops
    ensures forall o | o in Without(s, x) :: !o.Identical(x)
    ensures NoTwoIdentical(Without(s, x) + [x])
  {
    WithoutView(ops, s, x, x.data);
    var w := Without(s, x);
    ops.IdentityIsEquivalence(x.data, x.data, x.data);
    StoredIffSome(ops, w, x.data);
  }

  lemma {:induction false} FoldRespectsSame(ops: ObjectOps, v: View, w: View, ms: seq<Message>)
    requires Same(v, w)
    ensures Same(FoldView(ops, v, ms), FoldView(ops, w, ms))
    decreases |ms|
  {
    if ms != [] {
      FoldRespectsSame(ops, Apply(ops, v, ms[0]), Apply(ops, w, ms[0]), ms[1..]);
    }
  }

  /**
   * Any run of NEW and DEL messages leaves the cache equal, as a map from identities to
   * objects, to the fold of inserting or replacing and deleting.
   */
  lemma {:induction false} RunIsMapFold(ops: ObjectOps, s: seq<Obj>, ms: seq<Message>)
    requires Proper(ops, s) && forall m | m in ms :: m.obj.ops == ops
    ensures Proper(ops, Run(s, ms))
    ensures Same(ViewOf(ops, Run(s, ms)), FoldView(ops, ViewOf(ops, s), ms))
    decreases |ms|
  {
    hide Proper;
    if ms != [] {
      var t := Step(s, ms[0]);
      var v := Apply(ops, ViewOf(ops, s), ms[0]);
      assert Proper(ops, t) && Same(ViewOf(ops, t), v) by {
        forall d: Data
          ensures Proper(ops, t) && ViewOf(ops, t)(d) == v(d)
        {
          StepView(ops, s, ms[0], d);
        }
        StepView(ops, s, ms[0], ms[0].obj.data);
      }
      RunIsMapFold(ops, t, ms[1..]);
      FoldRespectsSame(ops, ViewOf(ops, t), v, ms[1..]);
    }
  }

  // ----- the callbacks of a run, and an observer replaying them

  /** The callbacks made by a run that starts from content s. */
  function RunEvents(ops: ObjectOps, s: seq<Obj>, ms: seq<Message>, cb: Callback): seq<Event>
    decreases |ms|
  {
    if ms == [] then []
    else
      EventsOf(ops, Stored(ops, s, ms[0].obj.data), ms[0].obj.data, ms[0].act, cb)
      + RunEvents(ops, Step(s, ms[0]), ms[1..], cb)
  }

  function Observe(ops: ObjectOps, v: View, e: Event): View {
    match e
    case Told(x, act) => if act == Del then Delete(ops, v, x) else Insert(ops, v, x)
    case ToldV2(prior, now, _, _) =>
      if now.Some? then Insert(ops, v, now.value) else if prior.Some? then Delete(ops, v, prior.value) else v
  }

  /** An observer of either kind of callback: it stores new and changed objects and forgets deleted ones. */
  function Replay(ops: ObjectOps, v: View, es: seq<Event>): View
    decreases |es|
  {
    if es == [] then v else Replay(ops, Observe(ops, v, es[0]), es[1..])
  }

  /** Both maps hold the same identities, with objects between which there is no difference. */
  ghost predicate Close(ops: ObjectOps, v: View, w: View) {
    forall d :: v(d).Some? == w(d).Some? && (v(d).Some? ==> ops.Diff(v(d).value, w(d).value) == {})
  }

  lemma {:induction false} ReplayConcat(ops: ObjectOps, v: View, es: seq<Event>, fs: seq<Event>)
    ensures Replay(ops, v, es + fs) == Replay(ops, Replay(ops, v, es), fs)
    decreases |es|
  {
    if es == [] {
      assert es + fs == fs;
    } else {
      assert (es + fs)[1..] == es[1..] + fs;
      ReplayConcat(ops, Observe(ops, v, es[0]), es[1..], fs);
    }
  }

  /** The stored object depends only on the identity asked for. */
  lemma {:induction false} StoredRespectsIdentity(ops: ObjectOps, s: seq<Obj>, d: Data, e: Data)
    requires ops.Lawful() && ops.SameId(d, e)
    ensures Stored(ops, s, d) == Stored(ops, s, e)
  {
    if s != [] {
      ops.IdentityIsEquivalence(s[0].data, d, e);
      ops.IdentityIsEquivalence(d, e, d);
      ops.IdentityIsEquivalence(s[0].data, e, d);
      StoredRespectsIdentity(ops, s[1..], d, e);
    }
  }

  lemma StepReplay(ops: ObjectOps, s: seq<Obj>, m: Message, v: View, cb: Callback, d: Data)
    requires Proper(ops, s) && m.obj.ops == ops && Close(ops, v, ViewOf(ops, s)) && cb != NoCallback
    ensures var es := EventsOf(ops, Stored(ops, s, m.obj.data), m.obj.data, m.act, cb);
      var v', w' := Replay(ops, v, es)(d), Stored(ops, Step(s, m), d);
      v'.Some? == w'.Some? && (v'.Some? ==> ops.Diff(v'.value, w'.value) == {})
  {
    hide ObjectOps.Lawful, ObjectOps.ComparesByEquivalences, ObjectOps.SameId, ObjectOps.Diff, Stored, Step;
    ops.LawfulCompares();
    var x := m.obj.data;
    StepView(ops, s, m, d);
    ops.NoDiffIsEquivalence(x, x, x);
    var prior := Stored(ops, s, x);
    assert ViewOf(ops, s)(d) == Stored(ops, s, d) && ViewOf(ops, s)(x) == prior;
    if ops.SameId(x, d) {
      StoredRespectsIdentity(ops, s, x, d);
      if prior.Some? && v(d).Some? {
        ops.NoDiffIsEquivalence(v(d).value, prior.value, x);
      }
    }
    if prior.Some? {
      StoredIffSome(ops, s, x);
      ops.IdentityIsEquivalence(x, prior.value, d);
      ops.IdentityIsEquivalence(prior.value, x, d);
    }
  }

  /**
   * Replaying the callbacks of any run on an observer's map reconstructs the cache, up to
   * objects without a difference, although replacing an object by one that does not differ
   * makes no callback.
   */
  lemma {:induction false} ReplayReconstructs(ops: ObjectOps, s: seq<Obj>, ms: seq<Message>, v: View, cb: Callback)
    requires Proper(ops, s) && (forall m | m in ms :: m.obj.ops == ops) && Close(ops, v, ViewOf(ops, s))
    requires cb != NoCallback
    ensures Close(ops, Replay(ops, v, RunEvents(ops, s, ms, cb)), ViewOf(ops, Run(s, ms)))
    decreases |ms|
  {
    hide Proper;
    if ms != [] {
      var m, t := ms[0], Step(s, ms[0]);
      var es := EventsOf(ops, Stored(ops, s, m.obj.data), m.obj.data, m.act, cb);
      var v' := Replay(ops, v, es);
      StepClose(ops, s, m, v, cb);
      ReplayReconstructs(ops, t, ms[1..], v', cb);
      ReplayConcat(ops, v, es, RunEvents(ops, t, ms[1..], cb));
    }
  }

  /** Two objects provide the same attributes of their type, and none of them compares as different. */
  ghost predicate Agree(ops: ObjectOps, a: Data, b: Data) {
    forall i | i in ops.known :: (i in a.mask <==> i in b.mask) && (i in a.mask ==> !ops.differs(i, a, b))
  }

  /** So an observer that starts with an empty cache agrees with it in every attribute of every identity. */
  lemma ReplayAgrees(ops: ObjectOps, ms: seq<Message>, cb: Callback, d: Data)
    requires ops.Lawful() && (forall m | m in ms :: m.obj.ops == ops) && cb != NoCallback
    ensures var seen, there := Replay(ops, EmptyView(), RunEvents(ops, [], ms, cb))(d), Stored(ops, Run([], ms), d);
      (seen.Some? <==> there.Some?) && (seen.Some? ==> Agree(ops, seen.value, there.value))
  {
    hide ObjectOps.Lawful, ObjectOps.Diff, Run, RunEvents, Replay;
    assert Proper(ops, []);
    ReplayReconstructs(ops, [], ms, EmptyView(), cb);
    var seen, there := Replay(ops, EmptyView(), RunEvents(ops, [], ms, cb))(d), Stored(ops, Run([], ms), d);
    assert ViewOf(ops, Run([], ms))(d) == there;
    if seen.Some? && there.Some? {
      ops.NoDiffIffAgree(seen.value, there.value);
    }
  }

  /**
   * What a callback says is so: a new object is one the observer does not have, a changed or deleted one it has, and
   * the change is in the attributes named, of which there is one.
   */
  ghost predicate Truthful(ops: ObjectOps, v: View, e: Event) {
    match e
    case Told(x, New) => v(x).None?
    case Told(x, Change) => v(x).Some? && !Agree(ops, v(x).value, x)
    case Told(x, Del) => v(x).Some? && Agree(ops, v(x).value, x)
    case Told(_, Get) => false
    case ToldV2(prior, now, diff, New) => prior.None? && now.Some? && v(now.value).None? && diff == {}
    case ToldV2(prior, now, diff, Del) =>
      prior.Some? && now.None? && diff == {} && v(prior.value).Some? && Agree(ops, v(prior.value).value, prior.value)
    case ToldV2(prior, now, diff, Change) =>
      && prior.Some? && now.Some? && ops.SameId(now.value, prior.value)
      && v(now.value).Some? && Agree(ops, v(now.value).value, prior.value)
      && diff != {} && forall i :: i in diff <==>
        && i in ops.known
        && ((i in prior.value.mask) != (i in now.value.mask)
            || (i in prior.value.mask && ops.differs(i, prior.value, now.value)))
    case ToldV2(_, _, _, Get) => false
  }

  ghost predicate AllTruthful(ops: ObjectOps, v: View, es: seq<Event>)
    decreases |es|
  {
    es == [] || (Truthful(ops, v, es[0]) && AllTruthful(ops, Observe(ops, v, es[0]), es[1..]))
  }

  lemma StepTruthful(ops: ObjectOps, s: seq<Obj>, m: Message, v: View, cb: Callback)
    requires Proper(ops, s) && m.obj.ops == ops && Close(ops, v, ViewOf(ops, s))
    ensures var es := EventsOf(ops, Stored(ops, s, m.obj.data), m.obj.data, m.act, cb);
      |es| <= 1 && forall e | e in es :: Truthful(ops, v, e) && (cb == V2 <==> e.ToldV2?)
  {
    hide ObjectOps.Lawful, ObjectOps.ComparesByEquivalences, ObjectOps.SameId, ObjectOps.Diff, Stored;
    ops.LawfulCompares();
    var x := m.obj.data;
    var prior := Stored(ops, s, x);
    assert ViewOf(ops, s)(x) == prior;
    if prior.Some? {
      var p := prior.value;
      StoredIffSome(ops, s, x);
      ops.IdentityIsEquivalence(p, x, x);
      StoredRespectsIdentity(ops, s, x, p);
      assert ViewOf(ops, s)(p) == prior;
      ops.NoDiffIffAgree(v(x).value, p);
      ops.NoDiffIffAgree(v(p).value, p);
      ops.NoDiffIffAgree(v(x).value, x);
      ops.NoDiffIsEquivalence(v(x).value, p, x);
      ops.NoDiffIsEquivalence(p, v(x).value, x);
      forall i
        ensures i in ops.Diff(p, x) <==>
          i in ops.known && ((i in p.mask) != (i in x.mask) || (i in p.mask && ops.differs(i, p, x)))
      {
        ops.DiffTells(p, x, i);
      }
    }
  }

  /** Over any run every callback is truthful when it is made. */
  lemma {:induction false} RunTruthful(ops: ObjectOps, s: seq<Obj>, ms: seq<Message>, v: View, cb: Callback)
    requires Proper(ops, s) && (forall m | m in ms :: m.obj.ops == ops) && Close(ops, v, ViewOf(ops, s))
    requires cb != NoCallback
    ensures AllTruthful(ops, v, RunEvents(ops, s, ms, cb))
    decreases |ms|
  {
    hide Proper, Truthful, Close, EventsOf, Observe, Step;
    if ms != [] {
      var m, t := ms[0], Step(s, ms[0]);
      var es := EventsOf(ops, Stored(ops, s, m.obj.data), m.obj.data, m.act, cb);
      StepTruthful(ops, s, m, v, cb);
      StepClose(ops, s, m, v, cb);
      RunTruthful(ops, t, ms[1..], Replay(ops, v, es), cb);
      var more := RunEvents(ops, t, ms[1..], cb);
      if es == [] {
        assert es + more == more;
      } else {
        assert (es + more)[1..] == more && es[1..] == [];
        assert Replay(ops, v, es) == Replay(ops, Observe(ops, v, es[0]), []);
      }
    }
  }

  /** One message keeps the observer close to the cache. */
  lemma StepClose(ops: ObjectOps, s: seq<Obj>, m: Message, v: View, cb: Callback)
    requires Proper(ops, s) && m.obj.ops == ops && Close(ops, v, ViewOf(ops, s)) && cb != NoCallback
    ensures Proper(ops, Step(s, m))
    ensures var es := EventsOf(ops, Stored(ops, s, m.obj.data), m.obj.data, m.act, cb);
      Close(ops, Replay(ops, v, es), ViewOf(ops, Step(s, m)))
  {
    hide Proper, Step, EventsOf, Replay;
    var es := EventsOf(ops, Stored(ops, s, m.obj.data), m.obj.data, m.act, cb);
    var v', t := Replay(ops, v, es), Step(s, m);
    forall d: Data
      ensures v'(d).Some? == ViewOf(ops, t)(d).Some?
      ensures v'(d).Some? ==> ops.Diff(v'(d).value, ViewOf(ops, t)(d).value) == {}
    {
      StepReplay(ops, s, m, v, cb, d);
    }
    StepView(ops, s, m, m.obj.data);
  }

  // ----- running the cache

  lemma FoundIsStored(ops: ObjectOps, s: seq<Obj>, x: Obj)
    requires ops.Lawful() && x.ops == ops && OfType(ops, s)
    ensures var o := FirstIdentical(s, x); Stored(ops, s, x.data) == if o == null then None else Some(o.data)
  {
    ops.IdentityIsEquivalence(x.data, x.data, x.data);
    if s != [] && !s[0].Identical(x) {
      FoundIsStored(ops, s[1..], x);
      var i := Position(s[1..], x);
      assert Position(s, x) == i + 1;
    }
  }

  function Objs(ms: seq<Message>): set<Obj> { set m | m in ms :: m.obj }

  /** Newly parsed objects: each on no cache, unmarked, referenced by the parser, and a message of its own. */
  ghost predicate Incoming(c: Cache, ms: seq<Message>)
    reads Objs(ms)
  {
    && (forall m | m in ms ::
          m.obj.AtRest() && m.obj.handles > 0 && m.obj.cache == null && !m.obj.marked && c.Admissible(m.obj))
    && (forall i, j | 0 <= i < j < |ms| :: ms[i].obj != ms[j].obj)
  }

  /** The references and marks of these objects are what they were; none is freed that a caller or a cache holds. */
  twostate predicate Kept(objs: set<Obj>)
    reads objs
  {
    forall o | o in objs :: o.AtRest() && o.handles == old(o.handles) && o.marked == old(o.marked)
  }

  /** cache_include for one message; those to come later are left alone. */
  method IncludeNext(c: Cache, m: Message, cb: Callback, ghost later: seq<Message>, ghost objs: set<Obj>)
    returns (es: seq<Event>)
    requires c.Valid() && Incoming(c, [m] + later)
    requires (forall o | o in c.items :: o in objs) && Objs([m] + later) <= objs && forall o | o in objs :: o.AtRest()
    modifies c.Region(), objs
    ensures c.Valid() && Incoming(c, later) && c.items == Step(old(c.items), m) && Kept(objs)
    ensures es == EventsOf(c.ops, Stored(c.ops, old(c.items), m.obj.data), m.obj.data, m.act, cb)
    ensures forall o | o in c.items :: o in objs
  {
    hide Step, EventsOf, Without, Minus, FirstIdentical, Position, Stored, Cache.Valid, Cache.Admissible, RemoveAt;
    assert ([m] + later)[0] == m && ([m] + later)[1..] == later;
    assert forall i | 0 <= i < |later| :: later[i] == ([m] + later)[i + 1];
    IncludeStep(c, m);
    NextFootprint(c, m.obj, objs);
    hide Cache.Footprint, Cache.Reachable, Cache.Elsewhere;
    es := c.Include(m.obj, m.act, cb);
  }

  /** An object on no cache: what including it may change. */
  lemma NextFootprint(c: Cache, x: Obj, objs: set<Obj>)
    requires c.Valid() && x.cache == null && x in objs && forall o | o in c.items :: o in objs
    ensures c.Footprint(x) <= c.Region() + objs
    ensures forall o: Obj | o in c.Footprint(x) :: o == x || o == FirstIdentical(c.items, x)
  {
    hide Obj.Identical, Cache.Valid;
  }

  /** cache_include for each message in turn. */
  method RunMessages(c: Cache, ms: seq<Message>, cb: Callback, ghost later: seq<Message>, ghost objs: set<Obj>)
    returns (events: seq<Event>)
    requires c.Valid() && Incoming(c, ms + later)
    requires (forall o | o in c.items :: o in objs) && Objs(ms + later) <= objs && forall o | o in objs :: o.AtRest()
    modifies c.Region(), objs
    ensures c.Valid() && Incoming(c, later)
    ensures c.items == Run(old(c.items), ms) && events == RunEvents(c.ops, old(c.items), ms, cb)
    ensures Kept(objs) && forall o | o in c.items :: o in objs
    decreases |ms|
  {
    hide Step, EventsOf, Incoming, Cache.Valid, Objs;
    if ms == [] {
      assert ms + later == later;
      return [];
    }
    assert ms + later == [ms[0]] + (ms[1..] + later);
    var es := IncludeNext(c, ms[0], cb, ms[1..] + later, objs);
    ObjsOfRest(ms[0], ms[1..] + later);
    var more := RunMessages(c, ms[1..], cb, later, objs);
    return es + more;
  }

  lemma ObjsOfRest(m: Message, rest: seq<Message>)
    ensures Objs(rest) <= Objs([m] + rest)
  {
    assert forall n | n in rest :: n in [m] + rest;
  }

  lemma IncludeStep(c: Cache, m: Message)
    requires c.Valid() && c.Admissible(m.obj) && m.obj.AtRest() && m.obj.cache == null
    ensures c.Reachable(m.obj) && forall o | o in c.items :: o.cache == c
    ensures Step(c.items, m) ==
      if m.act == New then Minus(Without(c.items, m.obj), m.obj) + [m.obj]
      else if m.act == Del then Without(c.items, m.obj) else c.items
    ensures var o := FirstIdentical(c.items, m.obj);
      Stored(c.ops, c.items, m.obj.data) == if o == null then None else Some(o.data)
    ensures forall o | o in Step(c.items, m) :: o in c.items || o == m.obj
  {
    assert forall o | o in c.items :: c.Member(o);
    FoundIsStored(c.ops, c.items, m.obj);
  }

  // ----- resynchronisation

  /** How the kernel answers one dump request: a refusal, or objects and the result of nl_recvmsgs. */
  datatype Reply = Refused(err: int) | Dump(objs: seq<Obj>, result: int)

  function News(objs: seq<Obj>): seq<Message> { seq(|objs|, i requires 0 <= i < |objs| => Message(objs[i], New)) }

  /** All messages the replies bring. */
  function Brought(script: seq<Reply>): seq<Message> {
    if script == [] then []
    else (if script[0].Dump? then News(script[0].objs) else []) + Brought(script[1..])
  }

  /** The replies go on until the last of the dumps is complete or an error ends the exchange. */
  predicate Conclusive(script: seq<Reply>, dumps: nat) {
    && script != []
    && match script[0]
       case Refused(err) => err < 0
       case Dump(_, result) =>
         if result == -NLE_DUMP_INTR then Conclusive(script[1..], dumps)
         else result < 0 || dumps <= 1 || Conclusive(script[1..], dumps - 1)
  }

  /** The objects of s that no message replaces. */
  function Remaining(s: seq<Obj>, ms: seq<Message>): seq<Obj>
    decreases |ms|
  {
    if ms == [] then s else Remaining(Without(s, ms[0].obj), ms[1..])
  }

  lemma {:induction false} RemainingAreUndelivered(ops: ObjectOps, s: seq<Obj>, ms: seq<Message>)
    requires Proper(ops, s) && forall m | m in ms :: m.obj.ops == ops
    ensures forall o | o in Remaining(s, ms) :: o in s && forall m | m in ms :: !o.Identical(m.obj)
    ensures forall o | o in s && (forall m | m in ms :: !o.Identical(m.obj)) :: o in Remaining(s, ms)
    decreases |ms|
  {
    hide Obj.Identical;
    if ms != [] {
      var x := ms[0].obj;
      WithoutProper(ops, s, x);
      WithoutMembers(ops, s, x);
      RemainingAreUndelivered(ops, Without(s, x), ms[1..]);
      assert forall m :: m in ms <==> m == ms[0] || m in ms[1..];
    }
  }

  lemma WithoutMembers(ops: ObjectOps, s: seq<Obj>, x: Obj)
    requires Proper(ops, s) && x.ops == ops
    ensures forall o :: o in Without(s, x) <==> o in s && !o.Identical(x)
  {
    NothingLeft(ops, s, x);
    WithoutProper(ops, s, x);
    hide Obj.Identical, Proper, RemoveAt;
    var i := Position(s, x);
    if i < |s| {
      RemoveAtMembers(s, i);
    }
  }

  lemma RemoveAtMembers(s: seq<Obj>, i: nat)
    requires i < |s|
    ensures forall o | o in s && o != s[i] :: o in RemoveAt(s, i)
  {
    forall o | o in s && o != s[i]
      ensures o in RemoveAt(s, i)
    {
      var j :| 0 <= j < |s| && s[j] == o;
      assert RemoveAt(s, i)[if j < i then j else j - 1] == o;
    }
  }

  lemma RemoveAtConcat<T>(s: seq<T>, t: seq<T>, i: nat)
    requires i < |s| + |t|
    ensures RemoveAt(s + t, i) == if i < |s| then RemoveAt(s, i) + t else s + RemoveAt(t, i - |s|)
  {
  }

  lemma OnlyOneIdentical(ops: ObjectOps, s: seq<Obj>, x: Obj, i: nat, j: nat)
    requires Proper(ops, s) && x.ops == ops && i < j < |s| && s[i].Identical(x)
    ensures !s[j].Identical(x)
  {
    if s[j].Identical(x) {
      IdenticalTransitive(s[j], x, s[i]);
      IdenticalTransitive(s[i], x, s[j]);
    }
  }

  lemma {:induction false} PositionConcat(s: seq<Obj>, t: seq<Obj>, x: Obj)
    ensures Position(s + t, x) == if Position(s, x) < |s| then Position(s, x) else |s| + Position(t, x)
  {
    hide Obj.Identical;
    if s == [] {
      assert s + t == t;
    } else {
      assert (s + t)[1..] == s[1..] + t;
      PositionConcat(s[1..], t, x);
    }
  }

  lemma WithoutConcat(ops: ObjectOps, s: seq<Obj>, t: seq<Obj>, x: Obj)
    requires Proper(ops, s + t) && x.ops == ops
    ensures Without(s + t, x) == Without(s, x) + Without(t, x)
  {
    hide Obj.Identical, Proper, Position, RemoveAt;
    PositionConcat(s, t, x);
    var p, q := Position(s, x), Position(t, x);
    if p < |s| && q < |t| {
      assert (s + t)[p] == s[p] && (s + t)[|s| + q] == t[q];
      OnlyOneIdentical(ops, s + t, x, p, |s| + q);
    }
    if p < |s| || q < |t| {
      RemoveAtConcat(s, t, if p < |s| then p else |s| + q);
    }
  }

  /** What the messages bring when they replace old objects first: s of the old ones, t of theirs is there. */
  function Arrived(s: seq<Obj>, t: seq<Obj>, ms: seq<Message>): seq<Obj>
    decreases |ms|
  {
    if ms == [] then t
    else
      var x := ms[0].obj;
      Arrived(Without(s, x), (if Position(s, x) < |s| then t else Without(t, x)) + [x], ms[1..])
  }

  /** With only NEW messages the old objects stay in front, and what they bring comes after. */
  lemma {:induction false} NewsGoBehind(s: seq<Obj>, t: seq<Obj>, ms: seq<Message>)
    requires forall m | m in ms :: m.act == New
    ensures Run(s + t, ms) == Remaining(s, ms) + Arrived(s, t, ms)
    decreases |ms|
  {
    hide Obj.Identical, Position;
    if ms != [] {
      var x := ms[0].obj;
      var t' := (if Position(s, x) < |s| then t else Without(t, x)) + [x];
      PositionConcat(s, t, x);
      if Position(s + t, x) < |s + t| {
        RemoveAtConcat(s, t, Position(s + t, x));
      }
      assert Step(s + t, ms[0]) == Without(s, x) + t';
      NewsGoBehind(Without(s, x), t', ms[1..]);
    }
  }

  /** What remains was there, and what arrives was there behind it or is delivered. */
  lemma {:induction false} RemainAndArrive(s: seq<Obj>, t: seq<Obj>, ms: seq<Message>)
    ensures forall o | o in Remaining(s, ms) :: o in s
    ensures forall o | o in Arrived(s, t, ms) :: o in t || o in Objs(ms)
    decreases |ms|
  {
    hide Obj.Identical, Position;
    if ms != [] {
      var x := ms[0].obj;
      RemainAndArrive(Without(s, x), (if Position(s, x) < |s| then t else Without(t, x)) + [x], ms[1..]);
      assert ms[0] in ms && forall m | m in ms[1..] :: m in ms;
    }
  }

  /** No message finds both an identical old object and one delivered before. */
  predicate MeetsOne(s: seq<Obj>, t: seq<Obj>, ms: seq<Message>)
    decreases |ms|
  {
    ms == [] ||
    var x := ms[0].obj;
    && (Position(s, x) == |s| || Position(t, x) == |t|)
    && MeetsOne(Without(s, x), Without(t, x) + [x], ms[1..])
  }

  ghost predicate SameIdentities(ops: ObjectOps, t: seq<Obj>, u: seq<Obj>) {
    forall d :: Stored(ops, t, d).Some? <==> Stored(ops, u, d).Some?
  }

  /** An identical object is there or not, by identity. */
  lemma FoundIffStored(ops: ObjectOps, s: seq<Obj>, x: Obj)
    requires ops.Lawful() && x.ops == ops && OfType(ops, s)
    ensures Position(s, x) < |s| <==> Stored(ops, s, x.data).Some?
  {
    FoundIsStored(ops, s, x);
  }

  /** A list keeps its identities when x goes, but for that of x, and then comes. */
  lemma ReplacedIdentities(ops: ObjectOps, t: seq<Obj>, x: Obj, d: Data)
    requires ops.Lawful() && x.ops == ops && OfType(ops, t)
    ensures Stored(ops, Without(t, x) + [x], d).Some? <==> Stored(ops, t, d).Some? || ops.SameId(x.data, d)
    ensures Stored(ops, t + [x], d).Some? <==> Stored(ops, t, d).Some? || ops.SameId(x.data, d)
    ensures OfType(ops, Without(t, x) + [x]) && OfType(ops, t + [x])
  {
    hide ObjectOps.Lawful, ObjectOps.SameId, Obj.Identical, Position, Stored;
    StoredInMiddle(ops, Without(t, x), [x], d);
    StoredInMiddle(ops, t, [x], d);
    StoredIffSome(ops, [x], d);
    assert x in [x];
    var i := Position(t, x);
    if i < |t| {
      SplitView(ops, t, i, d);
      SameClass(ops, t[i], x, d);
    }
  }

  /** Once something is left twice it stays so: a replacement never makes two objects one. */
  lemma {:induction false} ArrivedAtLeast(ops: ObjectOps, s: seq<Obj>, t: seq<Obj>, u: seq<Obj>, ms: seq<Message>)
    requires ops.Lawful() && OfType(ops, s) && OfType(ops, t) && OfType(ops, u) && |t| >= |u|
    requires SameIdentities(ops, t, u) && forall m | m in ms :: m.obj.ops == ops && m.act == New
    ensures |Arrived(s, t, ms)| - |Run(u, ms)| >= |t| - |u|
    decreases |ms|
  {
    hide ObjectOps.Lawful, ObjectOps.SameId, Obj.Identical, Position, Stored;
    if ms != [] {
      var x := ms[0].obj;
      var t' := (if Position(s, x) < |s| then t else Without(t, x)) + [x];
      var u' := Without(u, x) + [x];
      FoundIffStored(ops, t, x);
      FoundIffStored(ops, u, x);
      forall d
        ensures Stored(ops, t', d).Some? <==> Stored(ops, u', d).Some?
        ensures OfType(ops, t') && OfType(ops, u')
      {
        ReplacedIdentities(ops, t, x, d);
        ReplacedIdentities(ops, u, x, d);
      }
      ReplacedIdentities(ops, t, x, x.data);
      ReplacedIdentities(ops, u, x, x.data);
      ArrivedAtLeast(ops, Without(s, x), t', u', ms[1..]);
    }
  }

  /**
   * What arrives is what the messages alone would have built iff no message finds both an old
   * object and one delivered before.
   */
  lemma {:induction false} ArrivedAloneIff(ops: ObjectOps, s: seq<Obj>, t: seq<Obj>, ms: seq<Message>)
    requires ops.Lawful() && OfType(ops, s) && OfType(ops, t)
    requires forall m | m in ms :: m.obj.ops == ops && m.act == New
    ensures Arrived(s, t, ms) == Run(t, ms) <==> MeetsOne(s, t, ms)
    decreases |ms|
  {
    hide ObjectOps.Lawful, ObjectOps.SameId, Obj.Identical, Position, Stored;
    if ms != [] {
      var x := ms[0].obj;
      var t' := Without(t, x) + [x];
      ReplacedIdentities(ops, t, x, x.data);
      if Position(s, x) < |s| && Position(t, x) < |t| {
        FoundIffStored(ops, t, x);
        forall d
          ensures Stored(ops, t + [x], d).Some? <==> Stored(ops, t', d).Some?
        {
          ReplacedIdentities(ops, t, x, d);
        }
        ArrivedAtLeast(ops, Without(s, x), t + [x], t', ms[1..]);
      } else {
        ArrivedAloneIff(ops, Without(s, x), t', ms[1..]);
      }
    }
  }

  /** So it is for every cache without two identical objects. */
  lemma {:induction false} ProperMeetsOne(ops: ObjectOps, s: seq<Obj>, t: seq<Obj>, ms: seq<Message>)
    requires Proper(ops, s + t) && forall m | m in ms :: m.obj.ops == ops && m.act == New
    ensures MeetsOne(s, t, ms)
    decreases |ms|
  {
    hide Proper, Obj.Identical, Position;
    if ms != [] {
      var m, x := ms[0], ms[0].obj;
      var p, q := Position(s, x), Position(t, x);
      if p < |s| && q < |t| {
        assert (s + t)[p] == s[p] && (s + t)[|s| + q] == t[q];
        OnlyOneIdentical(ops, s + t, x, p, |s| + q);
      }
      WithoutConcat(ops, s, t, x);
      StepView(ops, s + t, m, x.data);
      assert Step(s + t, m) == Without(s, x) + Step(t, m);
      ProperMeetsOne(ops, Without(s, x), Step(t, m), ms[1..]);
    }
  }

  /** And whenever no two of the objects delivered are identical, whatever the cache held. */
  lemma {:induction false} DistinctMeetsOne(ops: ObjectOps, s: seq<Obj>, t: seq<Obj>, ms: seq<Message>)
    requires ops.Lawful() && OfType(ops, t) && forall m | m in ms :: m.obj.ops == ops
    requires forall i, j | 0 <= i < j < |ms| :: !ms[i].obj.Identical(ms[j].obj)
    requires forall o, m | o in t && m in ms :: !o.Identical(m.obj)
    ensures MeetsOne(s, t, ms)
    decreases |ms|
  {
    hide ObjectOps.Lawful, Obj.Identical, Position;
    if ms != [] {
      var x := ms[0].obj;
      assert ms[0] in ms;
      AbsentFrom(t, x);
      forall o, m | o in t + [x] && m in ms[1..]
        ensures !o.Identical(m.obj)
      {
        var j :| 0 <= j < |ms[1..]| && ms[1..][j] == m;
        assert ms[j + 1] == m;
      }
      DistinctMeetsOne(ops, Without(s, x), t + [x], ms[1..]);
    }
  }

  lemma AbsentFrom(s: seq<Obj>, x: Obj)
    requires forall o | o in s :: !o.Identical(x)
    ensures Position(s, x) == |s|
  {
    hide Obj.Identical;
  }

  /** Two identical old objects, as an unhashed cache can hold, and their identity delivered twice: two are left. */
  lemma TwoOldLeaveTwo(a: Obj, b: Obj, x: Obj, y: Obj)
    requires a.Identical(x) && b.Identical(y) && x.Identical(y)
    ensures var ms := [Message(x, New), Message(y, New)];
      Arrived([a, b], [], ms) == [x, y] && Run([], ms) == [y] && Remaining([a, b], ms) == []
  {
    hide Obj.Identical, Position, Without;
    var ms, rest: seq<Message> := [Message(x, New), Message(y, New)], [Message(y, New)];
    FirstGoes([a, b], x);
    FirstGoes([b], y);
    FirstGoes([x], y);
    FirstGoes([], x);
    assert ms[1..] == rest && rest[1..] == [] && [] + [x] == [x] && [x] + [y] == [x, y];
    assert [a, b][1..] == [b] && [b][1..] == [] && [x][1..] == [];
    assert Arrived([a, b], [], ms) == Arrived([b], [x], rest) == Arrived([], [x, y], []);
    assert Run([], ms) == Run([x], rest) == Run([y], []);
    assert Remaining([a, b], ms) == Remaining([b], rest) == Remaining([], []);
  }

  lemma FirstGoes(s: seq<Obj>, x: Obj)
    requires s != [] ==> s[0].Identical(x)
    ensures Position(s, x) == 0 && Without(s, x) == if s == [] then [] else s[1..]
  {
    hide Obj.Identical;
  }

  lemma {:induction false} RunConcat(s: seq<Obj>, a: seq<Message>, b: seq<Message>)
    ensures Run(s, a + b) == Run(Run(s, a), b)
    decreases |a|
  {
    hide Step;
    if a == [] {
      assert a + b == b;
    } else {
      assert (a + b)[1..] == a[1..] + b;
      RunConcat(Step(s, a[0]), a[1..], b);
    }
  }

  lemma {:induction false} RunEventsConcat(ops: ObjectOps, s: seq<Obj>, a: seq<Message>, b: seq<Message>, cb: Callback)
    ensures RunEvents(ops, s, a + b, cb) == RunEvents(ops, s, a, cb) + RunEvents(ops, Run(s, a), b, cb)
    decreases |a|
  {
    hide Step, EventsOf, Stored;
    if a == [] {
      assert a + b == b;
    } else {
      assert (a + b)[1..] == a[1..] + b;
      RunEventsConcat(ops, Step(s, a[0]), a[1..], b, cb);
    }
  }

  lemma {:induction false} RunHoldsBrought(s: seq<Obj>, ms: seq<Message>)
    ensures forall o | o in Run(s, ms) :: o in s || o in Objs(ms)
    decreases |ms|
  {
    if ms != [] {
      RunHoldsBrought(Step(s, ms[0]), ms[1..]);
    }
  }

  /** nl_cache_mark_all. */
  method MarkAll(c: Cache)
    requires c.Valid()
    modifies c.items
    ensures c.Valid()
    ensures forall o | o in c.items :: o.marked && o.AtRest() && o.handles == old(o.handles)
  {
    var i := 0;
    while i < |c.items|
      invariant 0 <= i <= |c.items| && c.Valid()
      invariant forall j | 0 <= j < i :: c.items[j].marked
      invariant forall o | o in c.items :: o.handles == old(o.handles)
    {
      assert c.items[i] in c.items;
      c.items[i].marked := true;
      i := i + 1;
    }
    assert forall o | o in c.items :: c.Member(o);
  }

  function Deletions(s: seq<Obj>, cb: Callback): seq<Event> {
    if s == [] || cb == NoCallback then [] else [Told(s[0].data, Del)] + Deletions(s[1..], cb)
  }

  /** nl_object_get, nl_cache_remove and nl_object_put of an object of the cache. */
  method RemoveMarked(c: Cache, obj: Obj)
    requires c.Valid() && c.items != [] && obj == c.items[0]
    modifies c.Region(), obj
    ensures c.Valid() && c.items == old(c.items)[1..]
    ensures obj.AtRest() && obj.cache == null && obj.handles == old(obj.handles) && obj.marked == old(obj.marked)
    ensures obj !in c.items
  {
    assert c.Member(obj);
    c.TakeHandle(obj, null);
    c.Unlink(obj);
    c.DropHandle(obj, null);
  }

  /** The last loop of nl_cache_resync: every object still marked goes, with one callback each. */
  method Sweep(c: Cache, cb: Callback, ghost olds: seq<Obj>, ghost kept: seq<Obj>) returns (events: seq<Event>)
    requires c.Valid() && c.items == olds + kept
    requires (forall o | o in olds :: o.marked) && forall o | o in kept :: !o.marked
    modifies c.Region(), olds
    ensures c.Valid() && c.items == kept && events == Deletions(olds, cb)
    ensures forall o | o in olds :: o.AtRest() && o.cache == null && o.handles == old(o.handles)
  {
    hide Cache.Valid, Obj.AtRest, Deletions;
    events := [];
    var i := 0;
    ghost var k := 0;
    assert olds[0..] == olds && events + Deletions(olds, cb) == Deletions(olds, cb);
    while i < |c.items|
      invariant 0 <= k <= |olds| && c.Valid() && 0 <= i <= |c.items|
      invariant c.items == olds[k..] + kept && (k < |olds| ==> i == 0)
      invariant forall j :: 0 <= j < |olds| ==> olds[j].handles == old(olds[j].handles)
      invariant forall j :: k <= j < |olds| ==> olds[j].marked
      invariant forall j :: 0 <= j < k ==> olds[j].AtRest() && olds[j].cache == null
      invariant forall o | o in kept :: !o.marked
      invariant events + Deletions(olds[k..], cb) == Deletions(olds, cb)
      decreases |c.items| - i
    {
      var obj := c.items[i];
      if obj.marked {
        FirstOfRest(olds, k, kept, cb);
        RemoveMarked(c, obj);
        if cb != NoCallback {
          events := events + [Told(obj.data, Del)];
        }
        k := k + 1;
      } else {
        i := i + 1;
      }
    }
    assert olds[k..] == [] && [] + kept == kept;
    NoDeletions(cb);
    assert events + [] == events;
  }

  lemma NoDeletions(cb: Callback)
    ensures Deletions([], cb) == []
  {
  }

  lemma FirstOfRest(s: seq<Obj>, k: nat, t: seq<Obj>, cb: Callback)
    requires k <= |s| && s[k..] + t != []
    ensures k < |s| ==> (s[k..] + t)[0] == s[k] && (s[k..] + t)[1..] == s[k + 1..] + t
    ensures k < |s| ==>
      Deletions(s[k..], cb) == (if cb == NoCallback then [] else [Told(s[k].data, Del)]) + Deletions(s[k + 1..], cb)
    ensures k == |s| ==> (s[k..] + t) == t
  {
    assert k < |s| ==> s[k..][1..] == s[k + 1..];
    assert cb == NoCallback && k < |s| ==> Deletions(s[k + 1..], cb) == [];
  }

  /** What an exchange comes to: its error, or 0, and the messages it delivers. */
  function Exchange(script: seq<Reply>, dumps: nat): (int, seq<Message>)
    requires Conclusive(script, dumps)
  {
    match script[0]
    case Refused(err) => (err, [])
    case Dump(objs, result) =>
      if result != -NLE_DUMP_INTR && result < 0 then (result, News(objs))
      else if result != -NLE_DUMP_INTR && dumps <= 1 then (0, News(objs))
      else
        var more := Exchange(script[1..], if result == -NLE_DUMP_INTR then dumps else dumps - 1);
        (more.0, News(objs) + more.1)
  }

  lemma {:induction false} ExchangeBrings(script: seq<Reply>, dumps: nat)
    requires Conclusive(script, dumps)
    ensures Exchange(script, dumps).0 <= 0
    ensures forall m | m in Exchange(script, dumps).1 :: m in Brought(script) && m.act == New
  {
    if script[0].Dump? {
      var result := script[0].result;
      if result == -NLE_DUMP_INTR || (result >= 0 && dumps > 1) {
        ExchangeBrings(script[1..], if result == -NLE_DUMP_INTR then dumps else dumps - 1);
      }
    }
  }

  /** Whether a result ends the exchange, and how many dumps are to come otherwise. */
  function Left(result: int, dumps: nat): Option<nat> {
    if result == -NLE_DUMP_INTR then Some(dumps)
    else if result < 0 || dumps <= 1 then None
    else Some(dumps - 1)
  }

  lemma OneReply(script: seq<Reply>, dumps: nat)
    requires Conclusive(script, dumps)
    ensures script[0].Refused? ==> Exchange(script, dumps) == (script[0].err, [])
    ensures script[0].Dump? ==> Brought(script) == News(script[0].objs) + Brought(script[1..])
    ensures script[0].Dump? ==> match Left(script[0].result, dumps)
      case None =>
        Exchange(script, dumps) == (if script[0].result < 0 then script[0].result else 0, News(script[0].objs))
      case Some(more) =>
        && Conclusive(script[1..], more)
        && Exchange(script, dumps)
           == (Exchange(script[1..], more).0, News(script[0].objs) + Exchange(script[1..], more).1)
  {
  }

  /** The request loop of nl_cache_resync: an interrupted dump is requested again. */
  method Pump(c: Cache, dumps: nat, script: seq<Reply>, cb: Callback, ghost objs: set<Obj>)
    returns (err: int, events: seq<Event>)
    requires c.Valid() && Conclusive(script, dumps) && Incoming(c, Brought(script))
    requires (forall o | o in c.items :: o in objs) && Objs(Brought(script)) <= objs
    requires forall o | o in objs :: o.AtRest()
    modifies c.Region(), objs
    ensures c.Valid() && Kept(objs) && err == Exchange(script, dumps).0
    ensures c.items == Run(old(c.items), Exchange(script, dumps).1)
    ensures events == RunEvents(c.ops, old(c.items), Exchange(script, dumps).1, cb)
  {
    hide Incoming, Cache.Valid, Run, RunEvents, Objs, Exchange, Brought, News;
    OneReply(script, dumps);
    events := [];
    var rest, g := script, dumps;
    ghost var used: seq<Message> := [];
    ghost var start := c.items;
    RunNothing(c.ops, start, cb);
    assert used + Exchange(script, dumps).1 == Exchange(script, dumps).1;
    while true
      invariant c.Valid() && Conclusive(rest, g) && Incoming(c, Brought(rest)) && Objs(Brought(rest)) <= objs
      invariant Exchange(script, dumps) == (Exchange(rest, g).0, used + Exchange(rest, g).1)
      invariant c.items == Run(start, used) && events == RunEvents(c.ops, start, used, cb)
      invariant Kept(objs) && forall o | o in c.items :: o in objs
      decreases |rest|
    {
      OneReply(rest, g);
      ghost var before, tail := used, Exchange(rest, g).1;
      if rest[0].Refused? {
        assert used + [] == used;
        return rest[0].err, events;
      }
      var result := rest[0].result;
      ghost var later := Brought(rest[1..]);
      events := Collect(c, News(rest[0].objs), cb, events, later, objs, start, used);
      used := used + News(rest[0].objs);
      if result != -NLE_DUMP_INTR {
        if result < 0 {
          return result, events;
        }
        if g <= 1 {
          return 0, events;
        }
        g := g - 1;
      }
      ObjsOfLater(News(rest[0].objs), later);
      rest := rest[1..];
      assert before + tail == used + Exchange(rest, g).1;
    }
  }

  /** The messages of one dump, after those used already. */
  method Collect(c: Cache, ms: seq<Message>, cb: Callback, events: seq<Event>, ghost later: seq<Message>,
                 ghost objs: set<Obj>, ghost start: seq<Obj>, ghost used: seq<Message>)
    returns (events': seq<Event>)
    requires c.Valid() && Incoming(c, ms + later)
    requires (forall o | o in c.items :: o in objs) && Objs(ms + later) <= objs && forall o | o in objs :: o.AtRest()
    requires c.items == Run(start, used) && events == RunEvents(c.ops, start, used, cb)
    modifies c.Region(), objs
    ensures c.Valid() && Incoming(c, later)
    ensures c.items == Run(start, used + ms) && events' == RunEvents(c.ops, start, used + ms, cb)
    ensures Kept(objs) && forall o | o in c.items :: o in objs
  {
    hide Incoming, Cache.Valid, Run, RunEvents, Objs;
    RunConcat(start, used, ms);
    RunEventsConcat(c.ops, start, used, ms, cb);
    var es := RunMessages(c, ms, cb, later, objs);
    events' := events + es;
  }

  lemma RunNothing(ops: ObjectOps, s: seq<Obj>, cb: Callback)
    ensures Run(s, []) == s && RunEvents(ops, s, [], cb) == []
  {
  }

  lemma ObjsOfLater(a: seq<Message>, b: seq<Message>)
    ensures Objs(b) <= Objs(a + b)
  {
    assert forall n | n in b :: n in a + b;
  }

  /**
   * nl_cache_resync over the given number of dumps. On success the cache holds what arrived, and
   * each older object that was not delivered goes with one callback. What arrived is what the
   * delivered messages alone would have built from nothing, in their order, the later objects
   * winning after a restart, iff no message met both an old object and one delivered before.
   */
  method Resync(c: Cache, dumps: nat, script: seq<Reply>, cb: Callback, ghost objs: set<Obj>)
    returns (err: int, events: seq<Event>)
    requires c.Valid() && cb != V2
    requires Conclusive(script, dumps) && Incoming(c, Brought(script))
    requires (forall o | o in c.items :: o in objs) && Objs(Brought(script)) <= objs
    requires forall o | o in objs :: o.AtRest()
    modifies c.Region(), objs
    ensures c.Valid() && err == Exchange(script, dumps).0 <= 0
    ensures forall o | o in objs :: o.AtRest() && o.handles == old(o.handles)
    ensures err < 0 ==> c.items == Run(old(c.items), Exchange(script, dumps).1)
    ensures err == 0 ==> c.items == Arrived(old(c.items), [], Exchange(script, dumps).1)
    ensures var ms := Exchange(script, dumps).1;
      err == 0 ==> (c.items == Run([], ms) <==> MeetsOne(old(c.items), [], ms))
    ensures var ms := Exchange(script, dumps).1;
      err == 0 && MeetsOne(old(c.items), [], ms) ==> Same(ViewOf(c.ops, c.items), FoldView(c.ops, EmptyView(), ms))
    ensures NoTwoIdentical(old(c.items)) ==> MeetsOne(old(c.items), [], Exchange(script, dumps).1)
    ensures var ms := Exchange(script, dumps).1;
      events == RunEvents(c.ops, old(c.items), ms, cb)
                + (if err < 0 then [] else Deletions(Remaining(old(c.items), ms), cb))
  {
    hide Cache.Valid, Conclusive, Brought, Exchange, Remaining, Run, RunEvents, Deletions, Arrived, MeetsOne;
    hide NoTwoIdentical, Same, ViewOf, FoldView;
    ghost var was, brought := c.items, Brought(script);
    NoneInside(c, brought);
    MarkAll(c);
    assert c.items == was && forall o | o in was :: o in objs && o.marked;
    err, events := Pump(c, dumps, script, cb, objs);
    ghost var ms := Exchange(script, dumps).1;
    ExchangeBrings(script, dumps);
    AfterResync(c.ops, was, ms);
    if err < 0 {
      return;
    }
    forall o | o in Arrived(was, [], ms)
      ensures !o.marked
    {
      var m :| m in ms && m.obj == o;
      assert m in brought;
    }
    var gone := Sweep(c, cb, Remaining(was, ms), Arrived(was, [], ms));
    events := events + gone;
  }

  /** What a run over the delivered messages does to the old content. */
  lemma AfterResync(ops: ObjectOps, s: seq<Obj>, ms: seq<Message>)
    requires ops.Lawful() && OfType(ops, s) && forall m | m in ms :: m.obj.ops == ops && m.act == New
    ensures Run(s, ms) == Remaining(s, ms) + Arrived(s, [], ms)
    ensures forall o | o in Remaining(s, ms) :: o in s
    ensures forall o | o in Arrived(s, [], ms) :: exists m :: m in ms && m.obj == o
    ensures Arrived(s, [], ms) == Run([], ms) <==> MeetsOne(s, [], ms)
    ensures Same(ViewOf(ops, Run([], ms)), FoldView(ops, EmptyView(), ms))
    ensures NoTwoIdentical(s) ==> MeetsOne(s, [], ms)
  {
    hide ObjectOps.Lawful, Run, Remaining, Arrived, MeetsOne, FoldView;
    assert s + [] == s;
    NewsGoBehind(s, [], ms);
    RemainAndArrive(s, [], ms);
    ArrivedAloneIff(ops, s, [], ms);
    RunIsMapFold(ops, [], ms);
    FoldRespectsSame(ops, ViewOf(ops, []), EmptyView(), ms);
    if NoTwoIdentical(s) {
      ProperMeetsOne(ops, s, [], ms);
    }
  }

  /** An observer told of deletions in front of a cache is left with what stands behind them. */
  lemma {:induction false} DeletionsReplay(ops: ObjectOps, s: seq<Obj>, t: seq<Obj>, v: View)
    requires Proper(ops, s + t) && Close(ops, v, ViewOf(ops, s + t))
    ensures Close(ops, Replay(ops, v, Deletions(s, V1)), ViewOf(ops, t))
    decreases |s|
  {
    hide Proper, Close;
    if s == [] {
      assert s + t == t;
    } else {
      var m := Message(s[0], Del);
      assert (s + t)[0] == s[0] && (s + t)[1..] == s[1..] + t;
      FrontGoes(ops, s + t, v);
      DeletionsReplay(ops, s[1..], t, Delete(ops, v, s[0].data));
    }
  }

  lemma FrontGoes(ops: ObjectOps, s: seq<Obj>, v: View)
    requires s != [] && Proper(ops, s) && Close(ops, v, ViewOf(ops, s))
    ensures Proper(ops, s[1..]) && Close(ops, Delete(ops, v, s[0].data), ViewOf(ops, s[1..]))
  {
    hide ObjectOps.SameId, ObjectOps.Diff, Stored, Proper;
    var w := ViewOf(ops, s);
    FrontStored(ops, s, s[0].data);
    forall d: Data
      ensures ViewOf(ops, s[1..])(d) == if ops.SameId(s[0].data, d) then None else w(d)
    {
      FrontStored(ops, s, d);
    }
  }

  lemma FrontStored(ops: ObjectOps, s: seq<Obj>, d: Data)
    requires s != [] && Proper(ops, s)
    ensures Proper(ops, s[1..])
    ensures Stored(ops, s[1..], d) == if ops.SameId(s[0].data, d) then None else Stored(ops, s, d)
  {
    hide ObjectOps.Lawful, ObjectOps.SameId, Position, Stored;
    FirstGoes(s, s[0]);
    assert s[0] in s;
    StepView(ops, s, Message(s[0], Del), d);
  }

  /**
   * Replaying all callbacks of a successful resynchronisation, deletions included, turns any observer of the old cache
   * into one of the new.
   */
  lemma ResyncReplays(ops: ObjectOps, s: seq<Obj>, ms: seq<Message>, v: View)
    requires Proper(ops, s) && (forall m | m in ms :: m.obj.ops == ops && m.act == New) && Close(ops, v, ViewOf(ops, s))
    ensures var events := RunEvents(ops, s, ms, V1) + Deletions(Remaining(s, ms), V1);
      Close(ops, Replay(ops, v, events), ViewOf(ops, Arrived(s, [], ms)))
  {
    hide Proper, Close, Run, RunEvents, Remaining, Arrived, Deletions, Replay;
    assert s + [] == s;
    NewsGoBehind(s, [], ms);
    RunIsMapFold(ops, s, ms);
    ReplayReconstructs(ops, s, ms, v, V1);
    var after := Replay(ops, v, RunEvents(ops, s, ms, V1));
    DeletionsReplay(ops, Remaining(s, ms), Arrived(s, [], ms), after);
    ReplayConcat(ops, v, RunEvents(ops, s, ms, V1), Deletions(Remaining(s, ms), V1));
  }

  lemma NoneInside(c: Cache, ms: seq<Message>)
    requires c.Valid() && Incoming(c, ms)
    ensures (forall o | o in c.items :: o !in Objs(ms)) && c.ops.Lawful() && OfType(c.ops, c.items)
    ensures forall m | m in ms :: m.obj.ops == c.ops
  {
    assert forall o | o in c.items :: c.Member(o);
  }
}
