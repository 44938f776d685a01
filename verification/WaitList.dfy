/** The HSR daemon's list of interfaces that wait for their slaves, driven by configuration and link events. */
module WaitList {
  import opened Wrappers
  import opened Errors

  /** SLAVEk_BUSY, SLAVEk_NOT_EXISTS and HSR_STILL_EXISTS. */
  datatype Flag = Busy1 | Busy2 | Missing1 | Missing2 | StillExists

  /** A wait list node as a value. */
  datatype Entry = Entry(hsr: string, slave1: string, slave2: string, status: set<Flag>)

  /** What a lookup of the kernel's links tells main_check, and what the kernel answers to its requests. */
  datatype Facts = Facts(setup: int, slave1: Option<int>, slave2: Option<int>, master1: bool, master2: bool,
                         hsrSlaves: Option<(int, int)>, deleteRet: int, createRet: int)

  /**
   * What the daemon is told: links, HSR links, configuration. Unheard is a change of the kernel's
   * links that no handler acts on: a link that is not Ethernet, or a name taken or given up.
   */
  datatype Event =
    | NewLink(name: string, created: bool)
    | LinkDeleted(name: string)
    | Released(name: string, created: bool)
    | GotBusy(name: string)
    | ReleasedByHsr(name: string, master: string)
    | HsrDeleted(name: string, created: bool)
    | HsrAppeared(name: string, slave: string)
    | Unheard(name: string, there: bool)
    | Configured(hsr: string, slave1: string, slave2: string, facts: Facts)
    | Deconfigured(hsr: string, interfaceDeleted: bool)

  // ----- what each event makes of the list

  /** Bits to set and to reset in a status. */
  datatype Change = Change(on: set<Flag>, off: set<Flag>)

  function Apply(status: set<Flag>, c: Change): set<Flag> { status + c.on - c.off }

  /** The change for a link that is the first slave of the node, or else its second. */
  function Marked(e: Entry, name: string, first: Change, second: Change): Entry {
    if e.slave1 == name then e.(status := Apply(e.status, first))
    else if e.slave2 == name then e.(status := Apply(e.status, second))
    else e
  }

  function MarkAll(es: seq<Entry>, name: string, first: Change, second: Change): seq<Entry> {
    seq(|es|, i requires 0 <= i < |es| => Marked(es[i], name, first, second))
  }

  const APPEARED1 := Change({}, {Missing1})
  const APPEARED2 := Change({}, {Missing2})
  const GONE1 := Change({Missing1}, {Busy1})
  const GONE2 := Change({Missing2}, {Busy2})
  const TAKEN1 := Change({Busy1}, {})
  const TAKEN2 := Change({Busy2}, {})
  const FREED1 := Change({}, {Busy1})
  const FREED2 := Change({}, {Busy2})
  const LINGERS := Change({StillExists}, {})
  const LINGERS_NOT := Change({}, {StillExists})

  /** The other slave of a node that waits for this link is there and free, and the old interface is gone. */
  predicate ReadyFor(e: Entry, name: string) {
    StillExists !in e.status
    && if e.slave1 == name then e.status !! {Busy2, Missing2} else e.slave2 == name && e.status !! {Busy1, Missing1}
  }

  /** What link_changed_released asks of a node: it does not look at the bits for missing slaves. */
  predicate FreeFor(e: Entry, name: string) {
    if e.slave1 == name then Busy2 !in e.status else e.slave2 == name && Busy1 !in e.status
  }

  predicate SlavesFree(e: Entry) { e.status !! {Busy1, Busy2, Missing1, Missing2} }

  /** What the loops over the list look for. */
  datatype Test =
    | IsReady(name: string)
    | IsFree(name: string)
    | IsHsr(hsr: string)
    | IsFreeHsr(hsr: string)
    | HasFreeSlaves
  {
    predicate Holds(e: Entry) {
      match this
      case IsReady(name) => ReadyFor(e, name)
      case IsFree(name) => FreeFor(e, name)
      case IsHsr(hsr) => e.hsr == hsr
      case IsFreeHsr(hsr) => e.hsr == hsr && SlavesFree(e)
      case HasFreeSlaves => SlavesFree(e)
    }
  }

  /** The index of the first entry that passes, or the length. */
  function First(es: seq<Entry>, t: Test): (k: nat)
    ensures k <= |es| && (k < |es| ==> t.Holds(es[k])) && forall j :: 0 <= j < k ==> !t.Holds(es[j])
  {
    if es == [] || t.Holds(es[0]) then 0 else 1 + First(es[1..], t)
  }

  lemma {:induction false} FirstIs(es: seq<Entry>, t: Test, k: nat)
    requires k <= |es| && (k < |es| ==> t.Holds(es[k])) && forall j :: 0 <= j < k ==> !t.Holds(es[j])
    ensures First(es, t) == k
  {
    if k > 0 {
      FirstIs(es[1..], t, k - 1);
    }
  }

  function Drop<T>(s: seq<T>, k: nat): seq<T> {
    if k < |s| then s[..k] + s[k + 1..] else s
  }

  /** HSR_STILL_EXISTS set in every node of the master. */
  function Linger(es: seq<Entry>, master: string): seq<Entry> {
    seq(|es|, i requires 0 <= i < |es| =>
      if es[i].hsr == master then es[i].(status := Apply(es[i].status, LINGERS)) else es[i])
  }

  function Cleared(e: Entry, hsr: string): Entry {
    if e.hsr == hsr then e.(status := Apply(e.status, LINGERS_NOT)) else e
  }

  /** HSR_STILL_EXISTS reset in the nodes of the interface up to index k. */
  function EndLinger(es: seq<Entry>, hsr: string, k: nat): seq<Entry> {
    seq(|es|, i requires 0 <= i < |es| => if i <= k then Cleared(es[i], hsr) else es[i])
  }

  /** The index of the node that a link event takes off the list, or one past the end. */
  function TakenBy(es: seq<Entry>, ev: Event): nat {
    match ev
    case NewLink(name, true) => First(es, IsReady(name))
    case Released(name, true) =>
      var k := First(es, IsFree(name));
      if k < |es| && StillExists !in es[k].status then k else |es|
    case HsrDeleted(name, true) =>
      var k := First(es, IsFreeHsr(name));
      if k < |es| then k else First(es, HasFreeSlaves)
    case _ => |es|
  }

  /** delete_hsr_interface: a link that is already gone is no failure. */
  function Deleted(ret: int): int {
    if ret < 0 && ret != -NLE_OBJ_NOTFOUND then ret else 0
  }

  /** The existing interface and the wanted slaves: None when it must be deleted first, else the busy bits. */
  function Conflict(f: Facts): Option<set<Flag>>
    requires f.slave1.Some? && f.slave2.Some? && f.hsrSlaves.Some?
  {
    var (a, b) := f.hsrSlaves.value;
    var uses1, uses2 := f.slave1.value in {a, b}, f.slave2.value in {a, b};
    if {f.slave1.value, f.slave2.value} == {a, b} then None
    else if uses1 then (if f.master2 then Some({Busy2}) else None)
    else if uses2 then (if f.master1 then Some({Busy1}) else None)
    else if f.master1 && f.master2 then Some({Busy1, Busy2})
    else if f.master1 || f.master2 then Some({})
    else None
  }

  function BusyBits(f: Facts): set<Flag> {
    (if f.slave1.Some? && f.master1 then {Busy1} else {}) + (if f.slave2.Some? && f.master2 then {Busy2} else {})
  }

  function MissingBits(f: Facts): set<Flag> {
    (if f.slave1.None? then {Missing1} else {}) + (if f.slave2.None? then {Missing2} else {})
  }

  /** main_check: the status the node is queued with, if it is, and the returned value. */
  function Queued(f: Facts, empty: bool): (Option<set<Flag>>, int) {
    if f.slave1.None? || f.slave2.None? then (Some(MissingBits(f) + BusyBits(f)), 0)
    else if f.hsrSlaves.Some? then
      var busy := Conflict(f);
      if busy.Some? then (busy, 0)
      else if Deleted(f.deleteRet) < 0 then (None, Deleted(f.deleteRet))
      else (Some({}), 0)
    else if !f.master1 && !f.master2 && empty then (None, if f.createRet < 0 then f.createRet else 0)
    else (Some(BusyBits(f)), 0)
  }

  function Forget(es: seq<Entry>, hsr: string): seq<Entry> {
    Drop(es, First(es, IsHsr(hsr)))
  }

  /** initial_check: the new list and the returned value. */
  function Check(es: seq<Entry>, hsr: string, slave1: string, slave2: string, f: Facts): (seq<Entry>, int) {
    if f.setup < 0 then (es, f.setup)
    else
      var rest := Forget(es, hsr);
      var (status, ret) := Queued(f, rest == []);
      (if status.Some? then rest + [Entry(hsr, slave1, slave2, status.value)] else rest, ret)
  }

  /** The list after an event. */
  function Step(es: seq<Entry>, ev: Event): seq<Entry> {
    match ev
    case NewLink(name, _) => MarkAll(Drop(es, TakenBy(es, ev)), name, APPEARED1, APPEARED2)
    case LinkDeleted(name) => MarkAll(es, name, GONE1, GONE2)
    case Released(name, _) =>
      if First(es, IsFree(name)) < |es| then Drop(es, TakenBy(es, ev)) else MarkAll(es, name, FREED1, FREED2)
    case GotBusy(name) => MarkAll(es, name, TAKEN1, TAKEN2)
    case ReleasedByHsr(name, master) => MarkAll(Linger(es, master), name, FREED1, FREED2)
    case HsrAppeared(_, slave) => MarkAll(es, slave, TAKEN1, TAKEN2)
    case Unheard(_, _) => es
    case HsrDeleted(name, _) =>
      Drop(EndLinger(es, name, First(es, IsFreeHsr(name))), TakenBy(es, ev))
    case Configured(hsr, slave1, slave2, facts) => Check(es, hsr, slave1, slave2, facts).0
    case Deconfigured(hsr, interfaceDeleted) => if interfaceDeleted then es else Forget(es, hsr)
  }

  // ----- what holds over every run

  /** The links that exist after an event, of any kind. */
  function Links(present: set<string>, ev: Event): set<string> {
    match ev
    case NewLink(name, _) => present + {name}
    case HsrAppeared(name, _) => present + {name}
    case LinkDeleted(name) => present - {name}
    case HsrDeleted(name, _) => present - {name}
    case Unheard(name, there) => if there then present + {name} else present - {name}
    case _ => present
  }

  /** Which events make a link exist, or cease to. */
  lemma LinksTell(present: set<string>, ev: Event, name: string)
    ensures name in Links(present, ev) <==>
      match ev
      case NewLink(n, _) => name in present || name == n
      case HsrAppeared(n, _) => name in present || name == n
      case LinkDeleted(n) => name in present && name != n
      case HsrDeleted(n, _) => name in present && name != n
      case Unheard(n, there) => if name == n then there else name in present
      case _ => name in present
  {
  }

  /** The links that come or go with an event whose handler does not touch the bits for missing slaves. */
  function Silent(present: set<string>, ev: Event): set<string> {
    if ev.NewLink? || ev.LinkDeleted? then {} else Difference(present, Links(present, ev))
  }

  function Difference(p: set<string>, q: set<string>): set<string> { (p - q) + (q - p) }

  /** No node waits for any of these links. */
  predicate Unawaited(es: seq<Entry>, names: set<string>) {
    forall i :: 0 <= i < |es| ==> es[i].slave1 !in names && es[i].slave2 !in names
  }

  /** Slave names differ, as the configuration schema demands, and a lookup agrees with the link events seen. */
  predicate Agrees(present: set<string>, ev: Event) {
    ev.Configured? && ev.facts.setup >= 0 ==>
      && ev.slave1 != ev.slave2
      && (ev.facts.slave1.Some? <==> ev.slave1 in present)
      && (ev.facts.slave2.Some? <==> ev.slave2 in present)
  }

  /** The bits for missing slaves tell exactly which slaves are absent. */
  predicate Accurate(e: Entry, present: set<string>) {
    e.slave1 != e.slave2
    && (Missing1 in e.status <==> e.slave1 !in present)
    && (Missing2 in e.status <==> e.slave2 !in present)
  }

  predicate AllAccurate(es: seq<Entry>, present: set<string>) {
    forall i :: 0 <= i < |es| ==> Accurate(es[i], present)
  }

  /** At most one node per interface. */
  predicate Unique(es: seq<Entry>) {
    forall i, j :: 0 <= i < j < |es| ==> es[i].hsr != es[j].hsr
  }

  predicate Tidy(es: seq<Entry>, present: set<string>) { Unique(es) && AllAccurate(es, present) }

  /** Who waits, without the status bits. */
  function Names(es: seq<Entry>): seq<(string, string, string)> {
    seq(|es|, i requires 0 <= i < |es| => (es[i].hsr, es[i].slave1, es[i].slave2))
  }

  lemma NamesOfMarked(es: seq<Entry>, name: string, first: Change, second: Change)
    ensures Names(MarkAll(es, name, first, second)) == Names(es)
  {
  }

  lemma NamesOfDrop(es: seq<Entry>, k: nat)
    ensures Names(Drop(es, k)) == Drop(Names(es), k)
  {
  }

  predicate LinkEvent(ev: Event) { !ev.Configured? && !ev.Deconfigured? }

  /** A link event takes at most one node off the list, and the others keep their order. */
  lemma LinkEventsKeepOrder(es: seq<Entry>, ev: Event)
    requires LinkEvent(ev)
    ensures Names(Step(es, ev)) == Drop(Names(es), TakenBy(es, ev))
  {
    NamesOfDrop(es, TakenBy(es, ev));
    match ev
    case NewLink(name, _) => NamesOfMarked(Drop(es, TakenBy(es, ev)), name, APPEARED1, APPEARED2);
    case HsrDeleted(name, _) =>
      var marked := EndLinger(es, name, First(es, IsFreeHsr(name)));
      NamesOfDrop(marked, TakenBy(es, ev));
      assert Names(marked) == Names(es);
    case ReleasedByHsr(name, master) =>
      NamesOfMarked(Linger(es, master), name, FREED1, FREED2);
      assert Names(Linger(es, master)) == Names(es);
    case LinkDeleted(name) => NamesOfMarked(es, name, GONE1, GONE2);
    case GotBusy(name) => NamesOfMarked(es, name, TAKEN1, TAKEN2);
    case Released(name, _) => NamesOfMarked(es, name, FREED1, FREED2);
    case HsrAppeared(_, slave) => NamesOfMarked(es, slave, TAKEN1, TAKEN2);
    case Unheard(_, _) =>
  }

  lemma UniqueByNames(es: seq<Entry>, k: nat, es': seq<Entry>)
    requires Unique(es) && Names(es') == Drop(Names(es), k)
    ensures Unique(es')
  {
    forall i, j | 0 <= i < j < |es'| ensures es'[i].hsr != es'[j].hsr {
      var i', j' := if k < |es| && i >= k then i + 1 else i, if k < |es| && j >= k then j + 1 else j;
      assert Names(es')[i].0 == es[i'].hsr && Names(es')[j].0 == es[j'].hsr;
    }
  }

  lemma DropAccurate(es: seq<Entry>, k: nat, present: set<string>)
    requires AllAccurate(es, present)
    ensures AllAccurate(Drop(es, k), present)
  {
  }

  /** Changes that do not touch the bits for missing slaves. */
  predicate Neutral(c: Change) { {Missing1, Missing2} !! c.on + c.off }

  lemma NeutralAccurate(es: seq<Entry>, name: string, first: Change, second: Change, present: set<string>)
    requires AllAccurate(es, present) && Neutral(first) && Neutral(second)
    ensures AllAccurate(MarkAll(es, name, first, second), present)
  {
  }

  /** A link event keeps the bits exact with respect to the links, as far as its handler is told of them. */
  lemma {:induction false} LinkEventKeepsAccurate(es: seq<Entry>, present: set<string>, ev: Event)
    requires AllAccurate(es, present) && LinkEvent(ev)
    ensures AllAccurate(Step(es, ev), if ev.NewLink? || ev.LinkDeleted? then Links(present, ev) else present)
  {
    hide TakenBy, First, Drop;
    DropAccurate(es, TakenBy(es, ev), present);
    match ev
    case HsrDeleted(name, _) =>
      var marked := EndLinger(es, name, First(es, IsFreeHsr(name)));
      assert AllAccurate(marked, present);
      DropAccurate(marked, TakenBy(es, ev), present);
    case ReleasedByHsr(name, master) =>
      assert AllAccurate(Linger(es, master), present);
      NeutralAccurate(Linger(es, master), name, FREED1, FREED2, present);
    case HsrAppeared(_, slave) => NeutralAccurate(es, slave, TAKEN1, TAKEN2, present);
    case NewLink(name, _) =>
    case LinkDeleted(name) =>
    case GotBusy(name) =>
    case Released(name, _) =>
    case Unheard(_, _) =>
  }

  lemma CheckKeepsAccurate(es: seq<Entry>, present: set<string>, hsr: string, slave1: string, slave2: string, f: Facts)
    requires AllAccurate(es, present) && Agrees(present, Configured(hsr, slave1, slave2, f))
    ensures AllAccurate(Check(es, hsr, slave1, slave2, f).0, present)
  {
    hide First;
    if f.setup >= 0 {
      DropAccurate(es, First(es, IsHsr(hsr)), present);
      var status := Queued(f, Forget(es, hsr) == []).0;
      if status.Some? {
        QueuedBits(f, Forget(es, hsr) == []);
        assert Accurate(Entry(hsr, slave1, slave2, status.value), present);
      }
    }
  }

  /** Bits exact for some links are exact for others iff no node waits for a link in which they differ. */
  lemma AccurateForOthersIff(es: seq<Entry>, p: set<string>, q: set<string>)
    requires AllAccurate(es, p)
    ensures AllAccurate(es, q) <==> Unawaited(es, Difference(p, q))
  {
    forall i | 0 <= i < |es|
      ensures Accurate(es[i], q) <==> es[i].slave1 !in Difference(p, q) && es[i].slave2 !in Difference(p, q)
    {
      assert Accurate(es[i], p);
    }
    if AllAccurate(es, q) {
      assert forall i :: 0 <= i < |es| ==> Accurate(es[i], q);
    }
  }

  /**
   * The bits for missing slaves stay exact over an event iff no node left on the list waits for a
   * link that comes or goes without new_link or link_deleted.
   */
  lemma StepKeepsAccurateIff(es: seq<Entry>, present: set<string>, ev: Event)
    requires AllAccurate(es, present) && Agrees(present, ev)
    ensures AllAccurate(Step(es, ev), Links(present, ev)) <==> Unawaited(Step(es, ev), Silent(present, ev))
  {
    hide AllAccurate, Difference;
    match ev {
      case Configured(hsr, slave1, slave2, f) => CheckKeepsAccurate(es, present, hsr, slave1, slave2, f);
      case Deconfigured(hsr, _) => DropAccurate(es, First(es, IsHsr(hsr)), present);
      case _ => LinkEventKeepsAccurate(es, present, ev);
    }
    if !ev.NewLink? && !ev.LinkDeleted? {
      AccurateForOthersIff(Step(es, ev), present, Links(present, ev));
    }
  }

  lemma ForgetKeepsUnique(es: seq<Entry>, hsr: string)
    requires Unique(es)
    ensures Unique(Forget(es, hsr)) && forall i :: 0 <= i < |Forget(es, hsr)| ==> Forget(es, hsr)[i].hsr != hsr
  {
    var k := First(es, IsHsr(hsr));
    NamesOfDrop(es, k);
    UniqueByNames(es, k, Forget(es, hsr));
  }

  /** Every event keeps at most one node per interface. */
  lemma StepKeepsUnique(es: seq<Entry>, ev: Event)
    requires Unique(es)
    ensures Unique(Step(es, ev))
  {
    if LinkEvent(ev) {
      hide Step, TakenBy;
      LinkEventsKeepOrder(es, ev);
      UniqueByNames(es, TakenBy(es, ev), Step(es, ev));
    } else {
      hide Forget;
      ForgetKeepsUnique(es, ev.hsr);
    }
  }

  /** The node is queued with exact bits for missing slaves. */
  lemma QueuedBits(f: Facts, empty: bool)
    requires Queued(f, empty).0.Some?
    ensures var status := Queued(f, empty).0.value;
      (Missing1 in status <==> f.slave1.None?) && (Missing2 in status <==> f.slave2.None?) && StillExists !in status
  {
  }

  /** The interface exists over the two wanted slaves, in any order. */
  predicate SameSlaves(f: Facts) {
    && f.slave1.Some? && f.slave2.Some? && f.hsrSlaves.Some?
    && ((f.slave1.value == f.hsrSlaves.value.0 && f.slave2.value == f.hsrSlaves.value.1)
        || (f.slave1.value == f.hsrSlaves.value.1 && f.slave2.value == f.hsrSlaves.value.0))
  }

  predicate UsedNow(f: Facts, slave: Option<int>) {
    slave.Some? && f.hsrSlaves.Some? && (slave.value == f.hsrSlaves.value.0 || slave.value == f.hsrSlaves.value.1)
  }

  /**
   * An interface that exists over other slaves than wanted gives way if the slaves it lacks are free; over the wanted
   * ones it always does.
   */
  predicate DeletesOld(f: Facts) {
    && f.slave1.Some? && f.slave2.Some? && f.hsrSlaves.Some?
    && (SameSlaves(f)
        || if UsedNow(f, f.slave1) then !f.master2
           else !f.master1 && (UsedNow(f, f.slave2) || !f.master2))
  }

  /** When a node is not queued, what is returned, and what its busy bits are. */
  lemma QueuedTells(f: Facts, empty: bool)
    ensures var (status, ret) := Queued(f, empty);
      var there := f.slave1.Some? && f.slave2.Some? && f.hsrSlaves.Some?;
      var refused := DeletesOld(f) && f.deleteRet < 0 && f.deleteRet != -12;
      var made := f.slave1.Some? && f.slave2.Some? && f.hsrSlaves.None? && !f.master1 && !f.master2 && empty;
      && (status.None? <==> refused || made)
      && ret == (if refused then f.deleteRet else if made && f.createRet < 0 then f.createRet else 0)
      && (status.Some? ==>
            && (Busy1 in status.value <==>
                  && f.slave1.Some? && f.master1
                  && (there ==> !UsedNow(f, f.slave1) && (UsedNow(f, f.slave2) || f.master2)))
            && (Busy2 in status.value <==>
                  && f.slave2.Some? && f.master2
                  && (there ==> if UsedNow(f, f.slave1) then !SameSlaves(f) else !UsedNow(f, f.slave2) && f.master1)))
  {
    if f.slave1.Some? && f.slave2.Some? && f.hsrSlaves.Some? {
      var (a, b) := f.hsrSlaves.value;
      var x, y := f.slave1.value, f.slave2.value;
      SamePair(x, y, a, b);
    }
  }

  lemma SamePair(x: int, y: int, a: int, b: int)
    ensures {x, y} == {a, b} <==> (x == a && y == b) || (x == b && y == a)
  {
    assert x in {x, y} && y in {x, y} && a in {a, b} && b in {a, b};
  }

  /** A configuration takes the interface's old node off the list, keeps the order of the others, queues at the end. */
  lemma ConfiguredTells(es: seq<Entry>, hsr: string, slave1: string, slave2: string, f: Facts, k: nat)
    requires k <= |es| && (k < |es| ==> es[k].hsr == hsr) && forall j :: 0 <= j < k ==> es[j].hsr != hsr
    ensures var rest := if k < |es| then es[..k] + es[k + 1..] else es;
      var status := Queued(f, rest == []).0;
      Step(es, Configured(hsr, slave1, slave2, f)) ==
        if f.setup < 0 then es
        else rest + if status.Some? then [Entry(hsr, slave1, slave2, status.value)] else []
    ensures Step(es, Deconfigured(hsr, false)) == (if k < |es| then es[..k] + es[k + 1..] else es)
    ensures Step(es, Deconfigured(hsr, true)) == es
  {
    hide Queued, First;
    FirstIs(es, IsHsr(hsr), k);
  }

  // ----- what each link event does to each node

  /** Where the node at index i stands after the event, if it stays. */
  function Moved(es: seq<Entry>, ev: Event, i: nat): int {
    if TakenBy(es, ev) < i then i - 1 else i
  }

  /** The node keeps its names, and of its bits the ones not named here. */
  predicate KeepsBut(e: Entry, e': Entry, flags: set<Flag>) {
    && e'.hsr == e.hsr && e'.slave1 == e.slave1 && e'.slave2 == e.slave2
    && forall flag: Flag :: flag !in flags ==> (flag in e'.status <==> flag in e.status)
  }

  /** What becomes of a node that stays. */
  function Kept(es: seq<Entry>, ev: Event, i: nat): Entry
    requires i < |es|
  {
    match ev
    case NewLink(name, _) => Marked(es[i], name, APPEARED1, APPEARED2)
    case LinkDeleted(name) => Marked(es[i], name, GONE1, GONE2)
    case Released(name, _) => if First(es, IsFree(name)) < |es| then es[i] else Marked(es[i], name, FREED1, FREED2)
    case GotBusy(name) => Marked(es[i], name, TAKEN1, TAKEN2)
    case HsrAppeared(_, name) => Marked(es[i], name, TAKEN1, TAKEN2)
    case ReleasedByHsr(name, master) => Marked(Linger(es, master)[i], name, FREED1, FREED2)
    case HsrDeleted(name, _) => if i <= First(es, IsFreeHsr(name)) then Cleared(es[i], name) else es[i]
    case _ => es[i]
  }

  lemma StepKeeps(es: seq<Entry>, ev: Event, i: nat)
    requires LinkEvent(ev) && i < |es| && i != TakenBy(es, ev)
    ensures 0 <= Moved(es, ev, i) < |Step(es, ev)| && Step(es, ev)[Moved(es, ev, i)] == Kept(es, ev, i)
  {
    hide TakenBy, Marked, Cleared, Apply, First;
    LinkEventsKeepOrder(es, ev);
    assert |Names(Step(es, ev))| == |Step(es, ev)| && |Names(es)| == |es|;
  }

  /** Bit by bit, what a new link does to a node that stays on the list. */
  lemma NewLinkTells(es: seq<Entry>, ev: Event, i: nat)
    requires ev.NewLink? && i < |es| && i != TakenBy(es, ev)
    ensures 0 <= Moved(es, ev, i) < |Step(es, ev)|
    ensures var e, e' := es[i], Step(es, ev)[Moved(es, ev, i)];
      && KeepsBut(e, e', {Missing1, Missing2})
      && (Missing1 in e'.status <==> Missing1 in e.status && e.slave1 != ev.name)
      && (Missing2 in e'.status <==> Missing2 in e.status && (e.slave1 == ev.name || e.slave2 != ev.name))
  {
    StepKeeps(es, ev, i);
    hide Step, TakenBy;
  }

  /** What a deleted link does. */
  lemma LinkDeletedTells(es: seq<Entry>, ev: Event, i: nat)
    requires ev.LinkDeleted? && i < |es|
    ensures |Step(es, ev)| == |es|
    ensures var e, e' := es[i], Step(es, ev)[i];
      && KeepsBut(e, e', {Missing1, Missing2, Busy1, Busy2})
      && (Missing1 in e'.status <==> Missing1 in e.status || e.slave1 == ev.name)
      && (Missing2 in e'.status <==> Missing2 in e.status || (e.slave1 != ev.name && e.slave2 == ev.name))
      && GetsFree(e, e', ev.name)
  {
    StepKeeps(es, ev, i);
    assert |Step(es, ev)| == |es|;
    hide Step;
  }

  /** What being taken does. */
  lemma BusyTells(es: seq<Entry>, ev: Event, i: nat)
    requires (ev.GotBusy? || ev.HsrAppeared?) && i < |es|
    ensures |Step(es, ev)| == |es|
    ensures var e, e', name := es[i], Step(es, ev)[i], if ev.GotBusy? then ev.name else ev.slave;
      && KeepsBut(e, e', {Busy1, Busy2})
      && (Busy1 in e'.status <==> Busy1 in e.status || e.slave1 == name)
      && (Busy2 in e'.status <==> Busy2 in e.status || (e.slave1 != name && e.slave2 == name))
  {
    StepKeeps(es, ev, i);
    assert |Step(es, ev)| == |es|;
    hide Step;
  }

  /** What being released does: something only when no node waits for the link whose other slave is not busy. */
  lemma ReleasedTells(es: seq<Entry>, ev: Event, i: nat)
    requires ev.Released? && i < |es| && i != TakenBy(es, ev)
    ensures 0 <= Moved(es, ev, i) < |Step(es, ev)|
    ensures var e, e' := es[i], Step(es, ev)[Moved(es, ev, i)];
      if exists j :: 0 <= j < |es| && FreeFor(es[j], ev.name) then e' == e
      else KeepsBut(e, e', {Busy1, Busy2}) && GetsFree(e, e', ev.name)
  {
    StepKeeps(es, ev, i);
    hide Step, TakenBy;
    var k := First(es, IsFree(ev.name));
    assert forall j :: 0 <= j < k ==> !IsFree(ev.name).Holds(es[j]);
    assert k < |es| ==> IsFree(ev.name).Holds(es[k]);
  }

  /** What happens to the nodes of an HSR link that is about to go. */
  lemma ReleasedByHsrTells(es: seq<Entry>, ev: Event, i: nat)
    requires ev.ReleasedByHsr? && i < |es|
    ensures |Step(es, ev)| == |es|
    ensures var e, e' := es[i], Step(es, ev)[i];
      && KeepsBut(e, e', {Busy1, Busy2, StillExists}) && GetsFree(e, e', ev.name)
      && (StillExists in e'.status <==> StillExists in e.status || e.hsr == ev.master)
  {
    StepKeeps(es, ev, i);
    assert |Step(es, ev)| == |es|;
    hide Step;
  }

  /** And to those of one that went: up to the first with nothing amiss they no longer wait for it. */
  lemma HsrDeletedTells(es: seq<Entry>, ev: Event, i: nat)
    requires ev.HsrDeleted? && i < |es| && i != TakenBy(es, ev)
    ensures 0 <= Moved(es, ev, i) < |Step(es, ev)|
    ensures var e, e' := es[i], Step(es, ev)[Moved(es, ev, i)];
      && KeepsBut(e, e', {StillExists})
      && var passed := exists j :: 0 <= j < i && es[j].hsr == ev.name && NothingAmiss(es[j]);
         (StillExists in e'.status <==> StillExists in e.status && (e.hsr != ev.name || passed))
  {
    StepKeeps(es, ev, i);
    hide Step, TakenBy;
    var k := First(es, IsFreeHsr(ev.name));
    assert forall j :: 0 <= j < k ==> !IsFreeHsr(ev.name).Holds(es[j]);
    assert k < |es| ==> IsFreeHsr(ev.name).Holds(es[k]);
  }

  /** The link is no longer busy as a slave of this node. */
  predicate GetsFree(e: Entry, e': Entry, name: string) {
    && (Busy1 in e'.status <==> Busy1 in e.status && e.slave1 != name)
    && (Busy2 in e'.status <==> Busy2 in e.status && (e.slave1 == name || e.slave2 != name))
  }

  /** A new link takes the first node that waits for it and whose other slave exists and is free. */
  lemma NewLinkTakes(es: seq<Entry>, name: string, j: nat)
    requires j < |es| && j <= TakenBy(es, NewLink(name, true))
    ensures TakenBy(es, NewLink(name, true)) <= |es|
    ensures j == TakenBy(es, NewLink(name, true)) <==>
      && StillExists !in es[j].status
      && if es[j].slave1 == name then Busy2 !in es[j].status && Missing2 !in es[j].status
         else es[j].slave2 == name && Busy1 !in es[j].status && Missing1 !in es[j].status
  {
    assert j < First(es, IsReady(name)) ==> !IsReady(name).Holds(es[j]);
  }

  /**
   * A released link finds the first node that waits for it and whose other slave is not busy, and takes it unless the
   * old interface still exists.
   */
  lemma ReleasedTakes(es: seq<Entry>, name: string, k: nat)
    requires k < |es| && (if es[k].slave1 == name then Busy2 !in es[k].status
                          else es[k].slave2 == name && Busy1 !in es[k].status)
    requires forall j :: 0 <= j < k ==>
      !(if es[j].slave1 == name then Busy2 !in es[j].status else es[j].slave2 == name && Busy1 !in es[j].status)
    ensures TakenBy(es, Released(name, true)) == if StillExists in es[k].status then |es| else k
  {
    hide First;
    assert forall j :: 0 <= j < k ==> !FreeFor(es[j], name);
    FirstIs(es, IsFree(name), k);
  }

  /** A deleted HSR link takes the first node of its own with nothing amiss, else the first node with nothing amiss. */
  lemma HsrDeletedTakes(es: seq<Entry>, name: string, j: nat)
    requires j < |es| && j <= TakenBy(es, HsrDeleted(name, true)) && NothingAmiss(es[j])
    ensures TakenBy(es, HsrDeleted(name, true)) <= |es|
    ensures es[j].hsr == name ==> j == TakenBy(es, HsrDeleted(name, true))
    ensures j < TakenBy(es, HsrDeleted(name, true)) ==>
      TakenBy(es, HsrDeleted(name, true)) < |es| && es[TakenBy(es, HsrDeleted(name, true))].hsr == name
  {
    hide First;
    assert IsFreeHsr(name).Holds(es[j]) <==> es[j].hsr == name;
    assert HasFreeSlaves.Holds(es[j]);
  }

  lemma HsrDeletedTakesFree(es: seq<Entry>, name: string)
    ensures var k := TakenBy(es, HsrDeleted(name, true)); k < |es| ==> NothingAmiss(es[k])
    ensures TakenBy(es, HsrDeleted(name, true)) >= |es| ==> forall j :: 0 <= j < |es| ==> !NothingAmiss(es[j])
  {
    hide First;
    if First(es, HasFreeSlaves) == |es| {
      assert forall j :: 0 <= j < |es| ==> !HasFreeSlaves.Holds(es[j]);
    }
  }

  /** No node is taken when the interface cannot be created, or by other events. */
  lemma NoneTaken(es: seq<Entry>, ev: Event)
    requires match ev
      case NewLink(_, created) => !created
      case Released(_, created) => !created
      case HsrDeleted(_, created) => !created
      case _ => true
    ensures TakenBy(es, ev) == |es|
  {
  }

  /** Both slaves exist and are free. */
  predicate NothingAmiss(e: Entry) {
    Busy1 !in e.status && Busy2 !in e.status && Missing1 !in e.status && Missing2 !in e.status
  }

  function Run(es: seq<Entry>, events: seq<Event>): seq<Entry>
    decreases |events|
  {
    if events == [] then es else Run(Step(es, events[0]), events[1..])
  }

  function LinksAfter(present: set<string>, events: seq<Event>): set<string>
    decreases |events|
  {
    if events == [] then present else LinksAfter(Links(present, events[0]), events[1..])
  }

  predicate AllAgree(present: set<string>, events: seq<Event>)
    decreases |events|
  {
    events == [] || (Agrees(present, events[0]) && AllAgree(Links(present, events[0]), events[1..]))
  }

  /** At most one node per interface, over every run. */
  lemma {:induction false} RunKeepsUnique(es: seq<Entry>, events: seq<Event>)
    requires Unique(es)
    ensures Unique(Run(es, events))
    decreases |events|
  {
    if events != [] {
      StepKeepsUnique(es, events[0]);
      RunKeepsUnique(Step(es, events[0]), events[1..]);
    }
  }

  /** The bits for missing slaves are exact at every point of a run. */
  predicate AlwaysAccurate(es: seq<Entry>, present: set<string>, events: seq<Event>)
    decreases |events|
  {
    AllAccurate(es, present)
    && (events != [] ==> AlwaysAccurate(Step(es, events[0]), Links(present, events[0]), events[1..]))
  }

  /** At no point of a run does a link come or go silently that a node then waits for. */
  predicate NeverSilent(es: seq<Entry>, present: set<string>, events: seq<Event>)
    decreases |events|
  {
    events != [] ==>
      && Unawaited(Step(es, events[0]), Silent(present, events[0]))
      && NeverSilent(Step(es, events[0]), Links(present, events[0]), events[1..])
  }

  /** Over any run whose lookups agree, the bits are exact throughout iff no awaited link comes or goes silently. */
  lemma {:induction false} RunAccurateIff(es: seq<Entry>, present: set<string>, events: seq<Event>)
    requires AllAccurate(es, present) && AllAgree(present, events)
    ensures AlwaysAccurate(es, present, events) <==> NeverSilent(es, present, events)
    decreases |events|
  {
    if events != [] {
      hide Step, Links, Silent, AllAccurate, Agrees;
      StepKeepsAccurateIff(es, present, events[0]);
      if AllAccurate(Step(es, events[0]), Links(present, events[0])) {
        RunAccurateIff(Step(es, events[0]), Links(present, events[0]), events[1..]);
      } else if AlwaysAccurate(es, present, events) {
        AccurateAtOnce(Step(es, events[0]), Links(present, events[0]), events[1..]);
      }
    }
  }

  lemma AccurateAtOnce(es: seq<Entry>, present: set<string>, events: seq<Event>)
    requires AlwaysAccurate(es, present, events)
    ensures AllAccurate(es, present)
  {
  }

  /** Links of mute kinds, HSR or not Ethernet, are never configured as slaves, and only they come or go silently. */
  predicate Apart(mute: set<string>, ev: Event) {
    match ev
    case Configured(_, slave1, slave2, _) => slave1 !in mute && slave2 !in mute
    case HsrAppeared(name, _) => name in mute
    case HsrDeleted(name, _) => name in mute
    case Unheard(name, _) => name in mute
    case _ => true
  }

  lemma StepKeepsUnawaited(es: seq<Entry>, mute: set<string>, ev: Event)
    requires Unawaited(es, mute) && Apart(mute, ev)
    ensures Unawaited(Step(es, ev), mute)
  {
    hide Queued, First;
    if LinkEvent(ev) {
      hide Step, TakenBy;
      LinkEventsKeepOrder(es, ev);
      forall i | 0 <= i < |Step(es, ev)|
        ensures Step(es, ev)[i].slave1 !in mute && Step(es, ev)[i].slave2 !in mute
      {
        var k := TakenBy(es, ev);
        var j := if k < |es| && i >= k then i + 1 else i;
        assert Names(Step(es, ev))[i] == Names(es)[j];
      }
    }
  }

  /** So as long as no HSR or foreign link is a slave, every run keeps unique nodes and exact bits. */
  lemma {:induction false} RunKeepsTidy(es: seq<Entry>, present: set<string>, events: seq<Event>, mute: set<string>)
    requires Tidy(es, present) && AllAgree(present, events)
    requires Unawaited(es, mute) && forall ev | ev in events :: Apart(mute, ev)
    ensures Tidy(Run(es, events), LinksAfter(present, events))
    decreases |events|
  {
    if events != [] {
      var ev := events[0];
      StepKeepsUnique(es, ev);
      StepKeepsUnawaited(es, mute, ev);
      assert Silent(present, ev) <= mute;
      StepKeepsAccurateIff(es, present, ev);
      hide Step, Links, Silent, AllAccurate, Agrees, Unawaited, Apart;
      RunKeepsTidy(Step(es, ev), Links(present, ev), events[1..], mute);
    }
  }

  /** The deletion of an HSR link that is itself a slave goes unnoticed: its node stays without the bit. */
  lemma HsrSlaveGoesUnnoticed()
    ensures var facts := Facts(0, Some(1), Some(2), true, false, None, 0, 0);
      var events := [Configured("hsr0", "hsr1", "eth0", facts), HsrDeleted("hsr1", false)];
      && AllAgree({"hsr1", "eth0"}, events) && LinksAfter({"hsr1", "eth0"}, events) == {"eth0"}
      && Run([], events) == [Entry("hsr0", "hsr1", "eth0", {Busy1})]
      && !AllAccurate(Run([], events), {"eth0"})
  {
    var first := Configured("hsr0", "hsr1", "eth0", Facts(0, Some(1), Some(2), true, false, None, 0, 0));
    var second := HsrDeleted("hsr1", false);
    QueuedOverHsrLink();
    KeptOverHsrLink();
    hide Step, Links, Agrees, Accurate;
    assert [first, second][1..] == [second] && [second][1..] == [];
    RunOfTwo([], {"hsr1", "eth0"}, first, second);
    assert [Entry("hsr0", "hsr1", "eth0", {Busy1})][0] == Entry("hsr0", "hsr1", "eth0", {Busy1});
  }

  lemma RunOfTwo(es: seq<Entry>, present: set<string>, a: Event, b: Event)
    ensures Run(es, [a, b]) == Step(Step(es, a), b)
    ensures LinksAfter(present, [a, b]) == Links(Links(present, a), b)
    ensures AllAgree(present, [a, b]) <==> Agrees(present, a) && Agrees(Links(present, a), b)
  {
    hide Step, Links, Agrees;
    assert [a, b][1..] == [b] && [b][1..] == [];
    assert Run(Step(es, a), [b]) == Run(Step(Step(es, a), b), []);
    assert LinksAfter(Links(present, a), [b]) == LinksAfter(Links(Links(present, a), b), []);
    assert AllAgree(Links(present, a), [b]) <==> Agrees(Links(present, a), b);
  }

  lemma QueuedOverHsrLink()
    ensures var ev := Configured("hsr0", "hsr1", "eth0", Facts(0, Some(1), Some(2), true, false, None, 0, 0));
      && Step([], ev) == [Entry("hsr0", "hsr1", "eth0", {Busy1})]
      && Agrees({"hsr1", "eth0"}, ev) && Links({"hsr1", "eth0"}, ev) == {"hsr1", "eth0"}
  {
    var facts := Facts(0, Some(1), Some(2), true, false, None, 0, 0);
    assert BusyBits(facts) == {Busy1} && Queued(facts, true) == (Some({Busy1}), 0);
    assert "hsr1"[0] != "eth0"[0];
  }

  lemma KeptOverHsrLink()
    ensures var node, ev := Entry("hsr0", "hsr1", "eth0", {Busy1}), HsrDeleted("hsr1", false);
      && Step([node], ev) == [node] && Agrees({"hsr1", "eth0"}, ev)
      && Links({"hsr1", "eth0"}, ev) == {"eth0"} && !Accurate(node, {"eth0"})
  {
    var node := Entry("hsr0", "hsr1", "eth0", {Busy1});
    assert "hsr0"[3] != "hsr1"[3] && "hsr1"[0] != "eth0"[0];
    assert EndLinger([node], "hsr1", 1) == [node];
    assert First([node], IsFreeHsr("hsr1")) == 1;
  }

  /** An interface created for a new link is created over slaves that exist. */
  lemma NewLinkCreatesOverPresent(es: seq<Entry>, present: set<string>, name: string)
    requires AllAccurate(es, present) && TakenBy(es, NewLink(name, true)) < |es|
    ensures var e := es[TakenBy(es, NewLink(name, true))]; e.slave1 in present + {name} && e.slave2 in present + {name}
  {
    assert Accurate(es[TakenBy(es, NewLink(name, true))], present);
  }

  /** One created when an HSR link went has both slaves iff neither is that link. */
  lemma HsrDeletedCreatesOverPresentIff(es: seq<Entry>, present: set<string>, name: string)
    requires AllAccurate(es, present) && TakenBy(es, HsrDeleted(name, true)) < |es|
    ensures var e, links := es[TakenBy(es, HsrDeleted(name, true))], Links(present, HsrDeleted(name, true));
      e.slave1 in links && e.slave2 in links <==> e.slave1 != name && e.slave2 != name
  {
    assert Accurate(es[TakenBy(es, HsrDeleted(name, true))], present);
  }

  /** The daemon tries an interface over the HSR link whose deletion it was just told. */
  lemma HsrDeletedTakesItsOwn()
    ensures var e, present := Entry("hsr0", "hsr1", "eth0", {}), {"hsr1", "eth0"};
      Tidy([e], present) && TakenBy([e], HsrDeleted("hsr1", true)) == 0
      && e.slave1 !in Links(present, HsrDeleted("hsr1", true))
  {
  }

  /**
   * link_changed_released lacks the guard of new_link: the node it takes is over slaves that
   * exist iff it is the one new_link would take for the same link.
   */
  lemma ReleasedOverPresentSlavesIff(es: seq<Entry>, present: set<string>, name: string)
    requires AllAccurate(es, present) && name in present && TakenBy(es, Released(name, true)) < |es|
    ensures var t := TakenBy(es, Released(name, true));
      && (es[t].slave1 in present && es[t].slave2 in present <==> ReadyFor(es[t], name))
      && (ReadyFor(es[t], name) <==> TakenBy(es, NewLink(name, true)) == t)
  {
    var t := TakenBy(es, Released(name, true));
    assert Accurate(es[t], present);
    forall j | 0 <= j < t
      ensures !IsReady(name).Holds(es[j])
    {
      assert !IsFree(name).Holds(es[j]);
    }
    if ReadyFor(es[t], name) {
      FirstIs(es, IsReady(name), t);
    }
  }

  /** A released link makes the daemon try an interface whose other slave was deleted. */
  lemma ReleasedIgnoresMissing()
    ensures var e, present := Entry("hsr0", "eth0", "eth1", {Busy1, Missing2}), {"eth0"};
      Tidy([e], present) && TakenBy([e], Released("eth0", true)) == 0 && e.slave2 !in present
  {
  }

  // ----- the daemon

  /** struct wait_list_node. */
  class Node {
    const hsr: string
    const slave1: string
    const slave2: string
    var status: set<Flag>

    constructor (hsr: string, slave1: string, slave2: string)
      ensures Value() == Entry(hsr, slave1, slave2, {})
    {
      this.hsr, this.slave1, this.slave2, status := hsr, slave1, slave2, {};
    }

    function Value(): Entry
      reads this
    {
      Entry(hsr, slave1, slave2, status)
    }
  }

  /** The wait list of struct hsr_module. */
  class HsrModule {
    var waiting: seq<Node>
    ghost var entries: seq<Entry>

    ghost predicate Valid()
      reads this, waiting
    {
      && |entries| == |waiting|
      && (forall i :: 0 <= i < |waiting| ==> waiting[i].Value() == entries[i])
      && (forall i, j :: 0 <= i < j < |waiting| ==> waiting[i] != waiting[j])
    }

    constructor ()
      ensures Valid() && entries == [] && fresh(waiting)
    {
      waiting, entries := [], [];
    }

    /** list_del of the node at index i. */
    method Unlink(i: nat)
      requires Valid() && i < |waiting|
      modifies this
      ensures Valid() && entries == Drop(old(entries), i) && waiting == Drop(old(waiting), i)
    {
      waiting := waiting[..i] + waiting[i + 1..];
      entries := entries[..i] + entries[i + 1..];
    }

    /** The loop that marks the slaves of a link's nodes. */
    method MarkSlaves(name: string, first: Change, second: Change)
      requires Valid()
      modifies this`entries, waiting
      ensures Valid() && entries == MarkAll(old(entries), name, first, second)
    {
      ghost var before := entries;
      for i := 0 to |waiting|
        invariant forall j :: 0 <= j < |waiting| ==>
          waiting[j].Value() == if j < i then Marked(before[j], name, first, second) else before[j]
      {
        var node := waiting[i];
        if node.slave1 == name {
          node.status := Apply(node.status, first);
        } else if node.slave2 == name {
          node.status := Apply(node.status, second);
        }
      }
      entries := MarkAll(before, name, first, second);
    }

    /** create_hif: outside the daemon's control; on success the node leaves the list. */
    method CreateHif(i: nat, created: bool)
      requires Valid() && i < |waiting|
      modifies this
      ensures Valid() && entries == if created then Drop(old(entries), i) else old(entries)
      ensures forall n | n in waiting :: n in old(waiting)
    {
      if created {
        Unlink(i);
      }
    }

    /** new_link; created is what create_hif comes to if it is called. */
    method NewLink(name: string, created: bool)
      requires Valid()
      modifies this, waiting
      ensures Valid() && entries == Step(old(entries), Event.NewLink(name, created))
    {
      ghost var before, ready := entries, IsReady(name);
      var i := 0;
      while i < |waiting|
        invariant i <= |waiting| && Valid() && entries == before && waiting == old(waiting)
        invariant forall j :: 0 <= j < i ==> !ready.Holds(before[j])
      {
        var node := waiting[i];
        assert node.Value() == before[i];
        if node.slave1 == name {
          if Busy2 !in node.status && Missing2 !in node.status && StillExists !in node.status {
            break;
          }
        } else if node.slave2 == name {
          if Busy1 !in node.status && Missing1 !in node.status && StillExists !in node.status {
            break;
          }
        }
        i := i + 1;
      }
      FirstIs(before, ready, i);
      if i < |waiting| {
        CreateHif(i, created);
      }
      assert forall j :: 0 <= j < |waiting| ==> waiting[j] in old(waiting);
      MarkSlaves(name, APPEARED1, APPEARED2);
    }

    /** link_deleted */
    method LinkDeleted(name: string)
      requires Valid()
      modifies this, waiting
      ensures Valid() && entries == Step(old(entries), Event.LinkDeleted(name))
    {
      MarkSlaves(name, GONE1, GONE2);
    }

    /** link_changed_got_busy */
    method GotBusy(name: string)
      requires Valid()
      modifies this, waiting
      ensures Valid() && entries == Step(old(entries), Event.GotBusy(name))
    {
      MarkSlaves(name, TAKEN1, TAKEN2);
    }

    /** link_new_handler for an HSR link: the slave it was made over is busy. */
    method HsrAppeared(name: string, slave: string)
      requires Valid()
      modifies this, waiting
      ensures Valid() && entries == Step(old(entries), Event.HsrAppeared(name, slave))
    {
      GotBusy(slave);
    }

    /** link_changed_released: a node found ends the search even when create_hif is not tried, and the bits stay. */
    method Released(name: string, created: bool)
      requires Valid()
      modifies this, waiting
      ensures Valid() && entries == Step(old(entries), Event.Released(name, created))
    {
      ghost var before, free := entries, IsFree(name);
      var i := 0;
      while i < |waiting|
        invariant i <= |waiting| && Valid() && entries == before && waiting == old(waiting)
        invariant forall j :: 0 <= j < i ==> !free.Holds(before[j])
      {
        var node := waiting[i];
        assert node.Value() == before[i];
        if node.slave1 == name {
          if Busy2 !in node.status {
            break;
          }
        } else if node.slave2 == name {
          if Busy1 !in node.status {
            break;
          }
        }
        i := i + 1;
      }
      FirstIs(before, free, i);
      if i == |waiting| {
        MarkSlaves(name, FREED1, FREED2);
      } else if StillExists !in waiting[i].status {
        assert waiting[i].Value() == before[i];
        CreateHif(i, created);
      } else {
        assert waiting[i].Value() == before[i];
      }
    }

    /** link_released_hsr_not */
    method ReleasedByHsr(name: string, master: string)
      requires Valid()
      modifies this`entries, waiting
      ensures Valid() && entries == Step(old(entries), Event.ReleasedByHsr(name, master))
    {
      ghost var before, after := entries, MarkAll(Linger(entries, master), name, FREED1, FREED2);
      for i := 0 to |waiting|
        invariant forall j :: 0 <= j < |waiting| ==> waiting[j].Value() == if j < i then after[j] else before[j]
      {
        var node := waiting[i];
        if node.hsr == master {
          node.status := Apply(node.status, LINGERS);
        }
        if node.slave1 == name {
          node.status := Apply(node.status, FREED1);
        } else if node.slave2 == name {
          node.status := Apply(node.status, FREED2);
        }
      }
      entries := after;
    }

    /** The first loop of hsr_link_deleted: the index of a free node of the interface, or the length. */
    method EndLingering(name: string) returns (i: nat)
      requires Valid()
      modifies this`entries, waiting
      ensures Valid() && i == First(old(entries), IsFreeHsr(name)) && entries == EndLinger(old(entries), name, i)
    {
      ghost var before, free := entries, IsFreeHsr(name);
      i := 0;
      while i < |waiting|
        invariant i <= |waiting| == |before|
        invariant forall j :: 0 <= j < |waiting| ==>
          waiting[j].Value() == if j < i then Cleared(before[j], name) else before[j]
        invariant forall j :: 0 <= j < i ==> !free.Holds(before[j])
      {
        var node := waiting[i];
        assert node.Value() == before[i];
        if node.hsr == name {
          node.status := Apply(node.status, LINGERS_NOT);
          if SlavesFree(node.Value()) {
            break;
          }
        }
        i := i + 1;
      }
      FirstIs(before, free, i);
      entries := EndLinger(before, name, i);
    }

    /** hsr_link_deleted: the interface's own node if its slaves are free, else the first node whose slaves are. */
    method HsrDeleted(name: string, created: bool)
      requires Valid()
      modifies this, waiting
      ensures Valid() && entries == Step(old(entries), Event.HsrDeleted(name, created))
    {
      ghost var before := entries;
      var own := EndLingering(name);
      ghost var marked := entries;
      if own < |waiting| {
        CreateHif(own, created);
        return;
      }
      var i := 0;
      while i < |waiting| && !SlavesFree(waiting[i].Value())
        invariant i <= |waiting| && forall j :: 0 <= j < i ==> !HasFreeSlaves.Holds(before[j])
      {
        assert waiting[i].Value() == marked[i];
        i := i + 1;
      }
      assert i < |waiting| ==> waiting[i].Value() == marked[i];
      FirstIs(before, HasFreeSlaves, i);
      if i < |waiting| {
        CreateHif(i, created);
      }
    }

    /** delete_wait_list_node */
    method DeleteNode(hsr: string) returns (found: bool)
      requires Valid()
      modifies this
      ensures Valid() && entries == Forget(old(entries), hsr)
      ensures found <==> exists e | e in old(entries) :: e.hsr == hsr
      ensures forall n | n in waiting :: n in old(waiting)
    {
      var i := 0;
      while i < |waiting|
        invariant i <= |waiting| && forall j :: 0 <= j < i ==> entries[j].hsr != hsr
      {
        assert waiting[i].Value() == entries[i];
        if waiting[i].hsr == hsr {
          FirstIs(entries, IsHsr(hsr), i);
          Unlink(i);
          return true;
        }
        i := i + 1;
      }
      FirstIs(entries, IsHsr(hsr), i);
      return false;
    }

    /**
     * The cdb handler for a removed interface: only when the kernel has none by that name is a waiting node looked
     * for.
     */
    method Deconfigure(hsr: string, interfaceDeleted: bool)
      requires Valid()
      modifies this
      ensures Valid() && entries == Step(old(entries), Event.Deconfigured(hsr, interfaceDeleted))
    {
      if !interfaceDeleted {
        var found := DeleteNode(hsr);
      }
    }

    /** list_add_tail */
    method AddTail(node: Node)
      requires Valid() && node !in waiting
      modifies this
      ensures Valid() && entries == old(entries) + [node.Value()] && waiting == old(waiting) + [node]
    {
      waiting := waiting + [node];
      entries := entries + [node.Value()];
    }

    /** main_check for a node that is not on the list yet. */
    method MainCheck(node: Node, f: Facts) returns (ret: int)
      requires Valid() && node !in waiting && node.status == {}
      modifies this, node
      ensures var (status, r) := Queued(f, old(entries) == []);
        && Valid() && ret == r
        && entries == old(entries)
             + if status.Some? then [Entry(node.hsr, node.slave1, node.slave2, status.value)] else []
    {
      if f.slave1.None? || f.slave2.None? {
        if f.slave1.None? && f.slave2.None? {
          node.status := node.status + {Missing1, Missing2};
        } else if f.slave1.None? {
          node.status := node.status + {Missing1};
          if f.master2 {
            node.status := node.status + {Busy2};
          }
        } else {
          node.status := node.status + {Missing2};
          if f.master1 {
            node.status := node.status + {Busy1};
          }
        }
        AddTail(node);
      } else if f.hsrSlaves.Some? {
        var slave1, slave2 := f.slave1.value, f.slave2.value;
        var (link1, link2) := f.hsrSlaves.value;
        if (slave1 == link1 && slave2 == link2) || (slave2 == link1 && slave1 == link2) {
          ret := Deleted(f.deleteRet);
          if ret < 0 {
            return;
          }
        } else if slave1 == link1 || slave1 == link2 {
          if !f.master2 {
            ret := Deleted(f.deleteRet);
            if ret < 0 {
              return;
            }
          } else {
            node.status := node.status + {Busy2};
          }
        } else if slave2 == link1 || slave2 == link2 {
          if !f.master1 {
            ret := Deleted(f.deleteRet);
            if ret < 0 {
              return;
            }
          } else {
            node.status := node.status + {Busy1};
          }
        } else {
          if !f.master1 && !f.master2 {
            ret := Deleted(f.deleteRet);
            if ret < 0 {
              return;
            }
          } else if f.master1 && f.master2 {
            node.status := node.status + {Busy1, Busy2};
          }
        }
        AddTail(node);
      } else {
        if !f.master1 && !f.master2 {
          if waiting == [] {
            if f.createRet < 0 {
              return f.createRet;
            }
          } else {
            AddTail(node);
          }
        } else if f.master1 && f.master2 {
          node.status := node.status + {Busy1, Busy2};
          AddTail(node);
        } else if f.master1 {
          node.status := node.status + {Busy1};
          AddTail(node);
        } else {
          node.status := node.status + {Busy2};
          AddTail(node);
        }
      }
      ghost var queued := Queued(f, old(entries) == []).0;
      assert queued.Some? ==> node.status == queued.value;
      ret := 0;
    }

    /** initial_check: a node of the same interface gives way to the new configuration. */
    method InitialCheck(hsr: string, slave1: string, slave2: string, f: Facts) returns (ret: int)
      requires Valid()
      modifies this
      ensures Valid() && ret == Check(old(entries), hsr, slave1, slave2, f).1
      ensures entries == Step(old(entries), Configured(hsr, slave1, slave2, f))
    {
      hide Queued, Forget, Apply;
      if f.setup < 0 {
        return f.setup;
      }
      var found := DeleteNode(hsr);
      var node := new Node(hsr, slave1, slave2);
      ret := MainCheck(node, f);
    }
  }
}
