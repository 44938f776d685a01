/** The request and reply protocol of a netlink socket: sequence numbers and the receive loop. */
module Receive {
  import opened Wrappers
  import opened Errors

  const U32: nat := 0x1_0000_0000

  /** Message types: the four control types, NLMSG_ERROR with its error code, and data. */
  datatype Kind = Data | Noop | Error(code: int, truncated: bool) | Done | Overrun

  /**
   * A message as recvmsgs sees it. payload is the rest of its bytes; serial tells messages apart
   * that are otherwise equal, so that what a callback with a state of its own returns is still a
   * function of the message.
   */
  datatype Message = Message(kind: Kind, seq_: nat, multi: bool, dumpIntr: bool, ack: bool,
                             payload: seq<bv8>, serial: nat)
  {
    predicate Control() { !kind.Data? }
  }

  /** What a callback returns. */
  datatype Verdict = Proceed | Skip | Stop | Fail(err: int)

  /** The callbacks of a struct nl_cb; None is one that is not set. */
  datatype Callbacks = Callbacks(
    msgIn: Option<Message -> Verdict>, seqCheck: Option<Message -> Verdict>, invalid: Option<Message -> Verdict>,
    dumpIntr: Option<Message -> Verdict>, sendAck: Option<Message -> Verdict>, finish: Option<Message -> Verdict>,
    skipped: Option<Message -> Verdict>, overrun: Option<Message -> Verdict>, ack: Option<Message -> Verdict>,
    valid: Option<Message -> Verdict>, error: Option<Message -> Verdict>)

  /** Where the loop goes after a message. */
  datatype Flow = Next | Stopped | Out(err: int)

  /** The variables of the loop that a message may change. */
  datatype State = State(expected: nat, multipart: bool, interrupted: bool)

  function Call(f: Option<Message -> Verdict>, m: Message): Verdict {
    if f.Some? then f.value(m) else Proceed
  }

  /** NL_CB_CALL for a verdict other than Proceed. */
  function Leave(v: Verdict): Flow {
    if v.Stop? then Stopped else if v.Fail? then Out(v.err) else Next
  }

  /** The sequence check; None lets the message pass. */
  function Check(autoAck: bool, cb: Callbacks, expected: nat, m: Message): Option<Flow> {
    if cb.seqCheck.Some? then
      var v := cb.seqCheck.value(m);
      if v.Proceed? then None else Some(Leave(v))
    else if autoAck && m.seq_ != expected then
      if cb.invalid.Some? then
        var v := cb.invalid.value(m);
        if v.Proceed? then None else Some(Leave(v))
      else Some(Out(-NLE_SEQ_MISMATCH))
    else None
  }

  /** The type-specific part of the loop body; multipart is already updated. */
  function Dispatch(cb: Callbacks, m: Message): Flow {
    match m.kind
    case Done => Leave(Call(cb.finish, m))
    case Noop => Leave(Call(cb.skipped, m))
    case Overrun => if cb.overrun.Some? then Leave(cb.overrun.value(m)) else Out(-NLE_MSG_OVERFLOW)
    case Error(code, truncated) =>
      if truncated then
        (if cb.invalid.Some? then Leave(cb.invalid.value(m)) else Out(-NLE_MSG_TRUNC))
      else if code != 0 then
        (if cb.error.Some? then
           match cb.error.value(m)
           case Fail(err) => if err < 0 then Out(err) else Next
           case Stop => Out(-code)
           case Skip => Next
           case Proceed => Next
         else Out(-code))
      else Leave(Call(cb.ack, m))
    case Data => Leave(Call(cb.valid, m))
  }

  /** The body of the loop of recvmsgs for one message. */
  function Handle(autoAck: bool, cb: Callbacks, s: State, m: Message): (State, Flow) {
    var first := Call(cb.msgIn, m);
    if !first.Proceed? then (s, Leave(first))
    else
      var check := Check(autoAck, cb, s.expected, m);
      if check.Some? then (s, check.value)
      else
        var s1 := s.(expected := if m.Control() then (s.expected + 1) % U32 else s.expected,
                     multipart := s.multipart || m.multi);
        var intr := if m.dumpIntr && cb.dumpIntr.Some? then cb.dumpIntr.value(m) else Proceed;
        var s2 := s1.(interrupted := s1.interrupted || (m.dumpIntr && cb.dumpIntr.None?));
        if !intr.Proceed? then (s1, Leave(intr))
        else
          var sent := if m.ack then Call(cb.sendAck, m) else Proceed;
          if !sent.Proceed? then (s2, Leave(sent))
          else (if m.kind.Done? then s2.(multipart := false) else s2, Dispatch(cb, m))
  }

  // ----- the callbacks as a table

  /** A callback: when it is due, and what becomes of the loop when it is due and not set. */
  datatype Hook = Hook(due: bool, asked: Option<Message -> Verdict>, otherwise: Flow)

  /** Everything that can end the loop at a message, in order: first what is asked about every message. */
  function Hooks(autoAck: bool, cb: Callbacks, expected: nat, m: Message): seq<Hook> {
    [
      Hook(true, cb.msgIn, Next),
      Hook(cb.seqCheck.Some?, cb.seqCheck, Next),
      Hook(cb.seqCheck.None? && autoAck && m.seq_ != expected, cb.invalid, Out(-16)),
      Hook(m.dumpIntr, cb.dumpIntr, Next),
      Hook(m.ack, cb.sendAck, Next)
    ]
  }

  /** And then what its kind calls for. */
  function HookOf(cb: Callbacks, m: Message): Hook {
    if m.kind == Done then Hook(true, cb.finish, Next)
    else if m.kind == Noop then Hook(true, cb.skipped, Next)
    else if m.kind == Overrun then Hook(true, cb.overrun, Out(-17))
    else if m.kind == Data then Hook(true, cb.valid, Next)
    else if m.kind.truncated then Hook(true, cb.invalid, Out(-18))
    else if m.kind.code == 0 then Hook(true, cb.ack, Next)
    else Hook(true, OnError(cb), Out(-m.kind.code))
  }

  /** The error callback returns an error, NL_STOP for the kernel's own error, or anything else to go on. */
  function OnError(cb: Callbacks): Option<Message -> Verdict> {
    if cb.error.None? then None
    else
      Some((m: Message) =>
        var v := cb.error.value(m);
        if v.Stop? && m.kind.Error? then Fail(-m.kind.code) else if v.Fail? && v.err < 0 then v else Proceed)
  }

  predicate Proceeds(h: Hook, m: Message) {
    !h.due || (if h.asked.None? then h.otherwise == Next else h.asked.value(m).Proceed?)
  }

  /** The first callback that is due and does not return NL_OK, or is due and not set, decides. */
  function Decide(hooks: seq<Hook>, m: Message): Flow {
    if hooks == [] then Next
    else if Proceeds(hooks[0], m) then Decide(hooks[1..], m)
    else
      match hooks[0].asked
      case None => hooks[0].otherwise
      case Some(f) => (match f(m) case Stop => Stopped case Fail(err) => Out(err) case _ => Next)
  }

  /** The first n callbacks of the table let the message pass. */
  predicate FirstProceed(hooks: seq<Hook>, n: nat, m: Message)
    requires n <= |hooks|
  {
    forall i :: 0 <= i < n ==> Proceeds(hooks[i], m)
  }

  lemma DecideAfter(hooks: seq<Hook>, i: nat, m: Message)
    requires i < |hooks|
    ensures Proceeds(hooks[i], m) ==> Decide(hooks[i..], m) == Decide(hooks[i + 1..], m)
    ensures !Proceeds(hooks[i], m) ==> Decide(hooks[i..], m) == Decide([hooks[i]], m)
  {
    assert hooks[i..][0] == hooks[i] && hooks[i..][1..] == hooks[i + 1..];
    assert [hooks[i]][0] == hooks[i];
  }

  /** The loop body follows the table. */
  lemma HandleFollowsTable(autoAck: bool, cb: Callbacks, s: State, m: Message)
    ensures Handle(autoAck, cb, s, m).1 == Decide(Hooks(autoAck, cb, s.expected, m) + [HookOf(cb, m)], m)
  {
    var hooks := Hooks(autoAck, cb, s.expected, m);
    DispatchFollowsTable(cb, m);
    EarlyDecide(hooks, HookOf(cb, m), m);
    hide Dispatch, HookOf, Decide;
    DecideAlone(hooks[0], m);
    DecideAlone(hooks[1], m);
    DecideAlone(hooks[2], m);
    DecideAlone(hooks[3], m);
    DecideAlone(hooks[4], m);
  }

  /**
   * It counts the message, notes that there is more to come and that a dump was interrupted, as soon as the number is
   * checked, and that there is no more as soon as the kind counts.
   */
  lemma HandleCounts(autoAck: bool, cb: Callbacks, s: State, m: Message)
    ensures var hooks, s' := Hooks(autoAck, cb, s.expected, m), Handle(autoAck, cb, s, m).0;
      var counted, early := FirstProceed(hooks, 3, m), FirstProceed(hooks, 5, m);
      && s'.expected == (if counted && m.kind != Data then (s.expected + 1) % 0x1_0000_0000 else s.expected)
      && s'.multipart == ((s.multipart || (counted && m.multi)) && !(early && m.kind == Done))
      && s'.interrupted == (s.interrupted || (counted && m.dumpIntr && cb.dumpIntr.None?))
  {
    hide Dispatch;
    var hooks := Hooks(autoAck, cb, s.expected, m);
    assert FirstProceed(hooks, 3, m) <==> Proceeds(hooks[0], m) && Proceeds(hooks[1], m) && Proceeds(hooks[2], m);
    assert FirstProceed(hooks, 5, m) <==>
      FirstProceed(hooks, 3, m) && Proceeds(hooks[3], m) && Proceeds(hooks[4], m);
  }

  lemma DecideAlone(h: Hook, m: Message)
    ensures Decide([h], m) ==
      if Proceeds(h, m) then Next
      else match h.asked
        case None => h.otherwise
        case Some(f) => (match f(m) case Stop => Stopped case Fail(err) => Out(err) case _ => Next)
  {
    assert [h][1..] == [];
  }

  lemma EarlyDecide(hooks: seq<Hook>, last: Hook, m: Message)
    requires |hooks| == 5
    ensures Decide(hooks + [last], m) ==
      if !Proceeds(hooks[0], m) then Decide([hooks[0]], m)
      else if !Proceeds(hooks[1], m) then Decide([hooks[1]], m)
      else if !Proceeds(hooks[2], m) then Decide([hooks[2]], m)
      else if !Proceeds(hooks[3], m) then Decide([hooks[3]], m)
      else if !Proceeds(hooks[4], m) then Decide([hooks[4]], m)
      else Decide([last], m)
  {
    hide Decide, Proceeds;
    var all := hooks + [last];
    assert all[0..] == all && all[5..] == [last];
    DecideAfter(all, 0, m);
    DecideAfter(all, 1, m);
    DecideAfter(all, 2, m);
    DecideAfter(all, 3, m);
    DecideAfter(all, 4, m);
  }

  lemma DispatchFollowsTable(cb: Callbacks, m: Message)
    ensures Dispatch(cb, m) == Decide([HookOf(cb, m)], m)
  {
    DecideAlone(HookOf(cb, m), m);
  }

  // ----- a peer that answers in order

  /** Nothing but data for this request. */
  predicate PartOf(datagram: seq<Message>, seq_: nat) {
    forall m | m in datagram :: m.kind.Data? && m.seq_ == seq_
  }

  /** Data for this request and, last, the one message that ends the reply. */
  predicate LastOf(datagram: seq<Message>, seq_: nat) {
    && datagram != []
    && PartOf(datagram[..|datagram| - 1], seq_)
    && var m := datagram[|datagram| - 1]; (m.kind.Done? || m.kind.Error?) && m.seq_ == seq_
  }

  /** One whole reply: datagrams of this request alone, ended once. */
  predicate Reply(ds: seq<seq<Message>>, seq_: nat) {
    ds != [] && if |ds| == 1 then LastOf(ds[0], seq_) else PartOf(ds[0], seq_) && Reply(ds[1..], seq_)
  }

  /**
   * What remains of the replies to n requests with consecutive sequence numbers from seq_ on, the first perhaps in
   * part.
   */
  predicate Replies(ds: seq<seq<Message>>, seq_: nat, n: nat)
    decreases ds
  {
    if n == 0 then ds == []
    else ds != [] && ((PartOf(ds[0], seq_) && Replies(ds[1..], seq_, n))
                      || (LastOf(ds[0], seq_) && Replies(ds[1..], (seq_ + 1) % U32, n - 1)))
  }

  lemma {:induction false} ReplyAppends(ds: seq<seq<Message>>, seq_: nat, n: nat, reply: seq<seq<Message>>)
    requires seq_ < U32 && Replies(ds, seq_, n) && Reply(reply, (seq_ + n) % U32)
    ensures Replies(ds + reply, seq_, n + 1)
    decreases |ds|
  {
    if n == 0 {
      assert ds + reply == reply;
      ReplyAlone(reply, seq_);
    } else {
      assert (ds + reply)[0] == ds[0] && (ds + reply)[1..] == ds[1..] + reply;
      if PartOf(ds[0], seq_) && Replies(ds[1..], seq_, n) {
        ReplyAppends(ds[1..], seq_, n, reply);
      } else {
        NextSequence(seq_, n);
        ReplyAppends(ds[1..], (seq_ + 1) % U32, n - 1, reply);
      }
    }
  }

  lemma {:induction false} ReplyAlone(reply: seq<seq<Message>>, seq_: nat)
    requires Reply(reply, seq_)
    ensures Replies(reply, seq_, 1)
    decreases |reply|
  {
    if |reply| > 1 {
      ReplyAlone(reply[1..], seq_);
    }
  }

  lemma NextSequence(seq_: nat, n: nat)
    requires seq_ < U32 && n > 0
    ensures ((seq_ + 1) % U32 + (n - 1)) % U32 == (seq_ + n) % U32
  {
  }

  /** For data the callbacks return only OK or SKIP. */
  ghost predicate PoliteToData(cb: Callbacks) {
    forall m: Message :: m.kind.Data? ==>
      forall f | f in [cb.msgIn, cb.seqCheck, cb.dumpIntr, cb.sendAck, cb.valid] ::
        Call(f, m).Proceed? || Call(f, m).Skip?
  }

  /** The two callbacks that run before the count let the message pass. */
  predicate Admits(cb: Callbacks, m: Message) { Call(cb.msgIn, m).Proceed? && Call(cb.seqCheck, m).Proceed? }

  /** Callbacks that let replies be counted. */
  ghost predicate Polite(cb: Callbacks) {
    PoliteToData(cb) && forall m: Message :: m.kind.Done? || m.kind.Error? ==> Admits(cb, m)
  }

  /** A data message of the expected reply never ends the loop and is not counted. */
  lemma DataPasses(autoAck: bool, cb: Callbacks, s: State, m: Message)
    requires PoliteToData(cb) && m.kind.Data? && m.seq_ == s.expected
    ensures Handle(autoAck, cb, s, m).1 == Next && Handle(autoAck, cb, s, m).0.expected == s.expected
  {
    var fs := [cb.msgIn, cb.seqCheck, cb.dumpIntr, cb.sendAck, cb.valid];
    assert fs[0] in fs && fs[1] in fs && fs[2] in fs && fs[3] in fs && fs[4] in fs;
  }

  /** The message that ends the expected reply is counted, whatever the loop does then. */
  lemma LastCounts(autoAck: bool, cb: Callbacks, s: State, m: Message)
    requires Polite(cb) && (m.kind.Done? || m.kind.Error?) && m.seq_ == s.expected
    ensures Handle(autoAck, cb, s, m).0.expected == (s.expected + 1) % U32
    ensures Check(autoAck, cb, s.expected, m).None?
  {
  }

  // ----- the receive loop

  /** A datagram: the state after it, how it was left, and how many of its messages were taken. */
  function Datagram(autoAck: bool, cb: Callbacks, s: State, ds: seq<Message>): (State, Flow, nat)
    decreases |ds|
  {
    if ds == [] then (s, Next, 0)
    else
      var (s1, flow) := Handle(autoAck, cb, s, ds[0]);
      if flow != Next then (s1, flow, 1)
      else
        var (s2, flow2, n) := Datagram(autoAck, cb, s1, ds[1..]);
        (s2, flow2, n + 1)
  }

  /** The value recvmsgs returns after leaving its loop. */
  function Report(flow: Flow, interrupted: bool, nrecv: nat): int {
    var err := if flow.Out? then flow.err else 0;
    if interrupted then -NLE_DUMP_INTR else if err == 0 then nrecv else err
  }

  /** What recvmsgs makes of the datagrams at hand: its result, the expected number, the datagrams left. */
  datatype Outcome = Outcome(result: int, expected: nat, left: seq<seq<Message>>)

  function Receive(autoAck: bool, cb: Callbacks, s: State, ds: seq<seq<Message>>, nrecv: nat, recvErr: int): Outcome
    decreases |ds|
  {
    if ds == [] then Outcome(recvErr, s.expected, [])
    else
      var (s1, flow, n) := Datagram(autoAck, cb, s, ds[0]);
      if flow == Next && s1.multipart then Receive(autoAck, cb, s1, ds[1..], nrecv + n, recvErr)
      else Outcome(Report(flow, s1.interrupted, nrecv + n), s1.expected, ds[1..])
  }

  /** The datagram is left because its sequence check failed with no callback to ask. */
  predicate Mismatches(autoAck: bool, cb: Callbacks, s: State, ds: seq<Message>)
    decreases |ds|
  {
    ds != []
    && (|| (Call(cb.msgIn, ds[0]).Proceed? && cb.seqCheck.None? && cb.invalid.None? && autoAck
            && ds[0].seq_ != s.expected)
        || (Handle(autoAck, cb, s, ds[0]).1 == Next
            && Mismatches(autoAck, cb, Handle(autoAck, cb, s, ds[0]).0, ds[1..])))
  }

  /** A datagram taken by recvmsgs reports -NLE_SEQ_MISMATCH. */
  predicate ReportsMismatch(autoAck: bool, cb: Callbacks, s: State, ds: seq<seq<Message>>)
    decreases |ds|
  {
    ds != []
    && (|| Mismatches(autoAck, cb, s, ds[0])
        || (var (s1, flow, n) := Datagram(autoAck, cb, s, ds[0]);
            flow == Next && s1.multipart && ReportsMismatch(autoAck, cb, s1, ds[1..])))
  }

  /** Nothing but the loop's own check makes the error code of a mismatch. */
  ghost predicate NoOtherMismatch(cb: Callbacks, ds: seq<Message>) {
    forall m | m in ds :: NotFromCallbacks(cb, m) && (m.kind.Error? ==> m.kind.code != 16)
  }

  predicate NotFromCallbacks(cb: Callbacks, m: Message) {
    && Call(cb.msgIn, m) != Fail(-16) && Call(cb.seqCheck, m) != Fail(-16) && Call(cb.invalid, m) != Fail(-16)
    && Call(cb.dumpIntr, m) != Fail(-16) && Call(cb.sendAck, m) != Fail(-16) && Call(cb.finish, m) != Fail(-16)
    && Call(cb.skipped, m) != Fail(-16) && Call(cb.overrun, m) != Fail(-16) && Call(cb.ack, m) != Fail(-16)
    && Call(cb.valid, m) != Fail(-16) && Call(cb.error, m) != Fail(-16)
  }

  /** A datagram is left with the error code of a mismatch iff it mismatches, when nothing else makes that code. */
  lemma {:induction false} MismatchesIff(autoAck: bool, cb: Callbacks, s: State, ds: seq<Message>)
    ensures Mismatches(autoAck, cb, s, ds) ==> Datagram(autoAck, cb, s, ds).1 == Out(-16)
    ensures NoOtherMismatch(cb, ds) && Datagram(autoAck, cb, s, ds).1 == Out(-16) ==> Mismatches(autoAck, cb, s, ds)
    decreases |ds|
  {
    if ds != [] {
      MismatchHere(autoAck, cb, s, ds[0]);
      hide Handle;
      assert ds[0] in ds && forall m | m in ds[1..] :: m in ds;
      MismatchesIff(autoAck, cb, Handle(autoAck, cb, s, ds[0]).0, ds[1..]);
    }
  }

  lemma MismatchHere(autoAck: bool, cb: Callbacks, s: State, m: Message)
    ensures var here := Call(cb.msgIn, m).Proceed? && cb.seqCheck.None? && cb.invalid.None? && autoAck
        && m.seq_ != s.expected;
      && (here ==> Handle(autoAck, cb, s, m).1 == Out(-16))
      && (NotFromCallbacks(cb, m) && (m.kind.Error? ==> m.kind.code != 16) ==>
            Handle(autoAck, cb, s, m).1 == Out(-16) ==> here)
  {
    DispatchMismatch(cb, m);
    hide Dispatch;
  }

  lemma DispatchMismatch(cb: Callbacks, m: Message)
    ensures NotFromCallbacks(cb, m) && (m.kind.Error? ==> m.kind.code != 16) ==> Dispatch(cb, m) != Out(-16)
  {
  }

  /** So recvmsgs returns the code iff it reports a mismatch, unless a message before reported an interrupted dump. */
  lemma {:induction false} ReportsMismatchIff(autoAck: bool, cb: Callbacks, s: State, ds: seq<seq<Message>>, nrecv: nat,
                                              recvErr: int)
    ensures var r := Receive(autoAck, cb, s, ds, nrecv, recvErr).result;
      && (ReportsMismatch(autoAck, cb, s, ds) ==> r == -16 || r == -33)
      && ((forall d | d in ds :: NoOtherMismatch(cb, d)) && recvErr != -16 && r == -16 ==>
            ReportsMismatch(autoAck, cb, s, ds))
    decreases |ds|
  {
    if ds != [] {
      MismatchesIff(autoAck, cb, s, ds[0]);
      hide Datagram, Mismatches, NoOtherMismatch;
      var (s1, flow, n) := Datagram(autoAck, cb, s, ds[0]);
      assert ds[0] in ds && forall d | d in ds[1..] :: d in ds;
      ReportsMismatchIff(autoAck, cb, s1, ds[1..], nrecv + n, recvErr);
    }
  }

  lemma {:induction false} PartIsTaken(autoAck: bool, cb: Callbacks, s: State, ds: seq<Message>)
    requires Polite(cb) && PartOf(ds, s.expected)
    ensures var (s1, flow, n) := Datagram(autoAck, cb, s, ds); s1.expected == s.expected && flow == Next
    ensures !Mismatches(autoAck, cb, s, ds)
    decreases |ds|
  {
    if ds != [] {
      DataPasses(autoAck, cb, s, ds[0]);
      PartIsTaken(autoAck, cb, Handle(autoAck, cb, s, ds[0]).0, ds[1..]);
    }
  }

  lemma {:induction false} LastIsTaken(autoAck: bool, cb: Callbacks, s: State, ds: seq<Message>)
    requires Polite(cb) && LastOf(ds, s.expected)
    ensures Datagram(autoAck, cb, s, ds).0.expected == (s.expected + 1) % U32
    ensures !Mismatches(autoAck, cb, s, ds)
    decreases |ds|
  {
    if |ds| == 1 {
      LastCounts(autoAck, cb, s, ds[0]);
      var s1 := Handle(autoAck, cb, s, ds[0]).0;
      assert Datagram(autoAck, cb, s1, ds[1..]).0 == s1;
    } else {
      assert ds[0] in ds[..|ds| - 1];
      DataPasses(autoAck, cb, s, ds[0]);
      var rest := ds[1..];
      assert rest[..|rest| - 1] == ds[..|ds| - 1][1..];
      LastIsTaken(autoAck, cb, Handle(autoAck, cb, s, ds[0]).0, rest);
    }
  }

  /** With a peer that answers in order, recvmsgs keeps count of the unfinished requests and never mismatches. */
  lemma {:induction false} ReceiveKeepsCount(autoAck: bool, cb: Callbacks, s: State, ds: seq<seq<Message>>,
                                             later: seq<seq<Message>>, nrecv: nat, recvErr: int, n: nat)
    returns (n': nat)
    requires s.expected < U32 && Polite(cb) && Replies(ds + later, s.expected, n)
    ensures !ReportsMismatch(autoAck, cb, s, ds)
    ensures var o := Receive(autoAck, cb, s, ds, nrecv, recvErr);
      && n' <= n && Replies(o.left + later, o.expected, n') && o.expected < U32
      && (o.expected + n') % U32 == (s.expected + n) % U32
    decreases |ds|
  {
    hide Handle, Polite, PartOf, LastOf, Report;
    if ds == [] {
      return n;
    }
    assert (ds + later)[0] == ds[0] && (ds + later)[1..] == ds[1..] + later;
    var (s1, flow, k) := Datagram(autoAck, cb, s, ds[0]);
    n' := n;
    if PartOf(ds[0], s.expected) && Replies(ds[1..] + later, s.expected, n) {
      PartIsTaken(autoAck, cb, s, ds[0]);
    } else {
      LastIsTaken(autoAck, cb, s, ds[0]);
      NextSequence(s.expected, n);
      n' := n - 1;
    }
    if flow == Next && s1.multipart {
      n' := ReceiveKeepsCount(autoAck, cb, s1, ds[1..], later, nrecv + k, recvErr, n');
    }
  }

  /** The part of the loop body that depends on the message type. */
  method DispatchMessage(cb: Callbacks, m: Message) returns (flow: Flow)
    ensures flow == Dispatch(cb, m)
  {
    flow := Next;
    if m.kind.Done? {
      if cb.finish.Some? {
        flow := Leave(cb.finish.value(m));
      }
    } else if m.kind.Noop? {
      if cb.skipped.Some? {
        flow := Leave(cb.skipped.value(m));
      }
    } else if m.kind.Overrun? {
      flow := if cb.overrun.Some? then Leave(cb.overrun.value(m)) else Out(-NLE_MSG_OVERFLOW);
    } else if m.kind.Error? {
      if m.kind.truncated {
        flow := if cb.invalid.Some? then Leave(cb.invalid.value(m)) else Out(-NLE_MSG_TRUNC);
      } else if m.kind.code != 0 {
        if cb.error.Some? {
          var v := cb.error.value(m);
          if v.Fail? && v.err < 0 {
            flow := Out(v.err);
          } else if v.Stop? {
            flow := Out(-m.kind.code);
          }
        } else {
          flow := Out(-m.kind.code);
        }
      } else if cb.ack.Some? {
        flow := Leave(cb.ack.value(m));
      }
    } else if cb.valid.Some? {
      flow := Leave(cb.valid.value(m));
    }
  }

  /** The sequence check: the user's, or strict ordering in auto-ack mode. */
  method CheckSequence(autoAck: bool, cb: Callbacks, expected: nat, m: Message) returns (left: Option<Flow>)
    ensures left == Check(autoAck, cb, expected, m)
  {
    if cb.seqCheck.Some? {
      var v := cb.seqCheck.value(m);
      if !v.Proceed? {
        return Some(Leave(v));
      }
    } else if autoAck {
      if m.seq_ != expected {
        if cb.invalid.Some? {
          var v := cb.invalid.value(m);
          if !v.Proceed? {
            return Some(Leave(v));
          }
        } else {
          return Some(Out(-NLE_SEQ_MISMATCH));
        }
      }
    }
    return None;
  }

  /** The body of the loop of recvmsgs, statement by statement. */
  method TakeMessage(autoAck: bool, cb: Callbacks, s: State, m: Message) returns (s': State, flow: Flow)
    ensures (s', flow) == Handle(autoAck, cb, s, m)
  {
    hide Dispatch, Check;
    s', flow := s, Next;
    if cb.msgIn.Some? {
      flow := Leave(cb.msgIn.value(m));
      if !cb.msgIn.value(m).Proceed? {
        return;
      }
    }
    var check := CheckSequence(autoAck, cb, s.expected, m);
    if check.Some? {
      flow := check.value;
      return;
    }
    if m.kind.Done? || m.kind.Error? || m.kind.Noop? || m.kind.Overrun? {
      s' := s'.(expected := (s'.expected + 1) % U32);
    }
    if m.multi {
      s' := s'.(multipart := true);
    }
    if m.dumpIntr {
      if cb.dumpIntr.Some? {
        flow := Leave(cb.dumpIntr.value(m));
        if !cb.dumpIntr.value(m).Proceed? {
          return;
        }
      } else {
        s' := s'.(interrupted := true);
      }
    }
    if m.ack {
      if cb.sendAck.Some? {
        flow := Leave(cb.sendAck.value(m));
        if !cb.sendAck.value(m).Proceed? {
          return;
        }
      }
    }
    if m.kind.Done? {
      s' := s'.(multipart := false);
    }
    flow := DispatchMessage(cb, m);
  }

  /** The loop over the messages of one datagram. */
  method TakeDatagram(autoAck: bool, cb: Callbacks, s: State, ds: seq<Message>) returns (s': State, flow: Flow, n: nat)
    ensures (s', flow, n) == Datagram(autoAck, cb, s, ds)
  {
    s', flow, n := s, Next, 0;
    while n < |ds| && flow == Next
      invariant n <= |ds|
      invariant if flow == Next
        then (var (a, b, k) := Datagram(autoAck, cb, s', ds[n..]); Datagram(autoAck, cb, s, ds) == (a, b, n + k))
        else Datagram(autoAck, cb, s, ds) == (s', flow, n)
    {
      s', flow := TakeMessage(autoAck, cb, s', ds[n]);
      n := n + 1;
    }
  }

  // ----- one whole reply

  /**
   * Callbacks that let a reply be read as it comes: none is set for errors or interrupted dumps,
   * those that run early return OK, and those for valid messages, DONE and ACK return OK or SKIP.
   */
  ghost predicate Quiet(cb: Callbacks) {
    && cb.dumpIntr.None? && cb.error.None?
    && forall m: Message :: LetsThrough(cb, m)
  }

  predicate LetsThrough(cb: Callbacks, m: Message) {
    && Admits(cb, m) && Call(cb.sendAck, m).Proceed?
    && (Call(cb.valid, m).Proceed? || Call(cb.valid, m).Skip?)
    && (Call(cb.finish, m).Proceed? || Call(cb.finish, m).Skip?)
    && (Call(cb.ack, m).Proceed? || Call(cb.ack, m).Skip?)
  }

  /** With no callback to ask, a data message with another number ends the loop in auto-ack mode, and only that does. */
  lemma {:induction false} StrictOrdering(autoAck: bool, cb: Callbacks, s: State, ds: seq<Message>)
    requires Quiet(cb) && cb.seqCheck.None? && cb.invalid.None? && forall m | m in ds :: m.kind.Data?
    ensures Datagram(autoAck, cb, s, ds).1 ==
      if autoAck && (exists m | m in ds :: m.seq_ != s.expected) then Out(-NLE_SEQ_MISMATCH) else Next
    decreases |ds|
  {
    if ds != [] {
      var m := ds[0];
      assert LetsThrough(cb, m);
      StrictOrdering(autoAck, cb, Handle(autoAck, cb, s, m).0, ds[1..]);
      assert forall k | k in ds :: k == m || k in ds[1..];
    }
  }

  predicate AnyMulti(ds: seq<Message>) { ds != [] && (ds[0].multi || AnyMulti(ds[1..])) }

  predicate AnyInterrupted(ds: seq<Message>) { ds != [] && (ds[0].dumpIntr || AnyInterrupted(ds[1..])) }

  function Total(reply: seq<seq<Message>>): nat {
    if reply == [] then 0 else |reply[0]| + Total(reply[1..])
  }

  predicate Interrupted(reply: seq<seq<Message>>) {
    reply != [] && (AnyInterrupted(reply[0]) || Interrupted(reply[1..]))
  }

  /** The message that ends a reply. */
  function EndOf(reply: seq<seq<Message>>, seq_: nat): (m: Message)
    requires Reply(reply, seq_)
    ensures m.kind.Done? || m.kind.Error?
    decreases |reply|
  {
    if |reply| == 1 then reply[0][|reply[0]| - 1] else EndOf(reply[1..], seq_)
  }

  lemma {:induction false} PartIsRead(autoAck: bool, cb: Callbacks, s: State, ds: seq<Message>)
    requires Quiet(cb) && PartOf(ds, s.expected)
    ensures Datagram(autoAck, cb, s, ds)
      == (State(s.expected, s.multipart || AnyMulti(ds), s.interrupted || AnyInterrupted(ds)), Next, |ds|)
    decreases |ds|
  {
    if ds != [] {
      var m := ds[0];
      assert LetsThrough(cb, m);
      PartIsRead(autoAck, cb, Handle(autoAck, cb, s, m).0, ds[1..]);
    }
  }

  lemma {:induction false} EndIsRead(autoAck: bool, cb: Callbacks, s: State, ds: seq<Message>)
    requires Quiet(cb) && LastOf(ds, s.expected) && (ds[|ds| - 1].kind.Done? || !ds[|ds| - 1].kind.truncated)
    ensures var (s1, flow, n) := Datagram(autoAck, cb, s, ds);
      var m := ds[|ds| - 1];
      && n == |ds| && s1.expected == (s.expected + 1) % U32 && s1.interrupted == (s.interrupted || AnyInterrupted(ds))
      && s1.multipart == (!m.kind.Done? && (s.multipart || AnyMulti(ds)))
      && flow == if m.kind.Done? || m.kind.code == 0 then Next else Out(-m.kind.code)
    decreases |ds|
  {
    assert LetsThrough(cb, ds[0]);
    if |ds| == 1 {
      assert ds[1..] == [];
      assert Datagram(autoAck, cb, Handle(autoAck, cb, s, ds[0]).0, ds[1..]).0 == Handle(autoAck, cb, s, ds[0]).0;
    } else {
      var m, rest := ds[0], ds[1..];
      assert m in ds[..|ds| - 1] && rest[..|rest| - 1] == ds[..|ds| - 1][1..];
      EndIsRead(autoAck, cb, Handle(autoAck, cb, s, m).0, rest);
    }
  }

  /**
   * A reply announced as multipart by its first datagram, and ended by DONE or an error, is read
   * to its end and no further. The result is the number of its messages or the error, unless a
   * message reported an interrupted dump.
   */
  lemma {:induction false} WholeReplyIsRead(autoAck: bool, cb: Callbacks, s: State, reply: seq<seq<Message>>,
                                            rest: seq<seq<Message>>, nrecv: nat, recvErr: int)
    requires Quiet(cb) && Reply(reply, s.expected) && (|reply| > 1 ==> s.multipart || AnyMulti(reply[0]))
    requires var m := EndOf(reply, s.expected); m.kind.Done? || (m.kind.code != 0 && !m.kind.truncated)
    ensures var m := EndOf(reply, s.expected);
      var result := if s.interrupted || Interrupted(reply) then -NLE_DUMP_INTR
                    else if m.kind.Done? then nrecv + Total(reply) else -m.kind.code;
      Receive(autoAck, cb, s, reply + rest, nrecv, recvErr) == Outcome(result, (s.expected + 1) % U32, rest)
    decreases |reply|
  {
    hide Handle, Quiet, PartOf, AnyMulti, AnyInterrupted;
    assert (reply + rest)[0] == reply[0] && (reply + rest)[1..] == reply[1..] + rest;
    if |reply| == 1 {
      assert reply[1..] == [] && [] + rest == rest;
      EndIsRead(autoAck, cb, s, reply[0]);
    } else {
      PartIsRead(autoAck, cb, s, reply[0]);
      var (s1, flow, n) := Datagram(autoAck, cb, s, reply[0]);
      WholeReplyIsRead(autoAck, cb, s1, reply[1..], rest, nrecv + n, recvErr);
    }
  }

  lemma FlagsAlone(m: Message)
    ensures AnyMulti([m]) == m.multi && AnyInterrupted([m]) == m.dumpIntr
  {
    assert [m][1..] == [];
  }

  lemma EndAlone(m: Message, seq_: nat)
    requires (m.kind.Done? || m.kind.Error?) && m.seq_ == seq_
    ensures LastOf([m], seq_) && Reply([[m]], seq_)
  {
    assert [m][..0] == [];
  }

  /** With no callbacks set, the two messages of a dump in two datagrams are read, and the acknowledgement behind it. */
  lemma DumpIsRead()
    ensures var no: Option<Message -> Verdict> := None;
      var cb := Callbacks(no, no, no, no, no, no, no, no, no, no, no);
      var part, done := Message(Data, 5, true, false, false, [], 0), Message(Done, 5, true, false, false, [], 1);
      var ack := Message(Error(0, false), 6, false, false, false, [], 2);
      && Polite(cb) && Quiet(cb) && Passes(cb, part) && IsAck(cb, ack)
      && Reply([[part], [done]], 5) && Reply([[ack]], 6) && Replies([[part], [done], [ack]], 5, 2)
      && Receive(true, cb, State(5, false, false), [[part], [done], [ack]], 0, 0) == Outcome(2, 6, [[ack]])
  {
    var no: Option<Message -> Verdict> := None;
    var cb := Callbacks(no, no, no, no, no, no, no, no, no, no, no);
    var part, done := Message(Data, 5, true, false, false, [], 0), Message(Done, 5, true, false, false, [], 1);
    var ack := Message(Error(0, false), 6, false, false, false, [], 2);
    var reply := [[part], [done]];
    assert reply[1..] == [[done]] && [part][1..] == [] && [done][1..] == [];
    assert [[part], [done], [ack]] == reply + [[ack]];
    EndAlone(done, 5);
    EndAlone(ack, 6);
    assert PartOf([part], 5);
    ReplyAlone(reply, 5);
    ReplyAppends(reply, 5, 1, [[ack]]);
    FlagsAlone(part);
    FlagsAlone(done);
    WholeReplyIsRead(true, cb, State(5, false, false), reply, [[ack]], 0, 0);
    assert Total(reply) == 1 + Total([[done]]) && Total([[done]]) == 1 + Total([]);
    assert Interrupted([]) == false && Interrupted([[done]]) == false;
  }

  // ----- a reply cut short

  /** A data message that the callbacks let through. */
  predicate Passes(cb: Callbacks, m: Message) {
    m.kind.Data? && Arrives(cb, m) && (Call(cb.valid, m).Proceed? || Call(cb.valid, m).Skip?)
  }

  /** What is asked about every message lets this one pass. */
  predicate Arrives(cb: Callbacks, m: Message) {
    Admits(cb, m) && (m.dumpIntr ==> Call(cb.dumpIntr, m).Proceed?) && (m.ack ==> Call(cb.sendAck, m).Proceed?)
  }

  predicate AllPass(cb: Callbacks, ds: seq<Message>, seq_: nat) {
    forall m | m in ds :: Passes(cb, m) && m.seq_ == seq_
  }

  /** The datagrams of a reply before its last one, announced as multipart by the first. */
  predicate Announced(cb: Callbacks, s: State, parts: seq<seq<Message>>) {
    && (forall ds | ds in parts :: AllPass(cb, ds, s.expected))
    && (parts != [] ==> s.multipart || AnyMulti(parts[0]))
  }

  lemma {:induction false} PassedIsRead(autoAck: bool, cb: Callbacks, s: State, head: seq<Message>, tail: seq<Message>)
    requires AllPass(cb, head, s.expected)
    ensures var s' := State(s.expected, s.multipart || AnyMulti(head),
                            s.interrupted || (cb.dumpIntr.None? && AnyInterrupted(head)));
      var (s1, flow, n) := Datagram(autoAck, cb, s', tail);
      Datagram(autoAck, cb, s, head + tail) == (s1, flow, |head| + n)
    decreases |head|
  {
    if head == [] {
      assert head + tail == tail;
      assert State(s.expected, s.multipart, s.interrupted) == s;
    } else {
      var m := head[0];
      assert (head + tail)[0] == m && (head + tail)[1..] == head[1..] + tail;
      assert Passes(cb, m);
      PassedIsRead(autoAck, cb, Handle(autoAck, cb, s, m).0, head[1..], tail);
    }
  }

  /** The state when the message behind these datagrams and this head of another is reached. */
  function Reached(cb: Callbacks, s: State, parts: seq<seq<Message>>, head: seq<Message>): State {
    State(s.expected, s.multipart || AnyMulti(head) || exists ds :: ds in parts && AnyMulti(ds),
          s.interrupted || (cb.dumpIntr.None? && (AnyInterrupted(head) || Interrupted(parts))))
  }

  /** The loop comes to the first message that is not let through with all before it counted and nothing lost. */
  lemma {:induction false} ReachesMessage(autoAck: bool, cb: Callbacks, s: State, parts: seq<seq<Message>>,
                                          head: seq<Message>, m: Message, tail: seq<Message>,
                                          rest: seq<seq<Message>>, nrecv: nat, recvErr: int)
    requires Announced(cb, s, parts) && AllPass(cb, head, s.expected)
    ensures var at := Reached(cb, s, parts, head);
      var (s', flow, n) := Datagram(autoAck, cb, at, [m] + tail);
      var count := nrecv + Total(parts) + |head| + n;
      Receive(autoAck, cb, s, parts + [head + [m] + tail] + rest, nrecv, recvErr) ==
        if flow == Next && s'.multipart then Receive(autoAck, cb, s', rest, count, recvErr)
        else Outcome(Report(flow, s'.interrupted, count), s'.expected, rest)
    decreases |parts|
  {
    hide Handle, Passes, AnyMulti, AnyInterrupted, Report;
    var last := head + [m] + tail;
    var all := parts + [last] + rest;
    if parts == [] {
      assert all == [last] + rest && all[0] == last && all[1..] == rest;
      assert last == head + ([m] + tail);
      PassedIsRead(autoAck, cb, s, head, [m] + tail);
    } else {
      var ds, more := parts[0], parts[1..];
      assert all[0] == ds && all[1..] == more + [last] + rest;
      assert ds + [] == ds && ds in parts;
      PassedIsRead(autoAck, cb, s, ds, []);
      var s1 := State(s.expected, true, s.interrupted || (cb.dumpIntr.None? && AnyInterrupted(ds)));
      assert Datagram(autoAck, cb, s, ds) == (s1, Next, |ds|);
      ReachesMessage(autoAck, cb, s1, more, head, m, tail, rest, nrecv + |ds|, recvErr);
      assert AnyMulti(ds) || s.multipart;
      assert Reached(cb, s1, more, head) == Reached(cb, s, parts, head);
    }
  }

  /** What recvmsgs returns for an error of its loop, or 0, and a number of messages. */
  function Returned(err: int, interrupted: bool, count: nat): int {
    if interrupted then -33 else if err != 0 then err else count
  }

  /**
   * What ends a reply, and with which result, whatever callbacks are set for the last message. The rest of its datagram
   * is lost, and the datagrams behind it are left. An error reported by the kernel is the result unless the error
   * callback returns one of its own; a truncated one, and an overrun, have errors of their own unless a callback is
   * set.
   */
  lemma ReplyEndsWith(autoAck: bool, cb: Callbacks, s: State, parts: seq<seq<Message>>, head: seq<Message>, m: Message,
                      tail: seq<Message>, rest: seq<seq<Message>>, nrecv: nat, recvErr: int)
    requires Announced(cb, s, parts) && AllPass(cb, head, s.expected)
    requires m.seq_ == s.expected && Arrives(cb, m)
    ensures var intr := s.interrupted
        || (cb.dumpIntr.None? && (m.dumpIntr || AnyInterrupted(head) || Interrupted(parts)));
      var count, next := nrecv + Total(parts) + |head| + 1, (s.expected + 1) % 0x1_0000_0000;
      var r := Receive(autoAck, cb, s, parts + [head + [m] + tail] + rest, nrecv, recvErr);
      && (m.kind.Error? && !m.kind.truncated && m.kind.code != 0 ==>
            && (cb.error.None? || cb.error.value(m).Stop? ==>
                  r == Outcome(Returned(-m.kind.code, intr, count), next, rest))
            && (cb.error.Some? && cb.error.value(m).Fail? && cb.error.value(m).err < 0 ==>
                  r == Outcome(Returned(cb.error.value(m).err, intr, count), next, rest)))
      && (m.kind.Error? && m.kind.truncated ==>
            && (cb.invalid.None? ==> r == Outcome(Returned(-18, intr, count), next, rest))
            && (cb.invalid.Some? && cb.invalid.value(m).Stop? ==> r == Outcome(Returned(0, intr, count), next, rest))
            && (cb.invalid.Some? && cb.invalid.value(m).Fail? ==>
                  r == Outcome(Returned(cb.invalid.value(m).err, intr, count), next, rest)))
      && (m.kind.Overrun? ==>
            && (cb.overrun.None? ==> r == Outcome(Returned(-17, intr, count), next, rest))
            && (cb.overrun.Some? && cb.overrun.value(m).Stop? ==> r == Outcome(Returned(0, intr, count), next, rest))
            && (cb.overrun.Some? && cb.overrun.value(m).Fail? ==>
                  r == Outcome(Returned(cb.overrun.value(m).err, intr, count), next, rest)))
      && (m.kind.Done? && Call(cb.finish, m).Stop? ==> r == Outcome(Returned(0, intr, count), next, rest))
      && (m.kind.Done? && Call(cb.finish, m).Fail? ==>
            r == Outcome(Returned(Call(cb.finish, m).err, intr, count), next, rest))
      && (m.kind.Data? && Call(cb.valid, m).Stop? ==> r == Outcome(Returned(0, intr, count), s.expected, rest))
      && (m.kind.Data? && Call(cb.valid, m).Fail? ==>
            r == Outcome(Returned(Call(cb.valid, m).err, intr, count), s.expected, rest))
  {
    ReachesMessage(autoAck, cb, s, parts, head, m, tail, rest, nrecv, recvErr);
    hide Receive, Datagram, AnyMulti, AnyInterrupted, Interrupted, Total;
    var at := Reached(cb, s, parts, head);
    FirstLeaves(autoAck, cb, at, m, tail);
  }

  lemma FirstLeaves(autoAck: bool, cb: Callbacks, s: State, m: Message, tail: seq<Message>)
    ensures var (s', flow) := Handle(autoAck, cb, s, m);
      flow != Next ==> Datagram(autoAck, cb, s, [m] + tail) == (s', flow, 1)
  {
    hide Handle;
  }

  /** An error, whole or truncated, or an overrun that a callback waves through ends nothing that was announced. */
  lemma ReplyGoesOn(autoAck: bool, cb: Callbacks, s: State, parts: seq<seq<Message>>, head: seq<Message>, m: Message,
                    rest: seq<seq<Message>>, nrecv: nat, recvErr: int)
    requires Announced(cb, s, parts) && AllPass(cb, head, s.expected)
    requires m.seq_ == s.expected && Arrives(cb, m)
    requires match m.kind
      case Error(code, truncated) =>
        if truncated then cb.invalid.Some? && (cb.invalid.value(m).Proceed? || cb.invalid.value(m).Skip?)
        else code != 0 && cb.error.Some? && (cb.error.value(m).Proceed? || cb.error.value(m).Skip?)
      case Overrun => cb.overrun.Some? && (cb.overrun.value(m).Proceed? || cb.overrun.value(m).Skip?)
      case _ => false
    ensures var at := Reached(cb, s, parts, head);
      var intr := at.interrupted || (cb.dumpIntr.None? && m.dumpIntr);
      var count, next := nrecv + Total(parts) + |head| + 1, (s.expected + 1) % 0x1_0000_0000;
      Receive(autoAck, cb, s, parts + [head + [m]] + rest, nrecv, recvErr) ==
        if at.multipart || m.multi then Receive(autoAck, cb, State(next, true, intr), rest, count, recvErr)
        else Outcome(Returned(0, intr, count), next, rest)
  {
    ReachesMessage(autoAck, cb, s, parts, head, m, [], rest, nrecv, recvErr);
    assert head + [m] + [] == head + [m];
    hide Receive, AnyMulti, AnyInterrupted, Interrupted, Total;
    var at := Reached(cb, s, parts, head);
    assert ([m] + [])[1..] == [];
    var (s', flow) := Handle(autoAck, cb, at, m);
    assert Datagram(autoAck, cb, s', []) == (s', Next, 0);
  }

  /** A callback for interrupted dumps that stops or fails decides the result, before the kind of the message counts. */
  lemma InterruptionEnds(autoAck: bool, cb: Callbacks, s: State, parts: seq<seq<Message>>, head: seq<Message>,
                         m: Message, tail: seq<Message>, rest: seq<seq<Message>>, nrecv: nat, recvErr: int)
    requires Announced(cb, s, parts) && AllPass(cb, head, s.expected)
    requires m.seq_ == s.expected && Admits(cb, m) && m.dumpIntr && cb.dumpIntr.Some?
    requires cb.dumpIntr.value(m).Stop? || cb.dumpIntr.value(m).Fail?
    ensures var count := nrecv + Total(parts) + |head| + 1;
      var err := if cb.dumpIntr.value(m).Stop? then 0 else cb.dumpIntr.value(m).err;
      Receive(autoAck, cb, s, parts + [head + [m] + tail] + rest, nrecv, recvErr) ==
        Outcome(Returned(err, s.interrupted, count),
                if m.kind.Data? then s.expected else (s.expected + 1) % 0x1_0000_0000, rest)
  {
    ReachesMessage(autoAck, cb, s, parts, head, m, tail, rest, nrecv, recvErr);
    hide Receive, Datagram, AnyMulti, AnyInterrupted, Interrupted, Total;
    FirstLeaves(autoAck, cb, Reached(cb, s, parts, head), m, tail);
  }

  /** An ACK does not end a multipart reply: recvmsgs then goes on to read what is there for the next request. */
  lemma {:induction false} AckReadsOn(autoAck: bool, cb: Callbacks, s: State, ds: seq<Message>, rest: seq<seq<Message>>,
                                      nrecv: nat, recvErr: int)
    requires Quiet(cb) && LastOf(ds, s.expected) && ds[|ds| - 1].kind == Error(0, false)
    ensures var next := State((s.expected + 1) % U32, true, s.interrupted || AnyInterrupted(ds));
      Receive(autoAck, cb, s, [ds] + rest, nrecv, recvErr) ==
        if s.multipart || AnyMulti(ds) then Receive(autoAck, cb, next, rest, nrecv + |ds|, recvErr)
        else Outcome(if next.interrupted then -NLE_DUMP_INTR else nrecv + |ds|, next.expected, rest)
  {
    hide Handle, Quiet, LastOf, AnyMulti, AnyInterrupted;
    EndIsRead(autoAck, cb, s, ds);
    assert ([ds] + rest)[1..] == rest && ([ds] + rest)[0] == ds;
  }

  /** The callbacks of nl_wait_for_ack. */
  function AckStops(cb: Callbacks): (r: Callbacks)
    ensures Polite(cb) ==> Polite(r)
  {
    cb.(ack := Some(_ => Stop))
  }

  /** An ACK that no callback for its own flags skips or fails. */
  predicate IsAck(cb: Callbacks, m: Message) {
    && m.kind == Error(0, false)
    && (m.dumpIntr ==> Call(cb.dumpIntr, m).Proceed? || Call(cb.dumpIntr, m).Stop?)
    && (m.ack ==> Call(cb.sendAck, m).Proceed? || Call(cb.sendAck, m).Stop?)
  }

  /** An ACK ends nl_wait_for_ack at its own datagram, even when the reply was announced as multipart. */
  lemma {:induction false} AckEndsTheWait(autoAck: bool, cb: Callbacks, s: State, ds: seq<Message>,
                                          rest: seq<seq<Message>>, nrecv: nat, recvErr: int)
    requires Polite(cb) && LastOf(ds, s.expected) && IsAck(cb, ds[|ds| - 1])
    ensures var o := Receive(autoAck, AckStops(cb), s, [ds] + rest, nrecv, recvErr);
      o.left == rest && o.expected == (s.expected + 1) % U32 && (o.result == nrecv + |ds| || o.result == -NLE_DUMP_INTR)
  {
    AckStopsAtLast(autoAck, AckStops(cb), s, ds);
    assert ([ds] + rest)[1..] == rest;
  }

  lemma {:induction false} AckStopsAtLast(autoAck: bool, cb: Callbacks, s: State, ds: seq<Message>)
    requires Polite(cb) && LastOf(ds, s.expected) && cb.ack.Some? && cb.ack.value(ds[|ds| - 1]) == Stop
    requires IsAck(cb, ds[|ds| - 1])
    ensures var (s1, flow, n) := Datagram(autoAck, cb, s, ds);
      s1.expected == (s.expected + 1) % U32 && flow == Stopped && n == |ds|
    decreases |ds|
  {
    if |ds| == 1 {
      LastCounts(autoAck, cb, s, ds[0]);
    } else {
      assert ds[0] in ds[..|ds| - 1];
      DataPasses(autoAck, cb, s, ds[0]);
      assert ds[1..][..|ds| - 2] == ds[..|ds| - 1][1..];
      AckStopsAtLast(autoAck, cb, Handle(autoAck, cb, s, ds[0]).0, ds[1..]);
    }
  }

  /**
   * Counting needs what Polite asks of the two early callbacks: over the datagram that ends a
   * reply, the end is counted iff both let its last message pass.
   */
  lemma {:induction false} EndCountedIff(autoAck: bool, cb: Callbacks, s: State, ds: seq<Message>)
    requires PoliteToData(cb) && LastOf(ds, s.expected) && s.expected < U32
    ensures Datagram(autoAck, cb, s, ds).0.expected == (s.expected + 1) % U32 <==> Admits(cb, ds[|ds| - 1])
    ensures !Admits(cb, ds[|ds| - 1]) ==> Datagram(autoAck, cb, s, ds).0.expected == s.expected
    decreases |ds|
  {
    assert (s.expected + 1) % U32 != s.expected;
    if |ds| == 1 {
      var s1 := Handle(autoAck, cb, s, ds[0]).0;
      assert Datagram(autoAck, cb, s1, ds[1..]).0 == s1;
    } else {
      assert ds[0] in ds[..|ds| - 1] && ds[1..][..|ds| - 2] == ds[..|ds| - 1][1..];
      DataPasses(autoAck, cb, s, ds[0]);
      EndCountedIff(autoAck, cb, Handle(autoAck, cb, s, ds[0]).0, ds[1..]);
    }
  }

  /** An end of reply that NL_CB_MSG_IN skips is lost, and the next request's reply is taken for a mismatch. */
  lemma SkippedEndDesynchronises(first: nat)
    requires first < U32 - 1
    ensures var none: Option<Message -> Verdict> := None;
      var skipDone: Option<Message -> Verdict> := Some((m: Message) => if m.kind.Done? then Skip else Proceed);
      var cb := Callbacks(skipDone, none, none, none, none, none, none, none, none, none, none);
      var s := State(first, false, false);
      var done := Message(Done, first, false, false, false, [], 0);
      var ack := Message(Error(0, false), first + 1, false, false, false, [], 1);
      && Receive(true, cb, s, [[done]], 0, 0) == Outcome(1, first, [])
      && Receive(true, cb, s, [[ack]], 0, 0) == Outcome(-NLE_SEQ_MISMATCH, first, [])
  {
    var none: Option<Message -> Verdict> := None;
    var skipDone: Option<Message -> Verdict> := Some((m: Message) => if m.kind.Done? then Skip else Proceed);
    var cb := Callbacks(skipDone, none, none, none, none, none, none, none, none, none, none);
    var s := State(first, false, false);
    var done := Message(Done, first, false, false, false, [], 0);
    var ack := Message(Error(0, false), first + 1, false, false, false, [], 1);
    assert [done][1..] == [] && [ack][1..] == [];
    assert Handle(true, cb, s, done) == (s, Next);
    assert Handle(true, cb, s, ack) == (s, Out(-NLE_SEQ_MISMATCH));
    assert Datagram(true, cb, s, [done]) == (s, Next, 1);
    assert Datagram(true, cb, s, [ack]) == (s, Out(-NLE_SEQ_MISMATCH), 1);
  }

  lemma NumberAfter(seq_: nat, n: nat)
    ensures ((seq_ + n) % U32 + 1) % U32 == (seq_ + (n + 1)) % U32
  {
  }

  /** The sequence numbers of a struct nl_sock and the datagrams still to be read from it. */
  class Sock {
    var seqNext: nat
    var seqExpect: nat
    var autoAck: bool
    var inbox: seq<seq<Message>>
    /** Requests whose reply is not finished. */
    ghost var pending: nat

    ghost predicate Synced()
      reads this
    {
      seqExpect < U32 && Replies(inbox, seqExpect, pending) && seqNext == (seqExpect + pending) % U32
    }

    /** __alloc_socket: both numbers start at the current time. */
    constructor (now: nat)
      requires now < U32
      ensures Synced() && pending == 0 && autoAck
    {
      seqNext, seqExpect, autoAck, inbox, pending := now, now, true, [], 0;
    }

    /** nl_complete_msg numbers a request, and the peer will answer it with the given reply. */
    method Request(reply: seq<seq<Message>>) returns (seq_: nat)
      requires Synced() && Reply(reply, seqNext)
      modifies this
      ensures Synced() && seq_ == old(seqNext) && seqNext == (seq_ + 1) % U32
      ensures pending == old(pending) + 1 && autoAck == old(autoAck) && inbox == old(inbox) + reply
    {
      hide Replies, Reply;
      ReplyAppends(inbox, seqExpect, pending, reply);
      NumberAfter(seqExpect, pending);
      seq_ := seqNext;
      seqNext := (seqNext + 1) % U32;
      inbox := inbox + reply;
      pending := pending + 1;
    }

    /** The loop of recvmsgs. At most arrived datagrams can be read; then nl_recv returns recvErr. */
    method ReadDatagrams(cb: Callbacks, arrived: nat, recvErr: int) returns (err: int)
      requires arrived <= |inbox|
      modifies this`inbox, this`seqExpect
      ensures var o := Receive(autoAck, cb, State(old(seqExpect), false, false), old(inbox)[..arrived], 0, recvErr);
        err == o.result && seqExpect == o.expected && inbox == o.left + old(inbox)[arrived..]
    {
      var s, nrecv, left := State(seqExpect, false, false), 0, arrived;
      ghost var ds, later := inbox[..arrived], inbox[arrived..];
      ghost var o := Receive(autoAck, cb, s, ds, 0, recvErr);
      assert inbox[..left] == ds;
      while left > 0
        invariant 0 <= left <= |inbox| && inbox[left..] == later && seqExpect == s.expected
        invariant Receive(autoAck, cb, s, inbox[..left], nrecv, recvErr) == o
        decreases left
      {
        ghost var was := inbox[..left];
        var flow, n;
        s, flow, n := TakeDatagram(autoAck, cb, s, inbox[0]);
        assert was[0] == inbox[0] && was[1..] == inbox[1..][..left - 1] && inbox[1..][left - 1..] == later;
        seqExpect := s.expected;
        inbox, left, nrecv := inbox[1..], left - 1, nrecv + n;
        if flow != Next || !s.multipart {
          assert inbox == was[1..] + later;
          return Report(flow, s.interrupted, nrecv);
        }
      }
      assert inbox == [] + later;
      err := recvErr;
    }

    /** recvmsgs on a socket whose peer answers in order. */
    method RecvMsgs(cb: Callbacks, arrived: nat, recvErr: int) returns (err: int)
      requires arrived <= |inbox|
      modifies this
      ensures var o := Receive(autoAck, cb, State(old(seqExpect), false, false), old(inbox)[..arrived], 0, recvErr);
        err == o.result && seqExpect == o.expected && inbox == o.left + old(inbox)[arrived..]
      ensures seqNext == old(seqNext) && autoAck == old(autoAck)
      ensures old(Synced()) && Polite(cb) ==>
        && Synced() && pending <= old(pending)
        && !ReportsMismatch(autoAck, cb, State(old(seqExpect), false, false), old(inbox)[..arrived])
    {
      hide Polite, Replies, ReportsMismatch, Receive;
      if Synced() && Polite(cb) {
        assert inbox == inbox[..arrived] + inbox[arrived..];
        ghost var n' := ReceiveKeepsCount(autoAck, cb, State(seqExpect, false, false), inbox[..arrived],
                                          inbox[arrived..], 0, recvErr, pending);
        pending := n';
      }
      err := ReadDatagrams(cb, arrived, recvErr);
    }

    /** nl_wait_for_ack: the socket's callbacks, but an ACK stops the loop. */
    method WaitForAck(cb: Callbacks, arrived: nat, recvErr: int) returns (err: int)
      requires arrived <= |inbox|
      modifies this
      ensures var o :=
          Receive(autoAck, AckStops(cb), State(old(seqExpect), false, false), old(inbox)[..arrived], 0, recvErr);
        && err == (if o.result > 0 then 0 else o.result) && seqExpect == o.expected
        && inbox == o.left + old(inbox)[arrived..]
      ensures seqNext == old(seqNext) && autoAck == old(autoAck)
      ensures old(Synced()) && Polite(cb) ==> Synced() && pending <= old(pending)
    {
      err := RecvMsgs(AckStops(cb), arrived, recvErr);
      if err > 0 {
        err := 0;
      }
    }
  }
}
