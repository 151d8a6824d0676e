/**
 The heartbeat that gates key sending (apps/src/app_client.c): a heartbeat thread and the
 main thread, which waits for the user, share the flags g_loopFlag and g_serverOk.  A run
 is any interleaving of their steps, with any replies of the network and of the user.
 Every step touches the shared flags at most once.
 */
module Heartbeat {
  import opened Wrappers

  const HEARTBEAT_MISS_COUNT: nat := 3

  /** How one exchange went: nothing could be sent, no valid answer came, or one did. */
  datatype Outcome = SendFailed | Missed | Answered

  /** Where the heartbeat thread is; Done carries whether it returned success. */
  datatype Heart = NotStarted | Sending | Receiving | Counting | Testing | Done(ok: bool)

  /** Where the main thread is. */
  datatype Main =
    | Plain // no heartbeat: smTag is not set
    | Connecting
    | Confirming
    | Closing
    | Joining
    | Cleared
    | KeySent
    | Stopped

  datatype State = State(
    main: Main, heart: Heart, loopFlag: bool, serverOk: bool, missed: nat, confirmed: bool, log: seq<Outcome>)

  function Start(smTag: bool): State {
    State(if smTag then Connecting else Plain, NotStarted, true, false, 0, false, [])
  }

  datatype Event =
    | Connect(ok: bool) // the datagram connection and the thread are created
    | Send(ok: bool)
    | Receive(ok: bool)
    | Count // the miss counter is compared
    | Test // g_loopFlag is read
    | Confirm(ok: bool) // the user answers
    | ClearFlag
    | Join // the thread is joined and the three results are checked
    | Open(ok: bool, prexit: bool) // the key connection is created

  // ---------------------------------------------------------------------- the steps

  function Sent(s: State, ok: bool): State {
    if ok then s.(heart := Receiving)
    else s.(heart := Done(false), serverOk := false, log := s.log + [SendFailed])
  }

  /** The first exchange is not followed by the comparison. */
  function Received(s: State, ok: bool): State {
    var next := if s.log == [] then Testing else Counting;
    if ok then s.(heart := next, missed := 0, serverOk := true, log := s.log + [Answered])
    else s.(heart := next, missed := s.missed + 1, serverOk := false, log := s.log + [Missed])
  }

  /** The heartbeat thread, HandleOneHeartBeat. */
  function HeartStep(s: State, e: Event): Option<State> {
    match e
    case Send(ok) => if s.heart == Sending then Some(Sent(s, ok)) else None
    case Receive(ok) => if s.heart == Receiving then Some(Received(s, ok)) else None
    case Count =>
      if s.heart != Counting then None
      else Some(s.(heart := if s.missed > HEARTBEAT_MISS_COUNT then Done(true) else Testing))
    case Test =>
      if s.heart != Testing then None
      else Some(s.(heart := if s.loopFlag then Sending else Done(true)))
    case _ => None
  }

  /** What the main thread makes of the three results. */
  function Joined(s: State): Main
    requires s.heart.Done?
  {
    if !s.confirmed then Stopped
    else if !s.heart.ok then Stopped
    else if !s.serverOk then Stopped
    else Cleared
  }

  /** The main thread, SendHeartBeatAndConfirm and HITLS_ClientMain. */
  function MainStep(s: State, e: Event): Option<State> {
    match e
    case Connect(ok) =>
      if s.main != Connecting then None
      else Some(if ok then s.(main := Confirming, heart := Sending) else s.(main := Stopped))
    case Confirm(ok) =>
      if s.main == Confirming then Some(s.(main := Closing, confirmed := ok)) else None
    case ClearFlag =>
      if s.main == Closing then Some(s.(main := Joining, loopFlag := false)) else None
    case Join =>
      if s.main == Joining && s.heart.Done? then Some(s.(main := Joined(s))) else None
    case Open(ok, prexit) =>
      if s.main == Cleared then Some(s.(main := if ok && !prexit then KeySent else Stopped))
      else if s.main == Plain then Some(s.(main := Stopped))
      else None
    case _ => None
  }

  function Step(s: State, e: Event): Option<State> {
    if e.Send? || e.Receive? || e.Count? || e.Test? then HeartStep(s, e) else MainStep(s, e)
  }

  function Run(s: State, es: seq<Event>): Option<State>
    decreases |es|
  {
    if es == [] then Some(s)
    else
      match Step(s, es[0])
      case None => None
      case Some(t) => Run(t, es[1..])
  }

  lemma {:induction false} RunSplits(s: State, es: seq<Event>, more: seq<Event>)
    ensures Run(s, es + more) == match Run(s, es) case None => None case Some(t) => Run(t, more)
    decreases |es|
  {
    var all := es + more;
    if es == [] {
      assert all == more;
    } else {
      assert all[0] == es[0] && all[1..] == es[1..] + more;
      match Step(s, es[0])
      case None =>
      case Some(t) => RunSplits(t, es[1..], more);
    }
  }

  // ------------------------------------------------------------------ the exchanges

  ghost predicate EndsIn(log: seq<Outcome>, o: Outcome) {
    log != [] && log[|log| - 1] == o
  }

  /** The misses since the last answer. */
  function MissRun(log: seq<Outcome>): nat {
    if log == [] then 0
    else
      match log[|log| - 1]
      case Answered => 0
      case Missed => MissRun(log[..|log| - 1]) + 1
      case SendFailed => MissRun(log[..|log| - 1])
  }

  /** The thread goes on after these exchanges. */
  ghost predicate GoesOn(log: seq<Outcome>) {
    !EndsIn(log, SendFailed) && MissRun(log) <= HEARTBEAT_MISS_COUNT
  }

  /** The thread went on after every exchange but the last. */
  ghost predicate LogOk(log: seq<Outcome>) {
    log == [] || (LogOk(log[..|log| - 1]) && GoesOn(log[..|log| - 1]))
  }

  lemma LogGrows(log: seq<Outcome>, o: Outcome)
    requires LogOk(log) && GoesOn(log)
    ensures LogOk(log + [o]) && EndsIn(log + [o], o)
    ensures o == Answered ==> MissRun(log + [o]) == 0
    ensures o == Missed ==> MissRun(log + [o]) == MissRun(log) + 1
    ensures o == SendFailed ==> MissRun(log + [o]) == MissRun(log)
  {
    var grown := log + [o];
    assert grown[..|grown| - 1] == log && grown[|grown| - 1] == o;
  }

  lemma {:induction false} WentOn(log: seq<Outcome>, n: nat)
    requires LogOk(log) && n < |log|
    ensures GoesOn(log[..n])
  {
    var init := log[..|log| - 1];
    if n < |init| {
      WentOn(init, n);
      assert init[..n] == log[..n];
    }
  }

  /** A failed send can only come last. */
  lemma SendFailsLast(log: seq<Outcome>)
    requires LogOk(log) && !EndsIn(log, SendFailed)
    ensures SendFailed !in log
  {
    forall n | 0 <= n < |log| ensures log[n] != SendFailed {
      if n + 1 < |log| {
        WentOn(log, n + 1);
        assert log[..n + 1][n] == log[n];
      }
    }
  }

  // ------------------------------------------------------------------ the invariant

  ghost predicate HeartOk(s: State) {
    match s.heart
    case NotStarted => s.log == []
    case Sending => GoesOn(s.log)
    case Receiving => GoesOn(s.log)
    case Counting => s.log != [] && !EndsIn(s.log, SendFailed)
    case Testing => s.log != [] && GoesOn(s.log)
    case Done(ok) => s.log != [] && (ok <==> !EndsIn(s.log, SendFailed))
  }

  ghost predicate MainOk(s: State) {
    match s.main
    case Plain => s.heart.NotStarted?
    case Connecting => s.loopFlag && s.heart.NotStarted?
    case Confirming => s.loopFlag && !s.heart.NotStarted?
    case Closing => s.loopFlag && !s.heart.NotStarted?
    case Joining => !s.loopFlag && !s.heart.NotStarted?
    case Cleared => s.heart == Done(true) && s.serverOk && s.confirmed
    case KeySent => s.heart == Done(true) && s.serverOk && s.confirmed
    case Stopped => s.heart.NotStarted? || s.heart.Done?
  }

  ghost predicate Inv(s: State) {
    s.missed == MissRun(s.log) && (s.serverOk <==> EndsIn(s.log, Answered)) &&
    LogOk(s.log) && HeartOk(s) && MainOk(s)
  }

  lemma SendKeepsInv(s: State, ok: bool)
    requires Inv(s) && s.heart == Sending
    ensures Inv(Sent(s, ok))
  {
    LogGrows(s.log, SendFailed);
  }

  lemma ExchangedInv(s: State, t: State, o: Outcome)
    requires MainOk(s) && s.heart == Receiving && t.main == s.main && t.loopFlag == s.loopFlag
    requires LogOk(t.log) && EndsIn(t.log, o) && o != SendFailed
    requires t.missed == MissRun(t.log) && t.serverOk == (o == Answered)
    requires t.heart == Counting || t.heart == Testing
    requires t.heart == Testing ==> t.missed <= HEARTBEAT_MISS_COUNT
    ensures Inv(t)
  {
  }

  lemma ReceiveKeepsInv(s: State, ok: bool)
    requires Inv(s) && s.heart == Receiving
    ensures Inv(Received(s, ok))
  {
    if ok {
      LogGrows(s.log, Answered);
      ExchangedInv(s, Received(s, true), Answered);
    } else {
      LogGrows(s.log, Missed);
      ExchangedInv(s, Received(s, false), Missed);
    }
  }

  lemma MainKeepsInv(s: State, e: Event)
    requires Inv(s) && MainStep(s, e).Some?
    ensures Inv(MainStep(s, e).value)
  {
    var t := MainStep(s, e).value;
    assert t.log == s.log && t.missed == s.missed && t.serverOk == s.serverOk;
    assert HeartOk(t);
    assert MainOk(t);
  }

  lemma StepKeepsInv(s: State, e: Event)
    requires Inv(s) && Step(s, e).Some?
    ensures Inv(Step(s, e).value)
  {
    match e
    case Send(ok) => SendKeepsInv(s, ok);
    case Receive(ok) => ReceiveKeepsInv(s, ok);
    case Count =>
    case Test =>
    case _ => MainKeepsInv(s, e);
  }

  lemma {:induction false} RunKeepsInv(s: State, es: seq<Event>)
    requires Inv(s) && Run(s, es).Some?
    ensures Inv(Run(s, es).value)
    decreases |es|
  {
    if es != [] {
      StepKeepsInv(s, es[0]);
      RunKeepsInv(Step(s, es[0]).value, es[1..]);
    }
  }

  lemma ReachedInv(smTag: bool, es: seq<Event>, s: State)
    requires Run(Start(smTag), es) == Some(s)
    ensures Inv(s)
  {
    RunKeepsInv(Start(smTag), es);
  }

  // ------------------------------------------------------------------ the theorems

  /**
   In every run the miss counter is the number of misses since the last answer, it stays
   small, and g_serverOk says whether the last exchange was answered.
   */
  lemma CountersMeanWhatTheySay(smTag: bool, es: seq<Event>, s: State)
    requires Run(Start(smTag), es) == Some(s)
    ensures s.missed == MissRun(s.log) && s.missed <= 4
    ensures s.serverOk <==> EndsIn(s.log, Answered)
  {
    ReachedInv(smTag, es, s);
  }

  /** In every run the key is sent only under smTag, after the user confirmed, with the last exchange answered and the thread ended without error. */
  lemma KeyIsGated(smTag: bool, es: seq<Event>, s: State)
    requires Run(Start(smTag), es) == Some(s) && s.main == KeySent
    ensures smTag && s.confirmed && EndsIn(s.log, Answered) && s.heart == Done(true) && SendFailed !in s.log
  {
    ReachedInv(smTag, es, s);
    SendFailsLast(s.log);
    if !smTag {
      PlainSendsNoKey(Start(smTag), es);
    }
  }

  lemma {:induction false} PlainSendsNoKey(s: State, es: seq<Event>)
    requires s.main in {Plain, Stopped} && s.heart.NotStarted? && Run(s, es).Some?
    ensures Run(s, es).value.main in {Plain, Stopped}
    decreases |es|
  {
    if es != [] {
      PlainSendsNoKey(Step(s, es[0]).value, es[1..]);
    }
  }

  /**
   When the thread is joined the gate opens exactly if the user confirmed and the last
   exchange was answered; the thread's own error code never decides alone.
   */
  lemma JoinDecides(smTag: bool, es: seq<Event>, s: State)
    requires Run(Start(smTag), es) == Some(s) && s.main == Joining && s.heart.Done?
    ensures Step(s, Join).Some?
    ensures Step(s, Join).value.main == Cleared <==> s.confirmed && EndsIn(s.log, Answered)
  {
    ReachedInv(smTag, es, s);
  }

  ghost predicate FourMisses(log: seq<Outcome>, i: nat) {
    i + 4 <= |log| && log[i] == log[i + 1] == log[i + 2] == log[i + 3] == Missed
  }

  lemma FourMissesEndLog(log: seq<Outcome>, i: nat)
    requires LogOk(log) && FourMisses(log, i)
    ensures i + 4 == |log|
  {
    var next := if i + 4 < |log| then i + 4 else i;
    WentOn(log, next);
    var a, b, c, d := log[..i + 1], log[..i + 2], log[..i + 3], log[..i + 4];
    assert b[..i + 1] == a && c[..i + 2] == b && d[..i + 3] == c;
    assert MissRun(a) >= 1 && MissRun(b) >= 2 && MissRun(c) >= 3 && MissRun(d) >= 4;
  }

  lemma StepExtendsLog(s: State, e: Event)
    requires Step(s, e).Some?
    ensures s.log <= Step(s, e).value.log
  {
  }

  lemma {:induction false} RunExtendsLog(s: State, es: seq<Event>)
    requires Run(s, es).Some?
    ensures s.log <= Run(s, es).value.log
    decreases |es|
  {
    if es != [] {
      StepExtendsLog(s, es[0]);
      RunExtendsLog(Step(s, es[0]).value, es[1..]);
    }
  }

  /** More than three misses in a row: there is no further exchange and the key is never sent, however the run goes on. */
  lemma SilenceIsFinal(smTag: bool, es: seq<Event>, s: State, more: seq<Event>, t: State, i: nat)
    requires Run(Start(smTag), es) == Some(s) && FourMisses(s.log, i)
    requires Run(Start(smTag), es + more) == Some(t)
    ensures t.log == s.log && t.main != Cleared && t.main != KeySent
  {
    ReachedInv(smTag, es, s);
    ReachedInv(smTag, es + more, t);
    RunSplits(Start(smTag), es, more);
    RunExtendsLog(s, more);
    FourMissesEndLog(s.log, i);
    FourMissesEndLog(t.log, i);
  }

  // --------------------------------------------------------------- the join returns

  /** Exchanges the thread can still make once g_loopFlag is clear. */
  function Left(h: Heart): nat {
    if h.Sending? || h.Receiving? then 1 else 0
  }

  /** Steps the thread can still make once g_loopFlag is clear. */
  function StepsLeft(h: Heart): nat {
    match h
    case NotStarted => 0
    case Sending => 4
    case Receiving => 3
    case Counting => 2
    case Testing => 1
    case Done(_) => 0
  }

  ghost predicate Winding(s: State, t: State) {
    !t.loopFlag && t.main != Connecting &&
    |t.log| + Left(t.heart) <= |s.log| + Left(s.heart) && StepsLeft(t.heart) <= StepsLeft(s.heart)
  }

  lemma StepWindsDown(s: State, e: Event)
    requires Step(s, e).Some? && !s.loopFlag && s.main != Connecting
    ensures Winding(s, Step(s, e).value)
  {
  }

  /** Once g_loopFlag is clear there is at most one more exchange. */
  lemma {:induction false} AtMostOneMore(s: State, es: seq<Event>)
    requires Run(s, es).Some? && !s.loopFlag && s.main != Connecting
    ensures Winding(s, Run(s, es).value) && |Run(s, es).value.log| <= |s.log| + 1
    decreases |es|
  {
    if es != [] {
      StepWindsDown(s, es[0]);
      AtMostOneMore(Step(s, es[0]).value, es[1..]);
    }
  }

  /** The thread is never stuck, and once g_loopFlag is clear each of its steps brings it nearer to its end. */
  lemma ThreadEnds(s: State)
    requires !s.heart.NotStarted? && !s.heart.Done?
    ensures exists e :: HeartStep(s, e).Some?
    ensures forall e :: HeartStep(s, e).Some? && !s.loopFlag ==>
              StepsLeft(HeartStep(s, e).value.heart) < StepsLeft(s.heart)
  {
    var e := match s.heart
      case Sending => Send(true)
      case Receiving => Receive(true)
      case Counting => Count
      case _ => Test;
    assert HeartStep(s, e).Some?;
  }

  // ------------------------------------------------------------ what can be reached

  /** No more than three misses in a row, and every exchange was sent. */
  ghost predicate Alive(log: seq<Outcome>) {
    SendFailed !in log && forall n :: 0 <= n <= |log| ==> MissRun(log[..n]) <= 3
  }

  lemma AliveInit(log: seq<Outcome>)
    requires Alive(log) && log != []
    ensures Alive(log[..|log| - 1]) && MissRun(log) <= HEARTBEAT_MISS_COUNT && log[|log| - 1] != SendFailed
  {
    var init := log[..|log| - 1];
    assert log[..|log|] == log;
    forall n | 0 <= n <= |init| ensures MissRun(init[..n]) <= HEARTBEAT_MISS_COUNT {
      assert init[..n] == log[..n];
    }
  }

  /** The thread's events for one exchange, up to its next test of the flag. */
  function ExchangeEvents(o: Outcome, first: bool): seq<Event> {
    if first then [Send(true), Receive(o == Answered)] else [Test, Send(true), Receive(o == Answered), Count]
  }

  /** The thread's events for a log of exchanges. */
  function HeartEvents(log: seq<Outcome>): seq<Event> {
    if log == [] then [Connect(true)]
    else
      var init := log[..|log| - 1];
      HeartEvents(init) + ExchangeEvents(log[|log| - 1], init == [])
  }

  /** The user has not answered and the thread is about to send, at first, or to test the flag. */
  function Beating(log: seq<Outcome>, serverOk: bool, missed: nat): State {
    State(Confirming, if log == [] then Sending else Testing, true, serverOk, missed, false, log)
  }

  /** A run read from its front. */
  lemma RunFrom(s: State, e: Event, es: seq<Event>, t: State)
    requires Step(s, e) == Some(t)
    ensures Run(s, [e] + es) == Run(t, es)
  {
    assert ([e] + es)[1..] == es;
  }

  lemma FirstExchangeRuns(s: State, o: Outcome)
    requires s.heart == Sending && s.log == [] && o != SendFailed
    ensures Run(s, ExchangeEvents(o, true)) == Some(Received(s, o == Answered))
  {
    var receive := Receive(o == Answered);
    var t := s.(heart := Receiving);
    assert [Send(true), receive] == [Send(true)] + ([receive] + []);
    RunFrom(s, Send(true), [receive] + [], t);
    RunFrom(t, receive, [], Received(s, o == Answered));
  }

  lemma LaterExchangeRuns(s: State, o: Outcome)
    requires s.heart == Testing && s.loopFlag && s.log != [] && o != SendFailed
    requires Received(s, o == Answered).missed <= HEARTBEAT_MISS_COUNT
    ensures Run(s, ExchangeEvents(o, false)) == Some(Received(s, o == Answered).(heart := Testing))
  {
    var receive := Receive(o == Answered);
    var t, u, v := s.(heart := Sending), s.(heart := Receiving), Received(s, o == Answered);
    assert ExchangeEvents(o, false) == [Test] + ([Send(true)] + ([receive] + ([Count] + [])));
    RunFrom(s, Test, [Send(true)] + ([receive] + ([Count] + [])), t);
    RunFrom(t, Send(true), [receive] + ([Count] + []), u);
    RunFrom(u, receive, [Count] + [], v);
    RunFrom(v, Count, [], v.(heart := Testing));
  }

  /** One exchange that the thread survives. */
  lemma BeatRuns(log: seq<Outcome>, serverOk: bool, missed: nat, o: Outcome)
    requires o != SendFailed && (o == Missed ==> missed < HEARTBEAT_MISS_COUNT)
    ensures Run(Beating(log, serverOk, missed), ExchangeEvents(o, log == [])) ==
            Some(Beating(log + [o], o == Answered, if o == Answered then 0 else missed + 1))
  {
    var s := Beating(log, serverOk, missed);
    if log == [] {
      FirstExchangeRuns(s, o);
    } else {
      LaterExchangeRuns(s, o);
    }
  }

  lemma LastOutcome(log: seq<Outcome>, init: seq<Outcome>, o: Outcome)
    requires log != [] && init == log[..|log| - 1] && o == log[|log| - 1] != SendFailed
    ensures log == init + [o] && (EndsIn(log, Answered) <==> o == Answered)
    ensures MissRun(log) == if o == Answered then 0 else MissRun(init) + 1
  {
  }

  lemma BeatFollows(log: seq<Outcome>, init: seq<Outcome>, o: Outcome)
    requires Alive(log) && log != [] && init == log[..|log| - 1] && o == log[|log| - 1]
    ensures Alive(init)
    ensures Run(Beating(init, EndsIn(init, Answered), MissRun(init)), ExchangeEvents(o, init == [])) ==
            Some(Beating(log, EndsIn(log, Answered), MissRun(log)))
  {
    AliveInit(log);
    LastOutcome(log, init, o);
    assert o == Missed ==> MissRun(init) < HEARTBEAT_MISS_COUNT;
    BeatRuns(init, EndsIn(init, Answered), MissRun(init), o);
    assert Beating(init + [o], o == Answered, if o == Answered then 0 else MissRun(init) + 1) ==
           Beating(log, EndsIn(log, Answered), MissRun(log));
  }

  lemma {:induction false} AliveLogRuns(log: seq<Outcome>)
    requires Alive(log)
    ensures Run(Start(true), HeartEvents(log)) == Some(Beating(log, EndsIn(log, Answered), MissRun(log)))
  {
    if log == [] {
      RunFrom(Start(true), Connect(true), [], Beating([], false, 0));
      assert [Connect(true)] == [Connect(true)] + [];
    } else {
      var init, o := log[..|log| - 1], log[|log| - 1];
      BeatFollows(log, init, o);
      AliveLogRuns(init);
      RunSplits(Start(true), HeartEvents(init), ExchangeEvents(o, init == []));
    }
  }

  /** The user confirms while the thread tests the flag after an answer. */
  const FINISH: seq<Event> := [Confirm(true), ClearFlag, Test, Join, Open(true, false)]

  lemma GateOpens(s: State)
    requires s.main == Joining && s.heart == Done(true) && s.serverOk && s.confirmed
    ensures Run(s, [Join, Open(true, false)]) == Some(s.(main := KeySent))
  {
    var t := s.(main := Cleared);
    assert [Join, Open(true, false)] == [Join] + ([Open(true, false)] + []);
    RunFrom(s, Join, [Open(true, false)] + [], t);
    RunFrom(t, Open(true, false), [], s.(main := KeySent));
  }

  lemma FinishRuns(s: State)
    requires s.main == Confirming && s.heart == Testing && s.serverOk
    ensures Run(s, FINISH) ==
            Some(s.(main := KeySent, heart := Done(true), loopFlag := false, confirmed := true))
  {
    var s1 := s.(main := Closing, confirmed := true);
    var s2 := s1.(main := Joining, loopFlag := false);
    var s3 := s2.(heart := Done(true));
    var last := [Join, Open(true, false)];
    assert FINISH == [Confirm(true)] + ([ClearFlag] + ([Test] + last));
    RunFrom(s, Confirm(true), [ClearFlag] + ([Test] + last), s1);
    RunFrom(s1, ClearFlag, [Test] + last, s2);
    RunFrom(s2, Test, last, s3);
    GateOpens(s3);
  }

  ghost predicate SendsWith(smTag: bool, es: seq<Event>, log: seq<Outcome>) {
    var r := Run(Start(smTag), es);
    r.Some? && r.value.main == KeySent && r.value.log == log
  }

  /** Conversely, every log without four misses in a row that ends in an answer belongs to a run that sends the key. */
  lemma EveryLiveLogSends(log: seq<Outcome>)
    requires Alive(log) && EndsIn(log, Answered)
    ensures SendsWith(true, HeartEvents(log) + FINISH, log)
  {
    AliveLogRuns(log);
    RunSplits(Start(true), HeartEvents(log), FINISH);
    FinishRuns(Beating(log, true, MissRun(log)));
  }

  /**
   The exchange logs after which a key can be sent, over all runs: exactly those that end
   in an answer, never failed to send and never missed more than three in a row.
   */
  lemma SendableLogs(log: seq<Outcome>)
    ensures (exists smTag, es :: SendsWith(smTag, es, log)) <==> Alive(log) && EndsIn(log, Answered)
  {
    if Alive(log) && EndsIn(log, Answered) {
      EveryLiveLogSends(log);
    }
    if smTag, es :| SendsWith(smTag, es, log) {
      var s := Run(Start(smTag), es).value;
      KeyIsGated(smTag, es, s);
      ReachedInv(smTag, es, s);
      forall n | 0 <= n <= |log| ensures MissRun(log[..n]) <= HEARTBEAT_MISS_COUNT {
        if n < |log| {
          WentOn(log, n);
        } else {
          assert log[..n] == log;
        }
      }
    }
  }
}
