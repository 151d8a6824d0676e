/**
 The heartbeat gate said of the events of a run alone: what the user, the network and the
 threads did, not what the program remembers of it.
 */
module HeartbeatEvents {
  import opened Wrappers
  import opened Heartbeat

  /** The exchanges of a run, read off its events. */
  function Exchanges(es: seq<Event>): seq<Outcome> {
    if es == [] then []
    else
      var rest := Exchanges(es[1..]);
      match es[0]
      case Send(ok) => if ok then rest else [SendFailed] + rest
      case Receive(ok) => (if ok then [Answered] else [Missed]) + rest
      case _ => rest
  }

  predicate IsHeartEvent(e: Event) {
    e.Send? || e.Receive? || e.Count? || e.Test?
  }

  /** The events of the main thread. */
  function MainEvents(es: seq<Event>): seq<Event> {
    if es == [] then []
    else if IsHeartEvent(es[0]) then MainEvents(es[1..])
    else [es[0]] + MainEvents(es[1..])
  }

  /** What the program logs is what happened. */
  lemma {:induction false} LogIsExchanges(s: State, es: seq<Event>)
    requires Run(s, es).Some?
    ensures Run(s, es).value.log == s.log + Exchanges(es)
    decreases |es|
  {
    if es == [] {
      assert s.log + [] == s.log;
    } else {
      var t := Step(s, es[0]).value;
      LogIsExchanges(t, es[1..]);
      StepLogs(s, es[0]);
      var one, rest := Logged(es[0]), Exchanges(es[1..]);
      assert s.log + one + rest == s.log + (one + rest);
      assert [] + rest == rest;
    }
  }

  function Logged(e: Event): seq<Outcome> {
    match e
    case Send(ok) => if ok then [] else [SendFailed]
    case Receive(ok) => if ok then [Answered] else [Missed]
    case _ => []
  }

  lemma StepLogs(s: State, e: Event)
    requires Step(s, e).Some?
    ensures Step(s, e).value.log == s.log + Logged(e)
  {
    assert s.log + [] == s.log;
  }

  // -------------------------------------------------------------- the main thread

  /** The five things the main thread does, in this order, in a run that sends the key. */
  const SENDING: seq<Event> := [Connect(true), Confirm(true), ClearFlag, Join, Open(true, false)]

  /** How many of them the main thread has done; None when it will never send the key. */
  function Progress(s: State): (n: Option<nat>)
    ensures n.Some? ==> n.value <= 5
  {
    match s.main
    case Connecting => Some(0)
    case Confirming => Some(1)
    case Closing => if s.confirmed then Some(2) else None
    case Joining => if s.confirmed then Some(3) else None
    case Cleared => Some(4)
    case KeySent => Some(5)
    case _ => None
  }

  /** The thread's steps change nothing about that; a step of the main thread that keeps the key within reach is the next one due. */
  lemma StepProgress(s: State, e: Event)
    requires Step(s, e).Some? && Progress(Step(s, e).value).Some?
    ensures Progress(s).Some?
    ensures var n, m := Progress(s).value, Progress(Step(s, e).value).value;
            if IsHeartEvent(e) then m == n else m == n + 1 && e == SENDING[n]
  {
  }

  lemma {:induction false} RunProgress(s: State, es: seq<Event>)
    requires Run(s, es).Some? && Progress(Run(s, es).value).Some?
    ensures Progress(s).Some?
    ensures var n, m := Progress(s).value, Progress(Run(s, es).value).value;
            n <= m && MainEvents(es) == SENDING[n..m]
    decreases |es|
  {
    if es != [] {
      RunProgress(Step(s, es[0]).value, es[1..]);
      StepProgress(s, es[0]);
    }
  }

  lemma {:induction false} MainEventIsKept(es: seq<Event>, e: Event)
    requires !IsHeartEvent(e)
    ensures e in es ==> e in MainEvents(es)
    decreases |es|
  {
    if es != [] {
      MainEventIsKept(es[1..], e);
    }
  }

  lemma {:induction false} HeartEventsKeepMain(s: State, es: seq<Event>)
    requires Run(s, es).Some? && MainEvents(es) == []
    ensures Run(s, es).value.main == s.main
    decreases |es|
  {
    if es != [] {
      HeartEventsKeepMain(Step(s, es[0]).value, es[1..]);
    }
  }

  lemma OpenStepSends(s: State, e: Event)
    requires Step(s, e).Some? && s.main != Plain
    ensures Step(s, e).value.main != Plain
    ensures e == Open(true, false) ==> Step(s, e).value.main == KeySent
  {
  }

  /** Opening the key connection, without the early exit, is what sends the key. */
  lemma {:induction false} OpeningSends(s: State, es: seq<Event>)
    requires Run(s, es).Some? && s.main != Plain
    requires var m := MainEvents(es); m != [] && m[|m| - 1] == Open(true, false)
    ensures Run(s, es).value.main == KeySent
    decreases |es|
  {
    var t := Step(s, es[0]).value;
    OpenStepSends(s, es[0]);
    if MainEvents(es[1..]) == [] {
      assert es[0] == Open(true, false);
      HeartEventsKeepMain(t, es[1..]);
    } else {
      OpeningSends(t, es[1..]);
    }
  }

  // ------------------------------------------------------------------ the theorems

  /**
   A run has sent the key exactly when, under smTag, the main thread connected, got a yes
   from the user, cleared the flag, joined the thread and opened the key connection without
   the early exit, and did nothing else.
   */
  lemma KeyIsSentBy(smTag: bool, es: seq<Event>, s: State)
    requires Run(Start(smTag), es) == Some(s)
    ensures s.main == KeySent <==> smTag && MainEvents(es) == SENDING
  {
    if s.main == KeySent {
      RunProgress(Start(smTag), es);
    } else if smTag && MainEvents(es) == SENDING {
      OpeningSends(Start(smTag), es);
    }
  }

  /** And then every exchange was sent and the last one answered. */
  lemma KeyNeedsAnswer(smTag: bool, es: seq<Event>, s: State)
    requires Run(Start(smTag), es) == Some(s) && s.main == KeySent
    ensures EndsIn(Exchanges(es), Answered) && SendFailed !in Exchanges(es)
  {
    KeyIsGated(smTag, es, s);
    LogIsExchanges(Start(smTag), es);
    assert [] + Exchanges(es) == Exchanges(es);
  }

  /** A refusal, a failed or abandoned connection: the key is not sent, nor the gate opened after a refusal, however the run goes on. */
  lemma RefusalIsFinal(smTag: bool, es: seq<Event>, s: State)
    requires Run(Start(smTag), es) == Some(s)
    ensures Confirm(false) in es || Connect(false) in es ==> s.main != Cleared && s.main != KeySent
    ensures forall ok, prexit :: Open(ok, prexit) in es && (!ok || prexit) ==> s.main != KeySent
  {
    if s.main == Cleared || s.main == KeySent {
      DoneIsDue(smTag, es, s, Confirm(false));
      DoneIsDue(smTag, es, s, Connect(false));
    }
    forall ok, prexit | Open(ok, prexit) in es && (!ok || prexit) ensures s.main != KeySent {
      if s.main == KeySent {
        DoneIsDue(smTag, es, s, Open(ok, prexit));
        assert false;
      }
    }
  }

  /** Once past the gate the main thread has done nothing but what sends the key. */
  lemma DoneIsDue(smTag: bool, es: seq<Event>, s: State, e: Event)
    requires Run(Start(smTag), es) == Some(s) && (s.main == Cleared || s.main == KeySent) && !IsHeartEvent(e)
    ensures e in es ==> e in SENDING
  {
    RunProgress(Start(smTag), es);
    MainEventIsKept(es, e);
  }

  /** At the join: the gate opens exactly if the user said yes and the last exchange of the run was answered. */
  lemma GateFollowsEvents(smTag: bool, es: seq<Event>, s: State)
    requires Run(Start(smTag), es) == Some(s) && s.main == Joining && s.heart.Done?
    ensures Step(s, Join).Some?
    ensures Step(s, Join).value.main == Cleared <==> Confirm(true) in es && EndsIn(Exchanges(es), Answered)
  {
    JoinDecides(smTag, es, s);
    LogIsExchanges(Start(smTag), es);
    assert [] + Exchanges(es) == Exchanges(es);
    ConfirmedIsYes(Start(smTag), es);
  }

  /** What the program remembers as the user's answer is the answer. */
  lemma {:induction false} ConfirmedIsYes(s: State, es: seq<Event>)
    requires Run(s, es).Some? && (s.confirmed ==> s.main !in {Connecting, Confirming})
    ensures Run(s, es).value.confirmed <==> s.confirmed || Confirm(true) in es
    decreases |es|
  {
    if es != [] {
      ConfirmedIsYes(Step(s, es[0]).value, es[1..]);
    }
  }
}
