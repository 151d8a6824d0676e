/**
 What it means for a session to pass the audit, said of its memory events alone: who may
 touch what when, and that everything made or opened is ended exactly once.
 */
module DecodeChainTrace {
  import opened Wrappers
  import opened DecodeChain
  import opened DecodeChainSafety
  import opened DecodeChainOwnership

  ghost predicate MadeIn(log: seq<Event>, h: nat) {
    exists d: nat :: Made(d, h) in log
  }

  /** The end of object h, which decoder d made: freed by d, lost, or handed over. */
  predicate IsEnd(e: Event, d: nat, h: nat) {
    e == Released(d, h) || e == Lost(d, h) || e == HandedOver(d, h)
  }

  ghost predicate EndedIn(log: seq<Event>, h: nat) {
    exists d: nat :: Released(d, h) in log || Lost(d, h) in log || HandedOver(d, h) in log
  }

  /** Event i is allowed by what happened before it. */
  ghost predicate CleanAt(p: Pool, log: seq<Event>, i: nat)
    requires i < |log|
  {
    var before := log[..i];
    match log[i]
    case Use(d, h) =>
      d < |p.decoders| && ContextFreed(d) !in before && (h == 0 || (MadeIn(before, h) && !EndedIn(before, h)))
    case Made(d, h) =>
      d < |p.decoders| && ContextFreed(d) !in before && h != 0 && !MadeIn(before, h)
    case Released(d, h) =>
      d < |p.decoders| && ContextFreed(d) !in before && Made(d, h) in before && !EndedIn(before, h)
    case Lost(d, h) => Made(d, h) in before && !EndedIn(before, h)
    case HandedOver(d, h) => Made(d, h) in before && !EndedIn(before, h)
    case ContextFreed(d) => d < |p.decoders| && ContextFreed(d) !in before
  }

  /** Every event is allowed, every object made has ended through its maker, and every decoder context is freed. */
  ghost predicate CleanTrace(p: Pool, log: seq<Event>) {
    (forall i :: 0 <= i < |log| ==> CleanAt(p, log, i)) &&
    (forall d: nat, h: nat :: Made(d, h) in log ==> Released(d, h) in log || Lost(d, h) in log || HandedOver(d, h) in log) &&
    (forall d: nat, h: nat :: Lost(d, h) in log ==> d < |p.decoders| && !p.decoders[d].frees) &&
    FreedByCallback(p, log) &&
    forall d: nat :: d < |p.decoders| ==> ContextFreed(d) in log
  }

  /** Only decoders that registered a callback free anything. */
  ghost predicate FreedByCallback(p: Pool, log: seq<Event>) {
    forall d: nat, h: nat :: Released(d, h) in log ==> d < |p.decoders| && p.decoders[d].frees
  }

  // ------------------------------------------------------------ the ledger explained

  ghost predicate ContextsExplained(p: Pool, l: Ledger, log: seq<Event>) {
    forall d: nat :: d in l.contexts <==> d < |p.decoders| && ContextFreed(d) !in log
  }

  ghost predicate MadeExplained(l: Ledger, log: seq<Event>) {
    (forall h: nat :: h in l.made <==> MadeIn(log, h)) &&
    (forall d: nat, e: nat, h: nat :: Made(d, h) in log && Made(e, h) in log ==> d == e)
  }

  ghost predicate LiveExplained(l: Ledger, log: seq<Event>) {
    (forall c :: c in l.live <==> Made(c.maker, c.handle) in log && !EndedIn(log, c.handle)) &&
    (forall d: nat, h: nat :: Released(d, h) in log || Lost(d, h) in log || HandedOver(d, h) in log ==> Made(d, h) in log) &&
    (forall c :: c in l.lost <==> Lost(c.maker, c.handle) in log)
  }

  ghost predicate HandedIn(log: seq<Event>, h: nat) {
    exists d: nat :: HandedOver(d, h) in log
  }

  ghost predicate HandedExplained(l: Ledger, log: seq<Event>) {
    forall h: nat :: h in l.handed <==> HandedIn(log, h)
  }

  ghost predicate Explained(p: Pool, l: Ledger, log: seq<Event>) {
    ContextsExplained(p, l, log) && MadeExplained(l, log) && LiveExplained(l, log) && HandedExplained(l, log)
  }

  lemma HandedGrows(l: Ledger, log: seq<Event>, e: Event)
    requires HandedExplained(l, log) && Post(l, e).Some?
    ensures HandedExplained(Post(l, e).value, log + [e])
  {
    var grown := log + [e];
    forall h: nat ensures h in Post(l, e).value.handed <==> HandedIn(grown, h) {
      if HandedIn(grown, h) {
        var d: nat :| HandedOver(d, h) in grown;
        assert HandedOver(d, h) in log || e == HandedOver(d, h);
      }
      if HandedIn(log, h) {
        var d: nat :| HandedOver(d, h) in log;
        assert HandedOver(d, h) in grown;
      }
      if e.HandedOver? && e.handle == h {
        assert HandedOver(e.d, h) in grown;
      }
    }
  }

  lemma UseExplained(p: Pool, l: Ledger, log: seq<Event>, e: Event)
    requires Explained(p, l, log) && Post(l, e).Some? && (e.Use? || e.ContextFreed?)
    ensures Explained(p, Post(l, e).value, log + [e])
  {
    MembersOf(log, e);
    HandedGrows(l, log, e);
  }

  /** Membership in a longer log. */
  lemma MembersOf(log: seq<Event>, e: Event)
    ensures forall x :: x in log + [e] <==> x in log || x == e
    ensures forall h: nat :: EndedIn(log + [e], h) <==> EndedIn(log, h) || exists d: nat :: IsEnd(e, d, h)
    ensures forall h: nat :: MadeIn(log + [e], h) <==> MadeIn(log, h) || exists d: nat :: e == Made(d, h)
  {
    var grown := log + [e];
    assert forall x :: x in grown <==> x in log || x == e;
    forall h: nat ensures EndedIn(grown, h) <==> EndedIn(log, h) || exists d: nat :: IsEnd(e, d, h) {
      if EndedIn(grown, h) {
        var d :| Released(d, h) in grown || Lost(d, h) in grown || HandedOver(d, h) in grown;
        assert Released(d, h) in log || Lost(d, h) in log || HandedOver(d, h) in log || IsEnd(e, d, h);
      }
      if d :| IsEnd(e, d, h) {
        assert Released(d, h) in grown || Lost(d, h) in grown || HandedOver(d, h) in grown;
      }
      if EndedIn(log, h) {
        var d :| Released(d, h) in log || Lost(d, h) in log || HandedOver(d, h) in log;
        assert Released(d, h) in grown || Lost(d, h) in grown || HandedOver(d, h) in grown;
      }
    }
    forall h: nat ensures MadeIn(grown, h) <==> MadeIn(log, h) || exists d: nat :: e == Made(d, h) {
      if d :| e == Made(d, h) {
        assert Made(d, h) in grown;
      }
      if MadeIn(log, h) {
        var d :| Made(d, h) in log;
        assert Made(d, h) in grown;
      }
    }
  }

  lemma MakingExplained(p: Pool, l: Ledger, log: seq<Event>, d: nat, h: nat)
    requires Explained(p, l, log) && Post(l, Made(d, h)).Some?
    ensures Explained(p, Post(l, Made(d, h)).value, log + [Made(d, h)])
  {
    var e := Made(d, h);
    MembersOf(log, e);
    var m := Post(l, e).value;
    assert !MadeIn(log, h) && !EndedIn(log, h);
    HandedGrows(l, log, e);
    assert MadeExplained(m, log + [e]);
    assert LiveExplained(m, log + [e]);
  }

  lemma EndingLive(l: Ledger, log: seq<Event>, e: Event, d: nat, h: nat)
    requires MadeExplained(l, log) && LiveExplained(l, log) && Post(l, e).Some? && IsEnd(e, d, h)
    ensures LiveExplained(Post(l, e).value, log + [e])
  {
    MembersOf(log, e);
    assert Claim(h, d) in l.live && Made(d, h) in log;
    assert Post(l, e).value.live == l.live - {Claim(h, d)};
  }

  lemma EndingExplained(p: Pool, l: Ledger, log: seq<Event>, e: Event, d: nat, h: nat)
    requires Explained(p, l, log) && Post(l, e).Some? && IsEnd(e, d, h)
    ensures Explained(p, Post(l, e).value, log + [e])
  {
    EndingLive(l, log, e, d, h);
    MembersOf(log, e);
    HandedGrows(l, log, e);
  }

  lemma {:induction false} AuditExplained(p: Pool, log: seq<Event>)
    requires Audit(Opening(p), log).Some?
    ensures Explained(p, Audit(Opening(p), log).value, log)
  {
    if log != [] {
      var front, e := log[..|log| - 1], log[|log| - 1];
      AuditExplained(p, front);
      var l := Audit(Opening(p), front).value;
      assert front + [e] == log;
      match e
      case Use(_, _) => UseExplained(p, l, front, e);
      case ContextFreed(_) => UseExplained(p, l, front, e);
      case Made(d, h) => MakingExplained(p, l, front, d, h);
      case Released(d, h) => EndingExplained(p, l, front, e, d, h);
      case Lost(d, h) => EndingExplained(p, l, front, e, d, h);
      case HandedOver(d, h) => EndingExplained(p, l, front, e, d, h);
    }
  }

  // ------------------------------------------------------------------- the theorem

  lemma AuditPrefix(p: Pool, log: seq<Event>, i: nat)
    requires Audit(Opening(p), log).Some? && i < |log|
    ensures Audit(Opening(p), log[..i]).Some? && Post(Audit(Opening(p), log[..i]).value, log[i]).Some?
  {
    var rest := log[i + 1..];
    assert log == log[..i] + ([log[i]] + rest);
    AuditConcat(Opening(p), log[..i], [log[i]] + rest);
    var l := Audit(Opening(p), log[..i]).value;
    AuditConcat(l, [log[i]], rest);
    AuditOne(l, log[i]);
  }

  lemma PostIsClean(p: Pool, l: Ledger, log: seq<Event>, i: nat)
    requires i < |log| && Explained(p, l, log[..i]) && Post(l, log[i]).Some?
    ensures CleanAt(p, log, i)
  {
    var before := log[..i];
    match log[i]
    case Use(d, h) =>
      if h != 0 {
        var c :| c in l.live && c.handle == h;
        assert Made(c.maker, h) in before;
      }
    case Released(d, h) => assert Claim(h, d) in l.live;
    case Lost(d, h) => assert Claim(h, d) in l.live;
    case HandedOver(d, h) => assert Claim(h, d) in l.live;
    case _ =>
  }

  /** A session that settles its books has a clean trace. */
  lemma SettledIsClean(p: Pool, log: seq<Event>)
    requires Audit(Opening(p), log).Some? && Settled(p, Audit(Opening(p), log).value) && FreedByCallback(p, log)
    ensures CleanTrace(p, log)
    ensures forall h: nat :: h in Audit(Opening(p), log).value.handed <==> HandedIn(log, h)
  {
    var l := Audit(Opening(p), log).value;
    forall i | 0 <= i < |log| ensures CleanAt(p, log, i) {
      AuditPrefix(p, log, i);
      AuditExplained(p, log[..i]);
      PostIsClean(p, Audit(Opening(p), log[..i]).value, log, i);
    }
    AuditExplained(p, log);
    forall d: nat, h: nat | Made(d, h) in log
      ensures Released(d, h) in log || Lost(d, h) in log || HandedOver(d, h) in log
    {
      assert Claim(h, d) !in l.live;
      assert EndedIn(log, h);
      var e :| Released(e, h) in log || Lost(e, h) in log || HandedOver(e, h) in log;
      assert Made(e, h) in log;
    }
    forall d: nat, h: nat | Lost(d, h) in log ensures d < |p.decoders| && !p.decoders[d].frees {
      assert Claim(h, d) in l.lost;
    }
    forall d: nat | d < |p.decoders| ensures ContextFreed(d) in log {
      assert d !in l.contexts;
    }
  }

  // ------------------------------------------------------------------ the callbacks

  lemma {:induction false} RunFrees(p: Pool, s: Search)
    requires WellFormed(p, s) && FreedByCallback(p, s.log)
    ensures WellFormed(p, Run(p, s).1) && FreedByCallback(p, Run(p, s).1.log)
    decreases |p.decoders| - Count(s.states, Success), |s.path|, Count(s.states, Untried)
  {
    if s.path != [] {
      AdvanceKeepsWellFormed(p, s);
      AdvanceFrees(p, s);
      match Advance(p, s)
      case Halt(_, _) =>
      case Continue(next) =>
        AdvanceDecreases(p, s);
        RunFrees(p, next);
    }
  }

  lemma AdvanceFrees(p: Pool, s: Search)
    requires WellFormed(p, s) && s.path != [] && FreedByCallback(p, s.log)
    ensures FreedByCallback(p, After(Advance(p, s)).log)
  {
    match FirstUsable(p, s.states, s.path[|s.path| - 1].inLabel, 0)
    case None => BacktrackFrees(p, s);
    case Some(d) => AttemptFrees(p, s, d);
  }

  lemma FreeingFrees(p: Pool, log: seq<Event>, d: Option<nat>, data: Option<Object>)
    requires (d.Some? ==> d.value < |p.decoders|) && FreedByCallback(p, log)
    ensures FreedByCallback(p, log + FreeOut(p, d, data))
  {
  }

  lemma BacktrackFrees(p: Pool, s: Search)
    requires WellFormed(p, s) && s.path != [] && FreedByCallback(p, s.log)
    ensures FreedByCallback(p, Backtrack(p, s).log)
  {
    var top := |s.path| - 1;
    var tail := s.path[top];
    if top == 0 {
      FreeingFrees(p, s.log, tail.decoder, tail.outData);
    } else {
      var prev := s.path[top - 1];
      FreeingFrees(p, s.log, prev.decoder, prev.outData);
      FreeingFrees(p, s.log + FreeOut(p, prev.decoder, prev.outData), tail.decoder, tail.outData);
    }
  }

  lemma AttemptFrees(p: Pool, s: Search, d: nat)
    requires WellFormed(p, s) && s.path != [] && d < |s.states| && FreedByCallback(p, s.log)
    ensures FreedByCallback(p, After(Attempt(p, s, d)).log)
  {
    AttemptLogs(p, s, d);
    var used := s.log + [Use(d, s.path[|s.path| - 1].inData.handle)];
    var made := used + [Made(d, s.calls + 1)];
    assert FreedByCallback(p, used) && FreedByCallback(p, made);
    match p.world(s.calls + 1, d, s.path[|s.path| - 1].inData.content)
    case Refused =>
    case Decoded(_, _) =>
    case Unlabelled(out, _) => FreeingFrees(p, made, Some(d), Some(Object(s.calls + 1, out)));
    case Unplaced(out, _, _) => FreeingFrees(p, made, Some(d), Some(Object(s.calls + 1, out)));
  }

  lemma {:induction false} FlagsFree(p: Pool, s: Search, flags: seq<bool>)
    requires WellFormed(p, s) && FreedByCallback(p, s.log)
    ensures WellFormed(p, SetFlags(s, flags)) && FreedByCallback(p, SetFlags(s, flags).log)
  {
    if flags != [] {
      FlagsFree(p, s, flags[..|flags| - 1]);
    }
  }

  lemma {:induction false} PathFrees(p: Pool, path: seq<Node>)
    requires forall i :: 0 <= i < |path| ==> path[i].decoder.Some? ==> path[i].decoder.value < |p.decoders|
    ensures FreedByCallback(p, FreePath(p, path))
  {
    if path != [] {
      PathFrees(p, path[1..]);
    }
  }

  lemma {:induction false} ContextsFree(p: Pool, from: nat, n: nat)
    requires from <= n
    ensures FreedByCallback(p, FreeContexts(from, n))
    decreases n - from
  {
    if from < n {
      ContextsFree(p, from + 1, n);
    }
  }

  /** A search that gives up has no path left, so there is nothing to hand over. */
  lemma {:induction false} GivingUpEmptiesPath(p: Pool, s: Search)
    requires WellFormed(p, s) && Run(p, s).0 == NoUsableDecoder
    ensures Run(p, s).1.path == []
    decreases |p.decoders| - Count(s.states, Success), |s.path|, Count(s.states, Untried)
  {
    if s.path != [] {
      AdvanceKeepsWellFormed(p, s);
      AdvanceDecreases(p, s);
      GivingUpEmptiesPath(p, Advance(p, s).next);
    }
  }

  /** In a whole session an output is freed only through a registered callback. */
  lemma SessionFrees(p: Pool, stored: bool, flags: seq<bool>)
    ensures var t := SetFlags(Ended(p, stored), flags); WellFormed(p, t) && FreedByCallback(p, Close(p, t))
  {
    RunFrees(p, Start(p));
    FlagsFree(p, Ended(p, stored), flags);
    PathFrees(p, SetFlags(Ended(p, stored), flags).path);
    ContextsFree(p, 0, |p.decoders|);
  }

  // -------------------------------------------------------------------- the commands

  /**
   After any flag commands the next one is accepted exactly when the decode left a path and
   its result, if it was decoded, has not been handed over.
   */
  lemma FlagAnswers(p: Pool, s: Search, flags: seq<bool>, free: bool)
    requires PathOk(p, s)
    ensures SetFlag(SetFlags(s, flags), free).0 <==> s.path != [] && (|s.path| == 1 || false !in flags)
  {
    FlagsHandOverOnce(p, s, flags);
    if |s.path| > 1 {
      assert LinkedAt(p, s.path, |s.path| - 2);
    }
  }
}
