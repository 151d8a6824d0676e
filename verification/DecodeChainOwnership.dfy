/**
 Who frees what.  An auditor replays the memory events of a whole session - decode,
 any number of SET_FLAG_FREE_OUT_DATA commands, PoolFreeCtx - and refuses double frees,
 frees by anyone but the maker, reads of dead objects, and any use of a freed decoder.
 Every session of every pool passes, and passes with nothing left alive.
 */
module DecodeChainOwnership {
  import opened Wrappers
  import opened DecodeChain
  import opened DecodeChainSafety

  // ------------------------------------------------------------------ the auditor

  datatype Claim = Claim(handle: nat, maker: nat)

  datatype Ledger = Ledger(
    contexts: set<nat>, made: set<nat>, live: set<Claim>,
    freed: set<nat>, lost: set<Claim>, handed: set<nat>)

  predicate Alive(l: Ledger, h: nat) {
    exists c :: c in l.live && c.handle == h
  }

  /** Enter one event into the ledger; None when the event is a memory error. */
  function Post(l: Ledger, e: Event): Option<Ledger> {
    match e
    case Use(d, h) =>
      if d in l.contexts && (h == 0 || Alive(l, h)) then Some(l) else None
    case Made(d, h) =>
      if d in l.contexts && h != 0 && h !in l.made
      then Some(l.(made := l.made + {h}, live := l.live + {Claim(h, d)})) else None
    case Released(d, h) =>
      if d in l.contexts && Claim(h, d) in l.live
      then Some(l.(live := l.live - {Claim(h, d)}, freed := l.freed + {h})) else None
    case Lost(d, h) =>
      if Claim(h, d) in l.live
      then Some(l.(live := l.live - {Claim(h, d)}, lost := l.lost + {Claim(h, d)})) else None
    case HandedOver(d, h) =>
      if Claim(h, d) in l.live
      then Some(l.(live := l.live - {Claim(h, d)}, handed := l.handed + {h})) else None
    case ContextFreed(d) =>
      if d in l.contexts then Some(l.(contexts := l.contexts - {d})) else None
  }

  function Audit(l: Ledger, log: seq<Event>): Option<Ledger> {
    if log == [] then Some(l)
    else
      match Audit(l, log[..|log| - 1])
      case None => None
      case Some(m) => Post(m, log[|log| - 1])
  }

  lemma {:induction false} AuditConcat(l: Ledger, a: seq<Event>, b: seq<Event>)
    ensures Audit(l, a + b) == match Audit(l, a) case None => None case Some(m) => Audit(m, b)
  {
    if b == [] {
      assert a + b == a;
    } else {
      assert (a + b)[..|a + b| - 1] == a + b[..|b| - 1];
      AuditConcat(l, a, b[..|b| - 1]);
    }
  }

  lemma AuditOne(l: Ledger, e: Event)
    ensures Audit(l, [e]) == Post(l, e)
  {
  }

  function HandleOf(e: Event): Option<nat> {
    match e
    case Use(_, h) => Some(h)
    case Made(_, h) => Some(h)
    case Released(_, h) => Some(h)
    case Lost(_, h) => Some(h)
    case HandedOver(_, h) => Some(h)
    case ContextFreed(_) => None
  }

  /** h has been made and is no longer alive. */
  ghost predicate Gone(l: Ledger, h: nat) {
    h != 0 && h in l.made && !Alive(l, h)
  }

  /** Live objects have been made, each once; an object's end is a free, a loss or a handover. */
  ghost predicate Balanced(l: Ledger) {
    (forall c, d :: c in l.live && d in l.live && c.handle == d.handle ==> c == d) &&
    (forall c :: c in l.live ==> c.handle in l.made && c.handle != 0) &&
    (forall h :: h in l.made <==> Alive(l, h) || h in l.freed || h in l.handed || IsLost(l, h)) &&
    (forall h :: h in l.freed ==> !Alive(l, h) && h !in l.handed && !IsLost(l, h)) &&
    (forall h :: h in l.handed ==> !Alive(l, h) && !IsLost(l, h)) &&
    (forall c :: c in l.lost ==> !Alive(l, c.handle))
  }

  ghost predicate IsLost(l: Ledger, h: nat) {
    exists c :: c in l.lost && c.handle == h
  }

  lemma MakingKeepsBalance(l: Ledger, d: nat, h: nat)
    requires Balanced(l) && Post(l, Made(d, h)).Some?
    ensures Balanced(Post(l, Made(d, h)).value)
  {
  }

  lemma ReleaseKeepsBalance(l: Ledger, d: nat, h: nat)
    requires Balanced(l) && Post(l, Released(d, h)).Some?
    ensures Balanced(Post(l, Released(d, h)).value)
  {
  }

  lemma LossKeepsBalance(l: Ledger, d: nat, h: nat)
    requires Balanced(l) && Post(l, Lost(d, h)).Some?
    ensures Balanced(Post(l, Lost(d, h)).value)
  {
  }

  lemma HandOverKeepsBalance(l: Ledger, d: nat, h: nat)
    requires Balanced(l) && Post(l, HandedOver(d, h)).Some?
    ensures Balanced(Post(l, HandedOver(d, h)).value)
  {
  }

  lemma PostKeepsBalance(l: Ledger, e: Event)
    requires Balanced(l) && Post(l, e).Some?
    ensures Balanced(Post(l, e).value)
  {
    match e
    case Use(_, _) =>
    case ContextFreed(_) =>
    case Made(d, h) => MakingKeepsBalance(l, d, h);
    case Released(d, h) => ReleaseKeepsBalance(l, d, h);
    case Lost(d, h) => LossKeepsBalance(l, d, h);
    case HandedOver(d, h) => HandOverKeepsBalance(l, d, h);
  }

  lemma {:induction false} AuditKeepsBalance(l: Ledger, log: seq<Event>)
    requires Balanced(l) && Audit(l, log).Some?
    ensures Balanced(Audit(l, log).value)
  {
    if log != [] {
      AuditKeepsBalance(l, log[..|log| - 1]);
      PostKeepsBalance(Audit(l, log[..|log| - 1]).value, log[|log| - 1]);
    }
  }

  lemma PostKeepsGone(l: Ledger, e: Event, h: nat)
    requires Gone(l, h) && Post(l, e).Some?
    ensures Gone(Post(l, e).value, h) && HandleOf(e) != Some(h)
  {
  }

  lemma {:induction false} GoneStaysGone(l: Ledger, log: seq<Event>, h: nat)
    requires Gone(l, h) && Audit(l, log).Some?
    ensures Gone(Audit(l, log).value, h)
    ensures forall i :: 0 <= i < |log| ==> HandleOf(log[i]) != Some(h)
  {
    if log != [] {
      var front := log[..|log| - 1];
      GoneStaysGone(l, front, h);
      PostKeepsGone(Audit(l, front).value, log[|log| - 1], h);
      forall i | 0 <= i < |log| ensures HandleOf(log[i]) != Some(h) {
        assert i < |front| ==> log[i] == front[i];
      }
    }
  }

  /** What passing an audit means: once freed, lost or handed over, an object is never touched again. */
  lemma NoUseAfterEnd(l: Ledger, log: seq<Event>, i: nat, j: nat)
    requires Balanced(l) && Audit(l, log).Some? && i < j < |log|
    requires log[i].Released? || log[i].Lost? || log[i].HandedOver?
    ensures HandleOf(log[j]) != Some(log[i].handle)
  {
    var before, after := log[..i], log[i + 1..];
    assert log == before + ([log[i]] + after);
    AuditConcat(l, before, [log[i]] + after);
    var m := Audit(l, before).value;
    AuditKeepsBalance(l, before);
    AuditConcat(m, [log[i]], after);
    AuditOne(m, log[i]);
    assert Gone(Post(m, log[i]).value, log[i].handle);
    GoneStaysGone(Post(m, log[i]).value, after, log[i].handle);
    assert log[j] == after[j - i - 1];
  }

  // ------------------------------------------------------- what the path owns

  function ClaimsOf(node: Node): set<Claim> {
    if node.outData.Some? && node.decoder.Some? then {Claim(node.outData.value.handle, node.decoder.value)} else {}
  }

  function Claims(path: seq<Node>): set<Claim> {
    if path == [] then {} else ClaimsOf(path[0]) + Claims(path[1..])
  }

  lemma {:induction false} ClaimsConcat(a: seq<Node>, b: seq<Node>)
    ensures Claims(a + b) == Claims(a) + Claims(b)
  {
    if a == [] {
      assert a + b == b;
    } else {
      assert (a + b)[1..] == a[1..] + b;
      ClaimsConcat(a[1..], b);
    }
  }

  function Below(n: nat): (r: set<nat>)
    ensures forall d: nat :: d in r <==> d < n
  {
    if n == 0 then {} else Below(n - 1) + {n - 1}
  }

  function Opening(p: Pool): Ledger {
    Ledger(Below(|p.decoders|), {}, {}, {}, {}, {})
  }

  /** The books while the search runs: what is alive is what the path owns. */
  ghost predicate Books(p: Pool, l: Ledger, path: seq<Node>, calls: nat) {
    l.contexts == Below(|p.decoders|) && l.live == Claims(path) && l.handed == {} &&
    (forall h :: h in l.made ==> 0 < h <= calls) &&
    (forall c :: c in l.lost ==> c.maker < |p.decoders| && !p.decoders[c.maker].frees)
  }

  ghost predicate Owns(p: Pool, s: Search) {
    PathOk(p, s) && Audit(Opening(p), s.log).Some? && Books(p, Audit(Opening(p), s.log).value, s.path, s.calls)
  }

  /** What a node's predecessors own was made before the node's own input. */
  lemma {:induction false} ClaimsAreOlder(p: Pool, path: seq<Node>, k: nat)
    requires k < |path|
    requires Linked(p, path)
    ensures forall c :: c in Claims(path[..k]) ==> c.handle <= path[k].inData.handle
  {
    if k > 0 {
      assert LinkedAt(p, path, k - 1);
      ClaimsAreOlder(p, path, k - 1);
      assert path[..k] == path[..k - 1] + [path[k - 1]];
      ClaimsConcat(path[..k - 1], [path[k - 1]]);
    }
  }

  lemma ClaimsAreOld(p: Pool, s: Search)
    requires PathOk(p, s) && s.path != []
    ensures forall c :: c in Claims(s.path) ==> c.handle <= s.calls
  {
    var top := |s.path| - 1;
    ClaimsAreOlder(p, s.path, top);
    assert s.path == s.path[..top] + [s.path[top]];
    ClaimsConcat(s.path[..top], [s.path[top]]);
  }

  lemma {:induction false} TailInputIsOwned(p: Pool, s: Search)
    requires PathOk(p, s) && |s.path| > 1
    ensures var (prev, tail) := (s.path[|s.path| - 2], s.path[|s.path| - 1]);
            prev.decoder.Some? && Claim(tail.inData.handle, prev.decoder.value) in Claims(s.path)
  {
    var k := |s.path| - 2;
    assert LinkedAt(p, s.path, k);
    assert s.path == s.path[..k] + s.path[k..];
    ClaimsConcat(s.path[..k], s.path[k..]);
  }

  lemma FreeOutPosts(p: Pool, l: Ledger, d: nat, o: Object)
    requires d < |p.decoders| && d in l.contexts && Claim(o.handle, d) in l.live
    ensures Audit(l, FreeOut(p, Some(d), Some(o))).Some?
    ensures var m := Audit(l, FreeOut(p, Some(d), Some(o))).value;
            m.live == l.live - {Claim(o.handle, d)} && m.contexts == l.contexts && m.made == l.made &&
            m.handed == l.handed &&
            forall c :: c in m.lost ==> c in l.lost || (c.maker == d && !p.decoders[d].frees)
  {
  }

  /** Popping the tail gives up exactly the claim on its input. */
  lemma PopClaims(p: Pool, path: seq<Node>)
    requires |path| > 1 && path[|path| - 1].outData == None
    requires Linked(p, path)
    ensures var prev := path[|path| - 2];
            prev.decoder.Some? && prev.outData.Some? &&
            var claim := Claim(prev.outData.value.handle, prev.decoder.value);
            claim in Claims(path) &&
            Claims(path[..|path| - 2] + [FreshNode(p, prev.inLabel, prev.inData)]) == Claims(path) - {claim}
  {
    var k := |path| - 2;
    var prev, tail := path[k], path[k + 1];
    assert LinkedAt(p, path, k);
    ClaimsAreOlder(p, path, k);
    assert path == path[..k] + ([prev] + [tail]);
    ClaimsConcat(path[..k], [prev] + [tail]);
    ClaimsConcat([prev], [tail]);
    ClaimsConcat(path[..k], [FreshNode(p, prev.inLabel, prev.inData)]);
  }

  lemma BacktrackOwns(p: Pool, s: Search)
    requires Owns(p, s) && s.path != []
    ensures Owns(p, Backtrack(p, s))
  {
    PathOkPops(p, s);
    if |s.path| == 1 {
      assert Backtrack(p, s).log == s.log;
      assert Claims(s.path) == {};
    } else {
      var prev := s.path[|s.path| - 2];
      PopClaims(p, s.path);
      var freed := FreeOut(p, prev.decoder, prev.outData);
      assert Backtrack(p, s).log == s.log + freed;
      AuditConcat(Opening(p), s.log, freed);
      FreeOutPosts(p, Audit(Opening(p), s.log).value, prev.decoder.value, prev.outData.value);
    }
  }

  /** Decoder d reads the tail's input and makes object number calls + 1. */
  lemma MakingPosts(p: Pool, s: Search, d: nat)
    requires Owns(p, s) && s.path != [] && d < |p.decoders|
    ensures var log := s.log + [Use(d, s.path[|s.path| - 1].inData.handle)];
            Audit(Opening(p), log) == Audit(Opening(p), s.log) &&
            Audit(Opening(p), log + [Made(d, s.calls + 1)]) ==
            (var l := Audit(Opening(p), s.log).value;
             Some(l.(made := l.made + {s.calls + 1}, live := l.live + {Claim(s.calls + 1, d)})))
  {
    var tail := s.path[|s.path| - 1];
    var l := Audit(Opening(p), s.log).value;
    if |s.path| > 1 {
      TailInputIsOwned(p, s);
    }
    AuditConcat(Opening(p), s.log, [Use(d, tail.inData.handle)]);
    AuditOne(l, Use(d, tail.inData.handle));
    AuditConcat(Opening(p), s.log + [Use(d, tail.inData.handle)], [Made(d, s.calls + 1)]);
    AuditOne(l, Made(d, s.calls + 1));
  }

  /** Writing to the tail and pushing a node that owns nothing changes only what the tail owns. */
  lemma TailClaims(path: seq<Node>, node: Node, more: seq<Node>)
    requires path != [] && path[|path| - 1].outData == None
    requires more == [] || (|more| == 1 && more[0].outData == None)
    ensures Claims(path[|path| - 1 := node] + more) == Claims(path) + ClaimsOf(node)
  {
    var front, tail := path[..|path| - 1], path[|path| - 1];
    assert path == front + [tail] && path[|path| - 1 := node] == front + [node];
    ClaimsConcat(front, [tail]);
    ClaimsConcat(front, [node]);
    ClaimsConcat(front + [node], more);
    OneClaim(tail);
    OneClaim(node);
    if more != [] {
      assert more == [more[0]];
      OneClaim(more[0]);
    }
  }

  lemma OneClaim(node: Node)
    ensures Claims([node]) == ClaimsOf(node)
  {
  }

  lemma AttemptLogs(p: Pool, s: Search, d: nat)
    requires WellFormed(p, s) && s.path != [] && d < |s.states|
    ensures var t := After(Attempt(p, s, d));
            var used := s.log + [Use(d, s.path[|s.path| - 1].inData.handle)];
            var made := used + [Made(d, s.calls + 1)];
            t.calls == s.calls + 1 &&
            match p.world(s.calls + 1, d, s.path[|s.path| - 1].inData.content)
            case Refused => t.log == used
            case Decoded(_, _) => t.log == made
            case Unlabelled(out, _) => t.log == made + FreeOut(p, Some(d), Some(Object(s.calls + 1, out)))
            case Unplaced(out, _, _) => t.log == made + FreeOut(p, Some(d), Some(Object(s.calls + 1, out)))
  {
  }

  lemma DiscardOwns(p: Pool, s: Search, d: nat, t: Search, o: Object)
    requires Owns(p, s) && s.path != [] && d < |p.decoders| && PathOk(p, t)
    requires Claims(t.path) == Claims(s.path) && t.calls == s.calls + 1 == o.handle
    requires t.log == s.log + [Use(d, s.path[|s.path| - 1].inData.handle)] + [Made(d, s.calls + 1)]
                      + FreeOut(p, Some(d), Some(o))
    ensures Owns(p, t)
  {
    MakingPosts(p, s, d);
    var log := s.log + [Use(d, s.path[|s.path| - 1].inData.handle)] + [Made(d, s.calls + 1)];
    var l := Audit(Opening(p), s.log).value;
    AuditConcat(Opening(p), log, FreeOut(p, Some(d), Some(o)));
    FreeOutPosts(p, Audit(Opening(p), log).value, d, o);
    assert Claim(o.handle, d) !in l.live by {
      ClaimsAreOld(p, s);
    }
  }

  /** A decoder that refuses leaves the books as they are. */
  lemma RefusalOwns(p: Pool, s: Search, d: nat, t: Search)
    requires Owns(p, s) && s.path != [] && d < |p.decoders| && PathOk(p, t)
    requires Claims(t.path) == Claims(s.path) && t.calls == s.calls + 1
    requires t.log == s.log + [Use(d, s.path[|s.path| - 1].inData.handle)]
    ensures Owns(p, t)
  {
    MakingPosts(p, s, d);
  }

  lemma DecodingOwns(p: Pool, s: Search, d: nat, t: Search)
    requires Owns(p, s) && s.path != [] && d < |p.decoders| && PathOk(p, t)
    requires Claims(t.path) == Claims(s.path) + {Claim(s.calls + 1, d)} && t.calls == s.calls + 1
    requires t.log == s.log + [Use(d, s.path[|s.path| - 1].inData.handle)] + [Made(d, s.calls + 1)]
    ensures Owns(p, t)
  {
    MakingPosts(p, s, d);
  }

  /** An attempt writes to the tail and pushes at most one node, which owns nothing. */
  lemma AttemptPath(p: Pool, s: Search, d: nat) returns (node: Node, more: seq<Node>)
    requires WellFormed(p, s) && s.path != [] && d < |s.states| && s.path[|s.path| - 1].outData == None
    ensures After(Attempt(p, s, d)).path == s.path[|s.path| - 1 := node] + more
    ensures more == [] || (|more| == 1 && more[0].outData == None)
    ensures var made := p.world(s.calls + 1, d, s.path[|s.path| - 1].inData.content).Decoded?;
            ClaimsOf(node) == if made then {Claim(s.calls + 1, d)} else {}
  {
    var path, top := After(Attempt(p, s, d)).path, |s.path| - 1;
    node, more := path[top], path[top + 1..];
  }

  /** An attempt that leaves no object behind leaves the path's claims alone; a decode adds one. */
  lemma AttemptClaims(p: Pool, s: Search, d: nat)
    requires WellFormed(p, s) && s.path != [] && d < |s.states| && s.path[|s.path| - 1].outData == None
    ensures var made := p.world(s.calls + 1, d, s.path[|s.path| - 1].inData.content).Decoded?;
            Claims(After(Attempt(p, s, d)).path) == Claims(s.path) + if made then {Claim(s.calls + 1, d)} else {}
  {
    var node, more := AttemptPath(p, s, d);
    TailClaims(s.path, node, more);
  }

  lemma AttemptOwns(p: Pool, s: Search, d: nat)
    requires Owns(p, s) && s.path != [] && d < |s.states|
    requires Usable(p, s.states, s.path[|s.path| - 1].inLabel, d)
    ensures Owns(p, After(Attempt(p, s, d)))
  {
    PathOkExtends(p, s, d);
    AttemptClaims(p, s, d);
    AttemptLogs(p, s, d);
    var t := After(Attempt(p, s, d));
    match p.world(s.calls + 1, d, s.path[|s.path| - 1].inData.content)
    case Refused => RefusalOwns(p, s, d, t);
    case Decoded(_, _) => DecodingOwns(p, s, d, t);
    case Unlabelled(out, _) => DiscardOwns(p, s, d, t, Object(s.calls + 1, out));
    case Unplaced(out, _, _) => DiscardOwns(p, s, d, t, Object(s.calls + 1, out));
  }

  lemma AdvanceOwns(p: Pool, s: Search)
    requires Owns(p, s) && s.path != []
    ensures Owns(p, After(Advance(p, s)))
  {
    var t := After(Advance(p, s));
    if SameLabel(s.path[|s.path| - 1].inLabel, p.target) {
      assert t == s;
    } else {
      match FirstUsable(p, s.states, s.path[|s.path| - 1].inLabel, 0)
      case None =>
        BacktrackOwns(p, s);
        assert t == Backtrack(p, s);
      case Some(d) =>
        AttemptOwns(p, s, d);
        assert t == After(Attempt(p, s, d));
    }
  }

  lemma {:induction false} RunOwns(p: Pool, s: Search)
    requires Owns(p, s)
    ensures Owns(p, Run(p, s).1)
    decreases |p.decoders| - Count(s.states, Success), |s.path|, Count(s.states, Untried)
  {
    if s.path != [] {
      AdvanceOwns(p, s);
      match Advance(p, s)
      case Halt(_, _) =>
      case Continue(next) =>
        AdvanceDecreases(p, s);
        RunOwns(p, next);
    }
  }

  // ------------------------------------------------------------ the whole session

  /** The pool gives up its claim on the tail's input. */
  function HandOverTail(s: Search): Search
    requires |s.path| > 1
  {
    var k := |s.path| - 2;
    var prev, tail := s.path[k], s.path[k + 1];
    s.(path := s.path[k := prev.(outData := None)],
       log := s.log + if prev.decoder.Some? then [HandedOver(prev.decoder.value, tail.inData.handle)] else [])
  }

  /** The SET_FLAG_FREE_OUT_DATA command; the result says whether it is accepted. */
  function SetFlag(s: Search, free: bool): (bool, Search) {
    if s.path == [] then (false, s)
    else if |s.path| == 1 then (true, s)
    else
      var prev, tail := s.path[|s.path| - 2], s.path[|s.path| - 1];
      if prev.outData.None? || prev.outData.value.handle != tail.inData.handle then (false, s)
      else if free then (true, s)
      else (true, HandOverTail(s))
  }

  function SetFlags(s: Search, flags: seq<bool>): Search {
    if flags == [] then s else SetFlag(SetFlags(s, flags[..|flags| - 1]), flags[|flags| - 1]).1
  }

  function FreePath(p: Pool, path: seq<Node>): seq<Event>
    requires forall i :: 0 <= i < |path| ==> path[i].decoder.Some? ==> path[i].decoder.value < |p.decoders|
  {
    if path == [] then [] else FreeOut(p, path[0].decoder, path[0].outData) + FreePath(p, path[1..])
  }

  function FreeContexts(from: nat, n: nat): seq<Event>
    requires from <= n
    decreases n - from
  {
    if from == n then [] else [ContextFreed(from)] + FreeContexts(from + 1, n)
  }

  /** All memory events of the session once PoolFreeCtx has returned. */
  function Close(p: Pool, s: Search): seq<Event>
    requires WellFormed(p, s)
  {
    s.log + (FreePath(p, s.path) + FreeContexts(0, |p.decoders|))
  }

  /** Nodes i and j do not own the same object. */
  ghost predicate OwnApart(path: seq<Node>, i: nat, j: nat)
    requires i < |path| && j < |path|
  {
    path[i].outData.Some? && path[j].outData.Some? ==>
      path[i].outData.value.handle != path[j].outData.value.handle
  }

  /** A path whose nodes own different objects, each through the decoder that made it. */
  ghost predicate Tidy(p: Pool, path: seq<Node>) {
    (forall i :: 0 <= i < |path| ==>
                   (path[i].outData.Some? ==> path[i].decoder.Some?) &&
                   (path[i].decoder.Some? ==> path[i].decoder.value < |p.decoders|)) &&
    forall i, j {:trigger OwnApart(path, i, j)} :: 0 <= i < j < |path| ==> OwnApart(path, i, j)
  }

  lemma {:induction false} ClaimsComeFromNodes(path: seq<Node>, c: Claim)
    requires c in Claims(path)
    ensures exists i :: 0 <= i < |path| && path[i].outData.Some? && path[i].outData.value.handle == c.handle
  {
    if c in ClaimsOf(path[0]) {
      assert path[0].outData.value.handle == c.handle;
    } else {
      ClaimsComeFromNodes(path[1..], c);
      var i :| 0 <= i < |path[1..]| && path[1..][i].outData.Some? && path[1..][i].outData.value.handle == c.handle;
      assert path[i + 1].outData.value.handle == c.handle;
    }
  }

  lemma RestClaimsDiffer(p: Pool, path: seq<Node>)
    requires Tidy(p, path) && path != [] && path[0].outData.Some?
    ensures forall c :: c in Claims(path[1..]) ==> c.handle != path[0].outData.value.handle
  {
    var rest := path[1..];
    forall c | c in Claims(rest) ensures c.handle != path[0].outData.value.handle {
      ClaimsComeFromNodes(rest, c);
      var i :| 0 <= i < |rest| && rest[i].outData.Some? && rest[i].outData.value.handle == c.handle;
      assert OwnApart(path, 0, i + 1);
    }
  }

  lemma TidyTail(p: Pool, path: seq<Node>)
    requires Tidy(p, path) && path != []
    ensures Tidy(p, path[1..])
  {
    var rest := path[1..];
    forall i, j | 0 <= i < j < |rest| ensures OwnApart(rest, i, j) {
      assert OwnApart(path, i + 1, j + 1);
    }
  }

  lemma {:induction false} FreePathAudits(p: Pool, l: Ledger, path: seq<Node>)
    requires Tidy(p, path) && l.live == Claims(path) && l.contexts == Below(|p.decoders|)
    ensures Audit(l, FreePath(p, path)).Some?
    ensures var m := Audit(l, FreePath(p, path)).value;
            m.live == {} && m.contexts == l.contexts && m.made == l.made && m.handed == l.handed &&
            forall c :: c in m.lost ==> c in l.lost || (c.maker < |p.decoders| && !p.decoders[c.maker].frees)
    decreases |path|
  {
    if path != [] {
      var freed := FreeOut(p, path[0].decoder, path[0].outData);
      AuditConcat(l, freed, FreePath(p, path[1..]));
      if path[0].outData.Some? {
        FreeOutPosts(p, l, path[0].decoder.value, path[0].outData.value);
        RestClaimsDiffer(p, path);
      }
      TidyTail(p, path);
      FreePathAudits(p, Audit(l, freed).value, path[1..]);
    }
  }

  lemma {:induction false} FreeContextsAudits(l: Ledger, from: nat, n: nat)
    requires from <= n && l.contexts == Below(n) - Below(from)
    ensures Audit(l, FreeContexts(from, n)) == Some(l.(contexts := {}))
    decreases n - from
  {
    if from == n {
      assert l.contexts == {};
    } else {
      assert Below(n) - Below(from) - {from} == Below(n) - Below(from + 1);
      AuditConcat(l, [ContextFreed(from)], FreeContexts(from + 1, n));
      AuditOne(l, ContextFreed(from));
      FreeContextsAudits(l.(contexts := l.contexts - {from}), from + 1, n);
    }
  }

  /** One command with something to hand over: it does so once, and has no effect when it is gone. */
  lemma OneFlag(p: Pool, s: Search, free: bool)
    requires PathOk(p, s) && |s.path| > 1
    ensures s.path[|s.path| - 2].decoder.Some?
    ensures SetFlag(s, free).1 == if free then s else HandOverTail(s)
    ensures SetFlag(HandOverTail(s), free).1 == HandOverTail(s)
  {
    assert LinkedAt(p, s.path, |s.path| - 2);
  }

  /** After a run the flag commands hand over at most one object, the tail's input, at most once. */
  lemma {:induction false} FlagsHandOverOnce(p: Pool, s: Search, flags: seq<bool>)
    requires PathOk(p, s)
    ensures |s.path| > 1 ==> s.path[|s.path| - 2].decoder.Some?
    ensures false in flags && |s.path| > 1 ==> SetFlags(s, flags) == HandOverTail(s)
    ensures !(false in flags && |s.path| > 1) ==> SetFlags(s, flags) == s
  {
    if |s.path| > 1 {
      OneFlag(p, s, true);
    }
    if flags != [] {
      var front, last := flags[..|flags| - 1], flags[|flags| - 1];
      FlagsHandOverOnce(p, s, front);
      assert flags == front + [last];
      if |s.path| > 1 {
        OneFlag(p, s, last);
      }
    }
  }

  lemma RunIsTidy(p: Pool, s: Search)
    requires PathOk(p, s)
    ensures Tidy(p, s.path)
  {
    forall i | 0 <= i < |s.path| && s.path[i].outData.Some? ensures s.path[i].decoder.Some? {
      assert SpentAt(s, i);
    }
    forall i, j | 0 <= i < j < |s.path| ensures OwnApart(s.path, i, j) {
      if s.path[i].outData.Some? && s.path[j].outData.Some? {
        assert LinkedAt(p, s.path, i) && LinkedAt(p, s.path, j);
        HandlesIncrease(p, s.path, i + 1, j + 1);
      }
    }
  }

  lemma HandOverClaims(p: Pool, s: Search)
    requires PathOk(p, s) && |s.path| > 1 && s.path[|s.path| - 2].decoder.Some?
    ensures var (k, t) := (|s.path| - 2, HandOverTail(s));
            var claim := Claim(s.path[k + 1].inData.handle, s.path[k].decoder.value);
            claim in Claims(s.path) && Claims(t.path) == Claims(s.path) - {claim}
  {
    PopClaims(p, s.path);
    var k, t := |s.path| - 2, HandOverTail(s);
    assert LinkedAt(p, s.path, k);
    assert t.path == s.path[..k] + ([t.path[k]] + [t.path[k + 1]]);
    ClaimsConcat(s.path[..k], [t.path[k]] + [t.path[k + 1]]);
    ClaimsConcat([t.path[k]], [t.path[k + 1]]);
    ClaimsConcat(s.path[..k], [FreshNode(p, s.path[k].inLabel, s.path[k].inData)]);
  }

  lemma HandOverIsTidy(p: Pool, s: Search)
    requires PathOk(p, s) && |s.path| > 1
    ensures WellFormed(p, HandOverTail(s)) && Tidy(p, HandOverTail(s).path)
  {
    RunIsTidy(p, s);
    var path := HandOverTail(s).path;
    forall i, j | 0 <= i < j < |path| ensures OwnApart(path, i, j) {
      assert OwnApart(s.path, i, j);
    }
  }

  /** Nothing but what the path owns is alive, and its nodes are fit to be freed one by one. */
  ghost predicate Closable(p: Pool, t: Search) {
    WellFormed(p, t) && Tidy(p, t.path) && Audit(Opening(p), t.log).Some? &&
    var l := Audit(Opening(p), t.log).value;
    l.live == Claims(t.path) && l.contexts == Below(|p.decoders|) &&
    forall c :: c in l.lost ==> c.maker < |p.decoders| && !p.decoders[c.maker].frees
  }

  lemma OwnsIsClosable(p: Pool, s: Search)
    requires Owns(p, s)
    ensures Closable(p, s) && Audit(Opening(p), s.log).value.handed == {}
  {
    RunIsTidy(p, s);
  }

  lemma HandOverPosts(p: Pool, s: Search)
    requires Owns(p, s) && |s.path| > 1 && s.path[|s.path| - 2].decoder.Some?
    ensures Closable(p, HandOverTail(s))
    ensures var (l, m) := (Audit(Opening(p), s.log).value, Audit(Opening(p), HandOverTail(s).log).value);
            m.made == l.made && m.handed == {s.path[|s.path| - 1].inData.handle}
  {
    var k, t := |s.path| - 2, HandOverTail(s);
    HandOverIsTidy(p, s);
    HandOverClaims(p, s);
    var e := HandedOver(s.path[k].decoder.value, s.path[k + 1].inData.handle);
    AuditConcat(Opening(p), s.log, [e]);
    AuditOne(Audit(Opening(p), s.log).value, e);
  }

  /** The books once PoolFreeCtx has closed the session. */
  ghost function FinalBooks(p: Pool, t: Search): Option<Ledger> {
    if WellFormed(p, t) then Audit(Opening(p), Close(p, t)) else None
  }

  lemma CloseAudits(p: Pool, t: Search) returns (m: Ledger)
    requires Closable(p, t)
    ensures FinalBooks(p, t) == Some(m) && Balanced(m) && m.live == {} && m.contexts == {}
    ensures m.made == Audit(Opening(p), t.log).value.made && m.handed == Audit(Opening(p), t.log).value.handed
    ensures forall c :: c in m.lost ==> c.maker < |p.decoders| && !p.decoders[c.maker].frees
  {
    var l := Audit(Opening(p), t.log).value;
    var freed, ended := FreePath(p, t.path), FreeContexts(0, |p.decoders|);
    FreePathAudits(p, l, t.path);
    FreeContextsAudits(Audit(l, freed).value, 0, |p.decoders|);
    m := Audit(Audit(l, freed).value, ended).value;
    AuditThrice(Opening(p), t.log, freed, ended);
    AuditKeepsBalance(Opening(p), t.log + (freed + ended));
  }

  lemma AuditThrice(l: Ledger, a: seq<Event>, b: seq<Event>, c: seq<Event>)
    requires Audit(l, a).Some? && Audit(Audit(l, a).value, b).Some?
    ensures Audit(l, a + (b + c)) == Audit(Audit(Audit(l, a).value, b).value, c)
  {
    AuditConcat(l, a, b + c);
    AuditConcat(Audit(l, a).value, b, c);
  }

  lemma StartOwns(p: Pool)
    ensures Owns(p, Start(p))
  {
  }

  /** What the flag commands hand over: the tail's input, if they ask for it and it was decoded. */
  ghost function HandedBy(s: Search, flags: seq<bool>): set<nat> {
    if false in flags && |s.path| > 1 then {s.path[|s.path| - 1].inData.handle} else {}
  }

  /**
   The books of a closed session: no object and no decoder context is alive, every object was
   freed by its maker, handed over, or made by a decoder that registers no callback to free
   outputs, and only one of these.
   */
  ghost predicate Settled(p: Pool, l: Ledger) {
    Balanced(l) && l.live == {} && l.contexts == {} &&
    (forall c :: c in l.lost ==> c.maker < |p.decoders| && !p.decoders[c.maker].frees) &&
    (forall h :: h in l.made <==> h in l.freed || h in l.handed || IsLost(l, h))
  }

  lemma EmptyIsSettled(p: Pool, l: Ledger)
    requires Balanced(l) && l.live == {} && l.contexts == {}
    requires forall c :: c in l.lost ==> c.maker < |p.decoders| && !p.decoders[c.maker].frees
    ensures Settled(p, l)
  {
  }

  lemma CloseSettles(p: Pool, t: Search) returns (l: Ledger)
    requires Closable(p, t)
    ensures FinalBooks(p, t) == Some(l) && Settled(p, l)
    ensures l.made == Audit(Opening(p), t.log).value.made && l.handed == Audit(Opening(p), t.log).value.handed
  {
    l := CloseAudits(p, t);
    EmptyIsSettled(p, l);
  }

  lemma HandOverSettles(p: Pool, s: Search) returns (l: Ledger)
    requires Owns(p, s) && |s.path| > 1 && s.path[|s.path| - 2].decoder.Some?
    ensures FinalBooks(p, HandOverTail(s)) == Some(l) && Settled(p, l)
    ensures l.made == Audit(Opening(p), s.log).value.made && l.handed == {s.path[|s.path| - 1].inData.handle}
  {
    HandOverPosts(p, s);
    l := CloseSettles(p, HandOverTail(s));
  }

  lemma KeepingSettles(p: Pool, s: Search) returns (l: Ledger)
    requires Owns(p, s)
    ensures FinalBooks(p, s) == Some(l) && Settled(p, l)
    ensures l.made == Audit(Opening(p), s.log).value.made && l.handed == {}
  {
    OwnsIsClosable(p, s);
    l := CloseSettles(p, s);
  }

  /** The flag commands and PoolFreeCtx settle the books of whatever the decode has left. */
  lemma ClosingSettles(p: Pool, s: Search, flags: seq<bool>) returns (l: Ledger)
    requires Owns(p, s)
    ensures FinalBooks(p, SetFlags(s, flags)) == Some(l) && Settled(p, l)
    ensures l.made == Audit(Opening(p), s.log).value.made && l.handed == HandedBy(s, flags)
  {
    FlagsHandOverOnce(p, s, flags);
    if false in flags && |s.path| > 1 {
      l := HandOverSettles(p, s);
    } else {
      l := KeepingSettles(p, s);
    }
  }

  /** What PoolDecode leaves: the end of the search, or a pool without a path if there is no decoder or no first node. */
  function Ended(p: Pool, stored: bool): Search {
    if stored && p.decoders != [] then Decode(p).1 else Start(p).(path := [])
  }

  lemma EndedOwns(p: Pool, stored: bool)
    ensures Owns(p, Ended(p, stored))
  {
    StartOwns(p);
    RunOwns(p, Start(p));
  }

  /**
   Ownership over whole sessions.  For every pool, whether or not a search takes place, and
   every sequence of flag commands the session passes the audit and its books are settled; on
   success the result is handed over exactly when it was decoded and some command asked for
   it, nothing else ever is; without a search nothing was made.
   */
  lemma SessionAccounts(p: Pool, stored: bool, flags: seq<bool>) returns (l: Ledger)
    ensures FinalBooks(p, SetFlags(Ended(p, stored), flags)) == Some(l) && Settled(p, l)
    ensures stored && p.decoders != [] && Decode(p).0.Found? ==>
              var h := Decode(p).0.item.handle; l.handed == if false in flags && h != 0 then {h} else {}
    ensures l.handed == HandedBy(Ended(p, stored), flags)
    ensures !stored || p.decoders == [] ==> l.made == {}
  {
    EndedOwns(p, stored);
    l := ClosingSettles(p, Ended(p, stored), flags);
    if Decode(p).0.Found? {
      ResultHandle(p);
    }
  }

  /** The result is the tail's input; it has a handle exactly when something was decoded. */
  lemma ResultHandle(p: Pool)
    requires Decode(p).0.Found?
    ensures var (end, s) := Decode(p);
            s.path != [] && end.item.handle == s.path[|s.path| - 1].inData.handle &&
            (end.item.handle != 0 <==> |s.path| > 1)
  {
    var s := Decode(p).1;
    StartIsOk(p);
    RunKeepsPath(p, Start(p));
    if |s.path| > 1 {
      HandlesIncrease(p, s.path, 0, |s.path| - 1);
    }
  }

  /** The object a successful search returns is alive until the pool is closed. */
  lemma ResultIsAlive(p: Pool)
    requires Decode(p).0.Found?
    ensures Audit(Opening(p), Decode(p).1.log).Some?
    ensures Decode(p).0.item.handle == 0 ||
            Alive(Audit(Opening(p), Decode(p).1.log).value, Decode(p).0.item.handle)
  {
    StartOwns(p);
    RunOwns(p, Start(p));
    RunKeepsPath(p, Start(p));
    if |Decode(p).1.path| > 1 {
      TailInputIsOwned(p, Decode(p).1);
    }
  }
}
