/**
 What the decoder-chain search never does, for any decoders: return an object that
 is not the composition of distinct fitting decoders on the input, grow the path
 beyond one node per decoder, or make more than n(n+1)/2 decode calls.
 */
module DecodeChainSafety {
  import opened Wrappers
  import opened DecodeChain

  // --------------------------------------------------------------- chains

  /** One decoder applied in one decode call. */
  datatype Link = Link(decoder: nat, call: nat)

  /** The label and content reached from the pool's input by applying the links in order. */
  function Follow(p: Pool, chain: seq<Link>): Option<(Label, Content)> {
    if chain == [] then Some((p.input, p.data))
    else
      var link := chain[|chain| - 1];
      match Follow(p, chain[..|chain| - 1])
      case None => None
      case Some((tag, content)) =>
        if link.decoder < |p.decoders| && Fits(p.decoders[link.decoder], tag) then
          match p.world(link.call, link.decoder, content)
          case Decoded(out, outTag) => Some((outTag, out))
          case _ => None
        else None
  }

  ghost predicate DistinctDecoders(chain: seq<Link>) {
    forall i, j :: 0 <= i < j < |chain| ==> chain[i].decoder != chain[j].decoder
  }

  ghost predicate InCallOrder(chain: seq<Link>) {
    forall i, j :: 0 <= i < j < |chain| ==> chain[i].call < chain[j].call
  }

  // ------------------------------------------------------- the path invariant

  /** Node i made node i + 1: its decoder fits, ran on its data, and its output is the next input. */
  ghost predicate LinkedAt(p: Pool, path: seq<Node>, i: nat)
    requires i + 1 < |path|
  {
    var a, b := path[i], path[i + 1];
    a.decoder.Some? && a.decoder.value < |p.decoders| &&
    Fits(p.decoders[a.decoder.value], a.inLabel) &&
    a.outData == Some(b.inData) &&
    a.inData.handle < b.inData.handle &&
    p.world(b.inData.handle, a.decoder.value, a.inData.content) == Decoded(b.inData.content, b.inLabel)
  }

  /** The decoder of node i has succeeded. */
  ghost predicate SpentAt(s: Search, i: nat)
    requires i < |s.path|
  {
    s.path[i].decoder.Some? && s.path[i].decoder.value < |s.states| && s.states[s.path[i].decoder.value] == Success
  }

  ghost predicate Linked(p: Pool, path: seq<Node>) {
    forall i {:trigger LinkedAt(p, path, i)} :: 0 <= i < |path| - 1 ==> LinkedAt(p, path, i)
  }

  /** Nodes i and j have been decoded by different decoders. */
  ghost predicate ApartAt(path: seq<Node>, i: nat, j: nat)
    requires i < |path| && j < |path|
  {
    path[i].decoder != path[j].decoder
  }

  ghost predicate PathOk(p: Pool, s: Search) {
    WellFormed(p, s) && Linked(p, s.path) &&
    (forall i {:trigger SpentAt(s, i)} :: 0 <= i < |s.path| - 1 ==> SpentAt(s, i)) &&
    (forall i, j {:trigger ApartAt(s.path, i, j)} :: 0 <= i < j < |s.path| - 1 ==> ApartAt(s.path, i, j)) &&
    (s.path != [] ==>
       s.path[0].inLabel == p.input && s.path[0].inData == Object(0, p.data) &&
       s.path[|s.path| - 1].outData == None && s.path[|s.path| - 1].inData.handle <= s.calls)
  }

  ghost function After(g: Progress): Search {
    match g
    case Halt(_, t) => t
    case Continue(t) => t
  }

  lemma PathOkRetouched(p: Pool, s: Search, t: Search, node: Node)
    requires PathOk(p, s) && s.path != [] && WellFormed(p, t)
    requires t.path == s.path[|s.path| - 1 := node] && s.calls <= t.calls
    requires node.outData == None
    requires node.inLabel == s.path[|s.path| - 1].inLabel && node.inData == s.path[|s.path| - 1].inData
    requires forall e :: 0 <= e < |s.states| && s.states[e] == Success ==> t.states[e] == Success
    ensures PathOk(p, t)
  {
    forall i | 0 <= i < |t.path| - 1
      ensures LinkedAt(p, t.path, i) && SpentAt(t, i)
    {
      assert LinkedAt(p, s.path, i) && SpentAt(s, i);
    }
    forall i, j | 0 <= i < j < |t.path| - 1 ensures ApartAt(t.path, i, j) {
      assert ApartAt(s.path, i, j);
    }
  }

  lemma PathOkGrown(p: Pool, s: Search, t: Search, d: nat, a: Node, b: Node)
    requires PathOk(p, s) && s.path != [] && WellFormed(p, t)
    requires d < |s.states| && s.states[d] == Untried && t.states == s.states[d := Success]
    requires t.path == s.path[..|s.path| - 1] + [a, b]
    requires a.decoder == Some(d) && b.outData == None && b.inData.handle == t.calls
    requires a.inLabel == s.path[|s.path| - 1].inLabel && a.inData == s.path[|s.path| - 1].inData
    requires LinkedAt(p, [a, b], 0)
    ensures PathOk(p, t)
  {
    var top := |s.path| - 1;
    assert t.path[top] == a && t.path[top + 1] == b && [a, b][0] == a && [a, b][1] == b;
    forall i | 0 <= i < top ensures LinkedAt(p, t.path, i) && SpentAt(t, i) {
      assert LinkedAt(p, s.path, i) && SpentAt(s, i);
    }
    assert LinkedAt(p, t.path, top) && SpentAt(t, top);
    forall i, j | 0 <= i < j < |t.path| - 1 ensures ApartAt(t.path, i, j) {
      if j < top {
        assert ApartAt(s.path, i, j);
      } else {
        assert SpentAt(s, i);
      }
    }
  }

  lemma PathOkExtends(p: Pool, s: Search, d: nat)
    requires PathOk(p, s) && s.path != [] && d < |s.states|
    requires Usable(p, s.states, s.path[|s.path| - 1].inLabel, d)
    ensures PathOk(p, After(Attempt(p, s, d)))
  {
    var t := After(Attempt(p, s, d));
    if p.world(s.calls + 1, d, s.path[|s.path| - 1].inData.content).Decoded? {
      var top := |s.path| - 1;
      assert t.path == s.path[..top] + [t.path[top], t.path[top + 1]];
      PathOkGrown(p, s, t, d, t.path[top], t.path[top + 1]);
    } else {
      PathOkRetouched(p, s, t, t.path[|s.path| - 1]);
    }
  }

  /** An attempt changes the state of one decoder and, below the tail, nothing of the path. */
  ghost predicate Resembles(s: Search, t: Search, d: nat) {
    s.path != [] && d < |s.states| == |t.states| && |s.path| <= |t.path| &&
    var top := |s.path| - 1;
    t.states == s.states[d := t.states[d]] &&
    t.path[..top] == s.path[..top] &&
    t.path[top].inLabel == s.path[top].inLabel && t.path[top].inData == s.path[top].inData
  }

  lemma AttemptResembles(p: Pool, s: Search, d: nat)
    requires WellFormed(p, s) && s.path != [] && d < |s.states|
    ensures Resembles(s, After(Attempt(p, s, d)), d)
  {
  }

  lemma PathOkPops(p: Pool, s: Search)
    requires PathOk(p, s) && s.path != []
    ensures PathOk(p, Backtrack(p, s))
  {
    var t := Backtrack(p, s);
    forall i | 0 <= i < |t.path| - 1
      ensures LinkedAt(p, t.path, i) && SpentAt(t, i)
    {
      assert LinkedAt(p, s.path, i) && SpentAt(s, i);
    }
    forall i, j | 0 <= i < j < |t.path| - 1 ensures ApartAt(t.path, i, j) {
      assert ApartAt(s.path, i, j);
    }
    if |s.path| > 1 {
      assert LinkedAt(p, s.path, |s.path| - 2);
    }
  }

  /** Every turn of the loop, whatever the decoders answer, keeps the path a genuine derivation. */
  lemma PathOkAdvances(p: Pool, s: Search)
    requires PathOk(p, s) && s.path != []
    ensures PathOk(p, After(Advance(p, s)))
  {
    match FirstUsable(p, s.states, s.path[|s.path| - 1].inLabel, 0)
    case None => PathOkPops(p, s);
    case Some(d) => PathOkExtends(p, s, d);
  }

  /** What the search finds is the input of the tail, labelled as the target. */
  ghost predicate FoundAtTail(p: Pool, outcome: Outcome, t: Search) {
    outcome.Found? ==>
      t.path != [] && outcome.item == t.path[|t.path| - 1].inData &&
      SameLabel(t.path[|t.path| - 1].inLabel, p.target)
  }

  lemma HaltsAtTail(p: Pool, s: Search)
    requires WellFormed(p, s) && s.path != [] && Advance(p, s).Halt?
    ensures FoundAtTail(p, Advance(p, s).outcome, Advance(p, s).last)
  {
  }

  lemma {:induction false} RunKeepsPath(p: Pool, s: Search)
    requires PathOk(p, s)
    ensures PathOk(p, Run(p, s).1) && FoundAtTail(p, Run(p, s).0, Run(p, s).1)
    decreases |p.decoders| - Count(s.states, Success), |s.path|, Count(s.states, Untried)
  {
    if s.path != [] {
      PathOkAdvances(p, s);
      match Advance(p, s)
      case Halt(_, _) =>
        HaltsAtTail(p, s);
      case Continue(next) =>
        AdvanceDecreases(p, s);
        RunKeepsPath(p, next);
    }
  }

  lemma StartIsOk(p: Pool)
    ensures PathOk(p, Start(p))
  {
  }

  // ------------------------------------------------------------------ soundness

  /** The decode call by which node i made node i + 1. */
  ghost function LinkOf(path: seq<Node>, i: nat): Link
    requires i + 1 < |path|
  {
    Link(if path[i].decoder.Some? then path[i].decoder.value else 0, path[i + 1].inData.handle)
  }

  ghost function ChainOf(path: seq<Node>): (chain: seq<Link>)
    requires path != []
    ensures |chain| == |path| - 1
    ensures forall i :: 0 <= i < |chain| ==> chain[i] == LinkOf(path, i)
  {
    seq(|path| - 1, i requires 0 <= i < |path| - 1 => LinkOf(path, i))
  }

  lemma {:induction false} FollowPath(p: Pool, s: Search, k: nat)
    requires PathOk(p, s) && k < |s.path|
    ensures Follow(p, ChainOf(s.path)[..k]) == Some((s.path[k].inLabel, s.path[k].inData.content))
  {
    var chain := ChainOf(s.path);
    if k > 0 {
      FollowPath(p, s, k - 1);
      assert LinkedAt(p, s.path, k - 1);
      assert chain[..k][..k - 1] == chain[..k - 1];
    }
  }

  lemma {:induction false} HandlesIncrease(p: Pool, path: seq<Node>, i: nat, j: nat)
    requires i < j < |path|
    requires Linked(p, path)
    ensures path[i].inData.handle < path[j].inData.handle
    decreases j
  {
    assert LinkedAt(p, path, j - 1);
    if i < j - 1 {
      HandlesIncrease(p, path, i, j - 1);
    }
  }

  lemma {:induction false} DistinctFit(used: seq<nat>, n: nat)
    requires forall i :: 0 <= i < |used| ==> used[i] < n
    requires forall i, j :: 0 <= i < j < |used| ==> used[i] != used[j]
    ensures |used| <= n
  {
    assert |used| > 0 ==> used[0] < n;
    if n == 0 {
    } else if k :| 0 <= k < |used| && used[k] == n - 1 {
      DistinctFit(used[..k] + used[k + 1..], n - 1);
    } else {
      DistinctFit(used, n - 1);
    }
  }

  /**
   Soundness.  A successful search returns the result of applying a chain of pairwise
   distinct decoders to the input, in the order of their calls, each fitting the label
   it was applied to, and the label reached is the target up to case.
   */
  lemma Soundness(p: Pool) returns (chain: seq<Link>)
    requires Decode(p).0.Found?
    ensures DistinctDecoders(chain) && InCallOrder(chain) && |chain| <= |p.decoders|
    ensures Follow(p, chain).Some?
    ensures SameLabel(Follow(p, chain).value.0, p.target)
    ensures Decode(p).0.item.content == Follow(p, chain).value.1
    ensures Decode(p).0.item.handle == if chain == [] then 0 else chain[|chain| - 1].call
  {
    StartIsOk(p);
    RunKeepsPath(p, Start(p));
    var t := Decode(p).1;
    chain := ChainOf(t.path);
    FollowPath(p, t, |t.path| - 1);
    assert chain[..|t.path| - 1] == chain;
    ChainIsSimple(p, t);
    DistinctFit(seq(|chain|, i requires 0 <= i < |chain| => chain[i].decoder), |p.decoders|);
  }

  lemma ChainIsSimple(p: Pool, s: Search)
    requires PathOk(p, s) && s.path != []
    ensures var chain := ChainOf(s.path);
            DistinctDecoders(chain) && InCallOrder(chain) &&
            forall i :: 0 <= i < |chain| ==> chain[i].decoder < |p.decoders|
  {
    var chain := ChainOf(s.path);
    forall i, j | 0 <= i < j < |chain|
      ensures chain[i].call < chain[j].call && chain[i].decoder != chain[j].decoder
    {
      assert SpentAt(s, i) && SpentAt(s, j) && ApartAt(s.path, i, j);
      HandlesIncrease(p, s.path, i + 1, j + 1);
    }
    forall i | 0 <= i < |chain| ensures chain[i].decoder < |p.decoders| {
      assert SpentAt(s, i);
    }
  }

  // ------------------------------------------------------------------------ cost

  /** How often the path has been popped: every success pushes one node. */
  ghost function Pops(s: Search): int {
    Count(s.states, Success) + 1 - |s.path|
  }

  /**
   Twice the number of calls so far is at most 2(n - untried) plus 2(n - i) for the
   i-th pop: a decoder that failed since the last pop is neither untried nor a success,
   and the i-th pop leaves at least i decoders successful.
   */
  ghost predicate CallsBounded(p: Pool, s: Search) {
    WellFormed(p, s) &&
    var n := |p.decoders|;
    0 <= Pops(s) &&
    2 * s.calls <= n * (n + 1) &&
    (s.path != [] ==>
       2 * s.calls <= 2 * (n - Count(s.states, Untried)) + Pops(s) * (2 * n - Pops(s) - 1))
  }

  lemma BoundPeaks(n: nat, pops: nat)
    requires pops <= n
    ensures pops * (2 * n - pops - 1) <= n * (n - 1)
  {
    var left: int := n - pops;
    assert left * (left - 1) >= 0;
    calc {
      n * (n - 1) - pops * (2 * n - pops - 1);
      (pops + left) * (pops + left - 1) - pops * (pops + 2 * left - 1);
      left * (left - 1);
    }
  }

  lemma CallsBoundedAttempt(p: Pool, s: Search, d: nat)
    requires CallsBounded(p, s) && s.path != [] && d < |s.states| && s.states[d] == Untried
    ensures 2 * After(Attempt(p, s, d)).calls <= |p.decoders| * (|p.decoders| + 1)
    ensures Attempt(p, s, d).Continue? ==> CallsBounded(p, Attempt(p, s, d).next)
  {
    var n := |p.decoders|;
    var t := After(Attempt(p, s, d));
    var now := Verdict(p.world(s.calls + 1, d, s.path[|s.path| - 1].inData.content));
    AttemptStates(p, s, d);
    CountUpdate(s.states, d, now, Success);
    CountUpdate(s.states, d, now, Untried);
    CountDisjoint(t.states);
    assert n * (n + 1) == 2 * n + n * (n - 1);
    BoundPeaks(n, Pops(s));
  }

  lemma AttemptStates(p: Pool, s: Search, d: nat)
    requires WellFormed(p, s) && s.path != [] && d < |s.states|
    ensures var t := After(Attempt(p, s, d));
            var reply := p.world(s.calls + 1, d, s.path[|s.path| - 1].inData.content);
            t.states == s.states[d := Verdict(reply)] && t.calls == s.calls + 1 && WellFormed(p, t) &&
            |t.path| == |s.path| + (if reply.Decoded? then 1 else 0)
  {
  }

  lemma PopPaysForFailures(n: int, k: int)
    ensures (k + 1) * (2 * n - (k + 1) - 1) == k * (2 * n - k - 1) + 2 * (n - k - 1)
  {
  }

  lemma CallsBoundedBacktrack(p: Pool, s: Search)
    requires CallsBounded(p, s) && s.path != []
    ensures CallsBounded(p, Backtrack(p, s))
  {
    var t := Backtrack(p, s);
    CountForget(s.states);
    CountDisjoint(s.states);
    assert Pops(t) == Pops(s) + 1;
    PopPaysForFailures(|p.decoders|, Pops(s));
  }

  /** What a search may cost: n(n+1)/2 decode calls and n+1 nodes. */
  ghost predicate Cheap(p: Pool, s: Search) {
    var n := |p.decoders|;
    2 * s.calls <= n * (n + 1) && |s.path| <= n + 1
  }

  lemma BoundedIsCheap(p: Pool, s: Search)
    requires CallsBounded(p, s)
    ensures Cheap(p, s)
  {
    CountDisjoint(s.states);
  }

  lemma AdvanceIsCheap(p: Pool, s: Search)
    requires CallsBounded(p, s) && s.path != []
    ensures Cheap(p, After(Advance(p, s)))
    ensures Advance(p, s).Continue? ==> CallsBounded(p, Advance(p, s).next)
  {
    BoundedIsCheap(p, s);
    match FirstUsable(p, s.states, s.path[|s.path| - 1].inLabel, 0)
    case None =>
      CallsBoundedBacktrack(p, s);
      BoundedIsCheap(p, Backtrack(p, s));
    case Some(d) =>
      CallsBoundedAttempt(p, s, d);
      AttemptStates(p, s, d);
      if Attempt(p, s, d).Continue? {
        BoundedIsCheap(p, Attempt(p, s, d).next);
      }
  }

  /** The state after k turns of the loop, or at its end if that comes first. */
  function StateAt(p: Pool, s: Search, k: nat): Search
    requires WellFormed(p, s)
    decreases k
  {
    if k == 0 || s.path == [] then s
    else
      AdvanceKeepsWellFormed(p, s);
      match Advance(p, s)
      case Halt(_, last) => last
      case Continue(next) => StateAt(p, next, k - 1)
  }

  /** The loop ends in one of these states. */
  lemma {:induction false} EndIsReached(p: Pool, s: Search) returns (k: nat)
    requires WellFormed(p, s)
    ensures StateAt(p, s, k) == Run(p, s).1
    decreases |p.decoders| - Count(s.states, Success), |s.path|, Count(s.states, Untried)
  {
    k := 0;
    if s.path != [] {
      AdvanceKeepsWellFormed(p, s);
      match Advance(p, s)
      case Halt(_, _) =>
        k := 1;
      case Continue(next) =>
        AdvanceDecreases(p, s);
        var rest := EndIsReached(p, next);
        k := rest + 1;
    }
  }

  lemma {:induction false} EveryTurnIsCheap(p: Pool, s: Search, k: nat)
    requires CallsBounded(p, s)
    ensures Cheap(p, StateAt(p, s, k))
    decreases k
  {
    BoundedIsCheap(p, s);
    if k > 0 && s.path != [] {
      AdvanceIsCheap(p, s);
      if Advance(p, s).Continue? {
        EveryTurnIsCheap(p, Advance(p, s).next, k - 1);
      }
    }
  }

  lemma {:induction false} AllUntried(states: seq<DecoderState>)
    requires forall i :: 0 <= i < |states| ==> states[i] == Untried
    ensures Count(states, Success) == 0 && Count(states, Untried) == |states|
  {
    if states != [] {
      AllUntried(states[1..]);
    }
  }

  /**
   Cost.  With n decoders of any kind a decode never holds more than n+1 nodes, at any turn
   of its loop, and makes at most n(n+1)/2 calls.
   */
  lemma Cost(p: Pool, k: nat)
    ensures |StateAt(p, Start(p), k).path| <= |p.decoders| + 1
    ensures StateAt(p, Start(p), k).calls <= |p.decoders| * (|p.decoders| + 1) / 2
    ensures Decode(p).1.calls <= |p.decoders| * (|p.decoders| + 1) / 2
  {
    AllUntried(Start(p).states);
    EveryTurnIsCheap(p, Start(p), k);
    var end := EndIsReached(p, Start(p));
    EveryTurnIsCheap(p, Start(p), end);
  }
}
