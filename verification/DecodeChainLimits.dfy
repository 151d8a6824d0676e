/**
 Concrete pools on which the search misses a chain that exists, and pools of every
 size on which it makes as many decode calls as the bound allows.
 */
module DecodeChainLimits {
  import opened Wrappers
  import opened DecodeChain
  import opened DecodeChainSafety
  import opened DecodeChainCompleteness

  // ------------------------------------------------------------- single moves

  type Stop = (Label, Content)

  /** The search stands at the end of `stops`, `calls` decode calls into the run. */
  ghost predicate At(p: Pool, s: Search, states: seq<DecoderState>, stops: seq<Stop>, calls: nat) {
    WellFormed(p, s) && s.states == states && s.calls == calls && |s.path| == |stops| &&
    forall i :: 0 <= i < |stops| ==> (s.path[i].inLabel, s.path[i].inData.content) == stops[i]
  }

  /** The decoder that a search with these states picks for a label. */
  function Pick(p: Pool, states: seq<DecoderState>, tag: Label): Option<nat>
    requires |states| == |p.decoders|
  {
    FirstUsable(p, states, tag, 0)
  }

  lemma MoveRefused(p: Pool, s: Search, states: seq<DecoderState>, stops: seq<Stop>, calls: nat, d: nat)
    returns (t: Search)
    requires At(p, s, states, stops, calls) && stops != []
    requires !SameLabel(stops[|stops| - 1].0, p.target)
    requires Pick(p, states, stops[|stops| - 1].0) == Some(d)
    requires p.world(calls + 1, d, stops[|stops| - 1].1).Refused?
    ensures At(p, t, states[d := Tried], stops, calls + 1) && Run(p, s) == Run(p, t)
  {
    t := Advance(p, s).next;
  }

  lemma MoveDecoded(
    p: Pool, s: Search, states: seq<DecoderState>, stops: seq<Stop>, calls: nat, d: nat, next: Stop)
    returns (t: Search)
    requires At(p, s, states, stops, calls) && stops != []
    requires !SameLabel(stops[|stops| - 1].0, p.target)
    requires Pick(p, states, stops[|stops| - 1].0) == Some(d)
    requires p.world(calls + 1, d, stops[|stops| - 1].1) == Decoded(next.1, next.0)
    ensures At(p, t, states[d := Success], stops + [next], calls + 1) && Run(p, s) == Run(p, t)
  {
    t := Advance(p, s).next;
  }

  lemma MoveBack(p: Pool, s: Search, states: seq<DecoderState>, stops: seq<Stop>, calls: nat)
    returns (t: Search)
    requires At(p, s, states, stops, calls) && stops != []
    requires !SameLabel(stops[|stops| - 1].0, p.target)
    requires Pick(p, states, stops[|stops| - 1].0) == None
    ensures At(p, t, ForgetFailures(states), stops[..|stops| - 1], calls) && Run(p, s) == Run(p, t)
  {
    t := Advance(p, s).next;
  }

  lemma FirstUsableIs(p: Pool, states: seq<DecoderState>, tag: Label, d: nat)
    requires |states| == |p.decoders| && d < |states| && Usable(p, states, tag, d)
    requires forall e :: 0 <= e < d ==> !Usable(p, states, tag, e)
    ensures FirstUsable(p, states, tag, 0) == Some(d)
  {
  }

  // ------------------------------------------------- a failed decoder is not retried

  function Tag(format: char, kind: char): Label {
    Label(Some([format]), Some([kind]))
  }

  lemma TagsDiffer(f: char, k: char, g: char, l: char)
    ensures SameLabel(Tag(f, k), Tag(g, l)) <==> FoldChar(f) == FoldChar(g) && FoldChar(k) == FoldChar(l)
  {
    assert [f][0] == f && [g][0] == g && [k][0] == k && [l][0] == l;
  }

  /** Decoder 0 takes any "P" input but decodes only [1]; decoder 1 turns [0] into [1]. */
  function RetryPool(): Pool {
    Pool([Decoder(Some("P"), None, true), Decoder(Some("P"), Some("x"), true)],
         Tag('P', 'x'), Tag('O', 'k'), [0],
         (k: nat, d: nat, c: Content) =>
           if d == 0 && c == [1] then Decoded([2], Tag('O', 'k'))
           else if d == 1 && c == [0] then Decoded([1], Tag('P', 'y'))
           else Refused)
  }

  lemma RetryChainDerives()
    ensures Derives(RetryPool(), [Link(1, 1), Link(0, 2)])
  {
    var chain := [Link(1, 1), Link(0, 2)];
    assert chain[..1] == [Link(1, 1)] && chain[..1][..0] == [];
    assert Follow(RetryPool(), chain[..1]) == Some((Tag('P', 'y'), [1]));
  }

  /** What the search can see of this pool. */
  ghost predicate RetryMoves(p: Pool) {
    |p.decoders| == 2 && Start(p).states == [Untried, Untried] && p.input == Tag('P', 'x') && p.data == [0] &&
    !SameLabel(Tag('P', 'x'), p.target) && !SameLabel(Tag('P', 'y'), p.target) &&
    Pick(p, [Untried, Untried], Tag('P', 'x')) == Some(0) && Pick(p, [Tried, Untried], Tag('P', 'x')) == Some(1) &&
    Pick(p, [Tried, Success], Tag('P', 'y')) == None && Pick(p, [Untried, Success], Tag('P', 'x')) == Some(0) &&
    Pick(p, [Tried, Success], Tag('P', 'x')) == None &&
    p.world(1, 0, [0]) == Refused && p.world(2, 1, [0]) == Decoded([1], Tag('P', 'y')) &&
    p.world(3, 0, [0]) == Refused
  }

  lemma RetryPick(states: seq<DecoderState>, k: char)
    requires |states| == 2
    ensures Pick(RetryPool(), states, Tag('P', k)) ==
            if states[0] == Untried then Some(0)
            else if states[1] == Untried && FoldChar(k) == 'x' then Some(1)
            else None
  {
    assert [k][0] == k && FoldChar("x"[0]) == 'x';
    assert FirstUsable(RetryPool(), states, Tag('P', k), 2) == None;
    assert FirstUsable(RetryPool(), states, Tag('P', k), 1) ==
           if states[1] == Untried && FoldChar(k) == 'x' then Some(1) else None;
  }

  lemma RetryPoolMoves()
    ensures RetryMoves(RetryPool())
  {
    TagsDiffer('P', 'x', 'O', 'k');
    TagsDiffer('P', 'y', 'O', 'k');
    RetryPick([Untried, Untried], 'x');
    RetryPick([Tried, Untried], 'x');
    RetryPick([Tried, Success], 'y');
    RetryPick([Untried, Success], 'x');
    RetryPick([Tried, Success], 'x');
  }

  /** Decoder 0 fails on the input, decoder 1 decodes it, and nothing takes the result. */
  lemma RetryDescends(p: Pool) returns (s: Search)
    requires RetryMoves(p)
    ensures At(p, s, [Untried, Success], [(Tag('P', 'x'), [0])], 2) && Run(p, s) == Decode(p)
  {
    var root: Stop, child: Stop := (Tag('P', 'x'), [0]), (Tag('P', 'y'), [1]);
    s := MoveRefused(p, Start(p), [Untried, Untried], [root], 0, 0);
    s := MoveDecoded(p, s, [Tried, Untried], [root], 1, 1, child);
    s := MoveBack(p, s, [Tried, Success], [root] + [child], 2);
    assert ForgetFailures([Tried, Success]) == [Untried, Success] && ([root] + [child])[..1] == [root];
  }

  lemma RetryGivesUp(p: Pool)
    requires RetryMoves(p)
    ensures Decode(p).0.NoUsableDecoder?
  {
    var root: Stop := (Tag('P', 'x'), [0]);
    var s := RetryDescends(p);
    s := MoveRefused(p, s, [Untried, Success], [root], 2, 0);
    s := MoveBack(p, s, [Tried, Success], [root], 3);
  }

  /**
   Decoders 1 and 0 in a row reach the target, yet the search gives up: decoder 0 has
   failed on the input, so it is not tried on what decoder 1 makes, and once it may be
   tried again decoder 1 is spent.
   */
  lemma RetriedDecoderIsMissed()
    ensures Decode(RetryPool()).0.NoUsableDecoder?
    ensures Derives(RetryPool(), [Link(1, 1), Link(0, 2)])
  {
    RetryPoolMoves();
    RetryGivesUp(RetryPool());
    RetryChainDerives();
  }

  // ------------------------------------------------ a successful decoder is not reused

  /** Decoder 2 takes what decoder 0 and decoder 1 make, but only the second leads on to the target. */
  function SharedPool(): Pool {
    Pool([Decoder(Some("R"), Some("r"), true), Decoder(Some("R"), Some("r"), true),
          Decoder(Some("M"), None, true), Decoder(Some("N"), Some("n"), true)],
         Tag('R', 'r'), Tag('O', 'k'), [0],
         (k: nat, d: nat, c: Content) =>
           if d == 0 && c == [0] then Decoded([1], Tag('M', 'a'))
           else if d == 1 && c == [0] then Decoded([2], Tag('M', 'b'))
           else if d == 2 && c == [1] then Decoded([3], Tag('N', 'n'))
           else if d == 2 && c == [2] then Decoded([4], Tag('N', 'n'))
           else if d == 3 && c == [4] then Decoded([5], Tag('O', 'k'))
           else Refused)
  }

  lemma SharedPoolFits(d: nat, f: char, k: char)
    requires d < 4
    ensures Fits(SharedPool().decoders[d], Tag(f, k)) <==>
            if d < 2 then FoldChar(f) == 'r' && FoldChar(k) == 'r'
            else if d == 2 then FoldChar(f) == 'm'
            else FoldChar(f) == 'n' && FoldChar(k) == 'n'
  {
    assert [f][0] == f && [k][0] == k;
    assert FoldChar("R"[0]) == 'r' && FoldChar("r"[0]) == 'r' && FoldChar("M"[0]) == 'm';
    assert FoldChar("N"[0]) == 'n' && FoldChar("n"[0]) == 'n';
  }

  lemma SharedChainDerives()
    ensures Derives(SharedPool(), [Link(1, 1), Link(2, 2), Link(3, 3)])
  {
    var p := SharedPool();
    var chain := [Link(1, 1), Link(2, 2), Link(3, 3)];
    SharedPoolFits(1, 'R', 'r');
    SharedPoolFits(2, 'M', 'b');
    SharedPoolFits(3, 'N', 'n');
    assert chain[..1] == [Link(1, 1)] && chain[..1][..0] == [];
    assert Follow(p, chain[..1]) == Some((Tag('M', 'b'), [2]));
    assert chain[..2] == [Link(1, 1), Link(2, 2)] && chain[..2][..1] == chain[..1];
    assert Follow(p, chain[..2]) == Some((Tag('N', 'n'), [4]));
    assert SameLabel(Tag('O', 'k'), Tag('O', 'k'));
  }

  const FROM_A: seq<DecoderState> := [Success, Untried, Untried, Untried]
  const BACK: seq<DecoderState> := [Success, Untried, Success, Untried]
  const SPENT: seq<DecoderState> := [Success, Success, Success, Untried]

  /** What the search can see of this pool. */
  ghost predicate SharedMoves(p: Pool) {
    |p.decoders| == 4 && Start(p).states == [Untried, Untried, Untried, Untried] &&
    p.input == Tag('R', 'r') && p.data == [0] &&
    !SameLabel(Tag('R', 'r'), p.target) && !SameLabel(Tag('M', 'a'), p.target) &&
    !SameLabel(Tag('M', 'b'), p.target) && !SameLabel(Tag('N', 'n'), p.target) &&
    Pick(p, [Untried, Untried, Untried, Untried], Tag('R', 'r')) == Some(0) &&
    Pick(p, FROM_A, Tag('M', 'a')) == Some(2) && Pick(p, BACK, Tag('N', 'n')) == Some(3) &&
    Pick(p, BACK[3 := Tried], Tag('N', 'n')) == None && Pick(p, BACK, Tag('M', 'a')) == None &&
    Pick(p, BACK, Tag('R', 'r')) == Some(1) && Pick(p, SPENT, Tag('M', 'b')) == None &&
    Pick(p, SPENT, Tag('R', 'r')) == None &&
    p.world(1, 0, [0]) == Decoded([1], Tag('M', 'a')) && p.world(2, 2, [1]) == Decoded([3], Tag('N', 'n')) &&
    p.world(3, 3, [3]) == Refused && p.world(4, 1, [0]) == Decoded([2], Tag('M', 'b'))
  }

  /** The decoder picked at a stop labelled (f, k), as a function of the states. */
  lemma SharedPick(states: seq<DecoderState>, f: char, k: char)
    requires |states| == 4
    ensures Pick(SharedPool(), states, Tag(f, k)) ==
            if FoldChar(f) == 'r' && FoldChar(k) == 'r' && states[0] == Untried then Some(0)
            else if FoldChar(f) == 'r' && FoldChar(k) == 'r' && states[1] == Untried then Some(1)
            else if FoldChar(f) == 'm' && states[2] == Untried then Some(2)
            else if FoldChar(f) == 'n' && FoldChar(k) == 'n' && states[3] == Untried then Some(3)
            else None
  {
    SharedPoolFits(0, f, k);
    SharedPoolFits(1, f, k);
    SharedPoolFits(2, f, k);
    SharedPoolFits(3, f, k);
    assert FirstUsable(SharedPool(), states, Tag(f, k), 4) == None;
    assert FirstUsable(SharedPool(), states, Tag(f, k), 3) ==
           if FoldChar(f) == 'n' && FoldChar(k) == 'n' && states[3] == Untried then Some(3) else None;
    assert FirstUsable(SharedPool(), states, Tag(f, k), 2) ==
           if FoldChar(f) == 'm' && states[2] == Untried then Some(2)
           else FirstUsable(SharedPool(), states, Tag(f, k), 3);
    assert FirstUsable(SharedPool(), states, Tag(f, k), 1) ==
           if FoldChar(f) == 'r' && FoldChar(k) == 'r' && states[1] == Untried then Some(1)
           else FirstUsable(SharedPool(), states, Tag(f, k), 2);
  }

  lemma SharedPoolMoves()
    ensures SharedMoves(SharedPool())
  {
    TagsDiffer('R', 'r', 'O', 'k');
    TagsDiffer('M', 'a', 'O', 'k');
    TagsDiffer('M', 'b', 'O', 'k');
    TagsDiffer('N', 'n', 'O', 'k');
    SharedPick([Untried, Untried, Untried, Untried], 'R', 'r');
    SharedPick(FROM_A, 'M', 'a');
    SharedPick(BACK, 'N', 'n');
    SharedPick(BACK[3 := Tried], 'N', 'n');
    SharedPick(BACK, 'M', 'a');
    SharedPick(BACK, 'R', 'r');
    SharedPick(SPENT, 'M', 'b');
    SharedPick(SPENT, 'R', 'r');
  }

  /** Decoders 0 and 2 lead to a dead end. */
  lemma SharedDescends(p: Pool) returns (s: Search)
    requires SharedMoves(p)
    ensures At(p, s, BACK, [(Tag('R', 'r'), [0])] + [(Tag('M', 'a'), [1])] + [(Tag('N', 'n'), [3])], 2)
    ensures Run(p, s) == Decode(p)
  {
    var root: Stop, viaA: Stop, deep: Stop := (Tag('R', 'r'), [0]), (Tag('M', 'a'), [1]), (Tag('N', 'n'), [3]);
    s := MoveDecoded(p, Start(p), [Untried, Untried, Untried, Untried], [root], 0, 0, viaA);
    s := MoveDecoded(p, s, FROM_A, [root] + [viaA], 1, 2, deep);
    assert FROM_A[2 := Success] == BACK;
  }

  lemma SharedIsRefused(p: Pool) returns (s: Search)
    requires SharedMoves(p)
    ensures At(
              p, s, BACK[3 := Tried], [(Tag('R', 'r'), [0])] + [(Tag('M', 'a'), [1])] + [(Tag('N', 'n'), [3])], 3)
    ensures Run(p, s) == Decode(p)
  {
    var root: Stop, viaA: Stop, deep: Stop := (Tag('R', 'r'), [0]), (Tag('M', 'a'), [1]), (Tag('N', 'n'), [3]);
    s := SharedDescends(p);
    s := MoveRefused(p, s, BACK, [root] + [viaA] + [deep], 2, 3);
  }

  lemma SharedGoesBack(p: Pool) returns (s: Search)
    requires SharedMoves(p)
    ensures At(p, s, BACK, [(Tag('R', 'r'), [0])] + [(Tag('M', 'a'), [1])], 3) && Run(p, s) == Decode(p)
  {
    var root: Stop, viaA: Stop, deep: Stop := (Tag('R', 'r'), [0]), (Tag('M', 'a'), [1]), (Tag('N', 'n'), [3]);
    s := SharedIsRefused(p);
    s := MoveBack(p, s, BACK[3 := Tried], [root] + [viaA] + [deep], 3);
    assert ForgetFailures(BACK[3 := Tried]) == BACK;
    assert ([root] + [viaA] + [deep])[..2] == [root] + [viaA];
  }

  lemma SharedReturns(p: Pool) returns (s: Search)
    requires SharedMoves(p)
    ensures At(p, s, BACK, [(Tag('R', 'r'), [0])], 3) && Run(p, s) == Decode(p)
  {
    var root: Stop, viaA: Stop := (Tag('R', 'r'), [0]), (Tag('M', 'a'), [1]);
    s := SharedGoesBack(p);
    s := MoveBack(p, s, BACK, [root] + [viaA], 3);
    assert ForgetFailures(BACK) == BACK && ([root] + [viaA])[..1] == [root];
  }

  /** Decoder 1 decodes the input, but decoder 2, which could go on, is spent. */
  lemma SharedGivesUp(p: Pool)
    requires SharedMoves(p)
    ensures Decode(p).0.NoUsableDecoder?
  {
    var root: Stop, viaB: Stop := (Tag('R', 'r'), [0]), (Tag('M', 'b'), [2]);
    var s := SharedReturns(p);
    s := MoveDecoded(p, s, BACK, [root], 3, 1, viaB);
    assert BACK[1 := Success] == SPENT;
    s := MoveBack(p, s, SPENT, [root] + [viaB], 4);
    assert ForgetFailures(SPENT) == SPENT && ([root] + [viaB])[..1] == [root];
    s := MoveBack(p, s, SPENT, [root], 4);
  }

  /** Decoders 1, 2, 3 in a row reach the target, but decoder 2 is spent on the output of decoder 0. */
  lemma SharedDecoderIsMissed()
    ensures Decode(SharedPool()).0.NoUsableDecoder?
    ensures Derives(SharedPool(), [Link(1, 1), Link(2, 2), Link(3, 3)])
  {
    SharedPoolMoves();
    SharedGivesUp(SharedPool());
    SharedChainDerives();
  }

  // ------------------------------------------------------ the call bound is attained

  /** The calls made before round r, when round t tries the n - t decoders left. */
  function Before(n: nat, r: nat): nat
    requires r <= n
  {
    if r == 0 then 0 else Before(n, r - 1) + n - r + 1
  }

  /** Decoder d answers once: as the last one tried in round n - 1 - d. */
  function StubbornPool(n: nat): Pool {
    Pool(seq(n, i => Decoder(None, None, true)),
         Label(None, None), Label(Some("K"), None), [],
         (k: nat, d: nat, c: Content) =>
           if d < n && k == Before(n, n - 1 - d) + d + 1 then Decoded([], Label(None, None)) else Refused)
  }

  /** `left` decoders have not succeeded; the first `tried` of them have failed since the last pop. */
  function Round(n: nat, left: nat, tried: nat): (states: seq<DecoderState>)
    ensures |states| == n
  {
    seq(n, i => if i < tried && i < left then Tried else if i < left then Untried else Success)
  }

  lemma {:induction false} LaterRoundsStartLater(n: nat, r: nat, q: nat)
    requires r < q <= n
    ensures Before(n, q) >= Before(n, r) + n - r
  {
    if q > r + 1 {
      LaterRoundsStartLater(n, r, q - 1);
    }
  }

  ghost predicate InRound(n: nat, s: Search, left: nat, tried: nat) {
    left <= n && At(StubbornPool(n), s, Round(n, left, tried), [(Label(None, None), [])], Before(n, n - left) + tried)
  }

  lemma StubbornFailure(n: nat, s: Search, left: nat, tried: nat) returns (t: Search)
    requires InRound(n, s, left, tried) && tried < left - 1
    ensures InRound(n, t, left, tried + 1) && Run(StubbornPool(n), s) == Run(StubbornPool(n), t)
  {
    var states, root: Stop := Round(n, left, tried), (Label(None, None), []);
    LaterRoundsStartLater(n, n - left, n - 1 - tried);
    FirstUsableIs(StubbornPool(n), states, root.0, tried);
    t := MoveRefused(StubbornPool(n), s, states, [root], Before(n, n - left) + tried, tried);
    assert states[tried := Tried] == Round(n, left, tried + 1);
  }

  lemma StubbornPop(n: nat, s: Search, left: nat) returns (t: Search)
    requires 0 < left <= n
    requires At(StubbornPool(n), s, Round(n, left - 1, left - 1), [(Label(None, None), []), (Label(None, None), [])],
                Before(n, n - left) + left)
    ensures InRound(n, t, left - 1, 0) && Run(StubbornPool(n), s) == Run(StubbornPool(n), t)
  {
    var root: Stop := (Label(None, None), []);
    t := MoveBack(StubbornPool(n), s, Round(n, left - 1, left - 1), [root, root], Before(n, n - left) + left);
    assert ForgetFailures(Round(n, left - 1, left - 1)) == Round(n, left - 1, 0);
    assert [root, root][..1] == [root];
  }

  lemma StubbornSuccess(n: nat, s: Search, left: nat) returns (t: Search)
    requires left > 0 && InRound(n, s, left, left - 1)
    ensures InRound(n, t, left - 1, 0) && Run(StubbornPool(n), s) == Run(StubbornPool(n), t)
  {
    var states, root: Stop := Round(n, left, left - 1), (Label(None, None), []);
    FirstUsableIs(StubbornPool(n), states, root.0, left - 1);
    t := MoveDecoded(StubbornPool(n), s, states, [root], Before(n, n - left) + left - 1, left - 1, root);
    assert states[left - 1 := Success] == Round(n, left - 1, left - 1);
    assert [root] + [root] == [root, root];
    t := StubbornPop(n, t, left);
  }

  lemma StubbornEnds(n: nat, s: Search)
    requires InRound(n, s, 0, 0)
    ensures Run(StubbornPool(n), s).1.calls == Before(n, n)
  {
    var t := MoveBack(StubbornPool(n), s, Round(n, 0, 0), [(Label(None, None), [])], Before(n, n));
  }

  lemma {:induction false} StubbornRun(n: nat, s: Search, left: nat, tried: nat)
    requires InRound(n, s, left, tried) && (tried < left || left == tried == 0)
    ensures Run(StubbornPool(n), s).1.calls == Before(n, n)
    decreases left, left - tried
  {
    if left == 0 {
      StubbornEnds(n, s);
    } else if tried < left - 1 {
      var t := StubbornFailure(n, s, left, tried);
      StubbornRun(n, t, left, tried + 1);
    } else {
      var t := StubbornSuccess(n, s, left);
      StubbornRun(n, t, left - 1, 0);
    }
  }

  lemma {:induction false} BeforeSum(n: nat, r: nat)
    requires r <= n
    ensures 2 * Before(n, r) == r * (2 * n - r + 1)
  {
    if r > 0 {
      BeforeSum(n, r - 1);
      assert r * (2 * n - r + 1) == (r - 1) * (2 * n - (r - 1) + 1) + 2 * (n - r + 1);
    }
  }

  /** For every n there are n decoders on which the search makes n(n+1)/2 decode calls. */
  lemma CostIsAttained(n: nat)
    ensures |StubbornPool(n).decoders| == n
    ensures Decode(StubbornPool(n)).1.calls == n * (n + 1) / 2
  {
    var s := Start(StubbornPool(n));
    assert s.states == Round(n, n, 0);
    StubbornRun(n, s, n, 0);
    BeforeSum(n, n);
    assert n * (2 * n - n + 1) == n * (n + 1);
  }
}
