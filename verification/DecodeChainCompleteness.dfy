/**
 When the decoder-chain search is guaranteed to find what it looks for.

 A failed decoder stays out of play until the next pop and a successful one for
 good, so the search is not complete in general (`RetriedDecoderIsMissed`,
 `SharedDecoderIsMissed`).  It is complete for a chain whose decoders are only ever
 useful on that chain, for a single decoder that always yields the target, and, as a
 decision procedure in both directions, for pools whose decoders name one input label
 and produce pairwise different output labels.
 */
module DecodeChainCompleteness {
  import opened Wrappers
  import opened DecodeChain
  import opened DecodeChainSafety

  /** No decoder ever fails after having decoded. */
  ghost predicate NoLateFailure(p: Pool) {
    forall k: nat, d: nat, c: Content ::
      d < |p.decoders| ==> p.world(k, d, c).Refused? || p.world(k, d, c).Decoded?
  }

  // ------------------------------------------------------ one-step completeness

  /** Decoder `d` takes the input and, whatever it decodes, labels it with the target. */
  ghost predicate Direct(p: Pool, d: nat) {
    d < |p.decoders| && Fits(p.decoders[d], p.input) &&
    (forall k: nat :: !p.world(k, d, p.data).Refused?) &&
    (forall k: nat, c: Content ::
       match p.world(k, d, c)
       case Decoded(_, tag) => SameLabel(tag, p.target)
       case Unlabelled(_, error) => error != DecodeRetry
       case _ => true)
  }

  /** Either decoder `d` is still available at the root, or the tail already is the target. */
  ghost predicate DirectPending(p: Pool, d: nat, s: Search) {
    PathOk(p, s) && s.path != [] && d < |s.states| &&
    (SameLabel(s.path[|s.path| - 1].inLabel, p.target) ||
     (s.states[d] == Untried || (s.states[d] == Tried && |s.path| > 1)))
  }

  lemma DirectStaysPending(p: Pool, d: nat, s: Search)
    requires Direct(p, d) && DirectPending(p, d, s) && Advance(p, s).Continue?
    ensures DirectPending(p, d, Advance(p, s).next)
  {
    PathOkAdvances(p, s);
    var top := |s.path| - 1;
    var tail := s.path[top];
    match FirstUsable(p, s.states, tail.inLabel, 0)
    case None =>
      assert top == 0 ==> Usable(p, s.states, tail.inLabel, d);
    case Some(e) =>
      var reply := p.world(s.calls + 1, e, tail.inData.content);
      if e == d && reply.Decoded? {
        assert SameLabel(reply.tag, p.target);
      }
  }

  lemma {:induction false} DirectRunSucceeds(p: Pool, d: nat, s: Search)
    requires Direct(p, d) && DirectPending(p, d, s)
    ensures !Run(p, s).0.NoUsableDecoder?
    decreases |p.decoders| - Count(s.states, Success), |s.path|, Count(s.states, Untried)
  {
    match Advance(p, s)
    case Halt(_, _) =>
    case Continue(next) =>
      DirectStaysPending(p, d, s);
      AdvanceDecreases(p, s);
      DirectRunSucceeds(p, d, next);
  }

  /**
   One-step completeness.  If some decoder takes the input and always yields the
   target, the search never reports that no decoder is usable, whatever the other
   decoders do.
   */
  lemma OneStepCompleteness(p: Pool, d: nat)
    requires Direct(p, d)
    ensures !Decode(p).0.NoUsableDecoder?
    ensures NoLateFailure(p) ==> Decode(p).0.Found?
  {
    StartIsOk(p);
    DirectRunSucceeds(p, d, Start(p));
    if NoLateFailure(p) {
      NeverFails(p, Start(p));
    }
  }

  lemma {:induction false} NeverFails(p: Pool, s: Search)
    requires WellFormed(p, s) && NoLateFailure(p)
    ensures !Run(p, s).0.Failed?
    decreases |p.decoders| - Count(s.states, Success), |s.path|, Count(s.states, Untried)
  {
    if s.path != [] {
      AdvanceKeepsWellFormed(p, s);
      match Advance(p, s)
      case Halt(_, _) =>
      case Continue(next) =>
        AdvanceDecreases(p, s);
        NeverFails(p, next);
    }
  }

  // ------------------------------------------------------- chain completeness

  /** The decoders of `chain`, each applied in whichever call, lead to `stops[i]` after i steps. */
  ghost predicate Leads(p: Pool, chain: seq<nat>, stops: seq<(Label, Content)>) {
    |stops| == |chain| + 1 &&
    stops[0] == (p.input, p.data) &&
    (forall i :: 0 <= i < |chain| ==> StepsTo(p, chain[i], stops[i], stops[i + 1])) &&
    SameLabel(stops[|chain|].0, p.target)
  }

  ghost predicate StepsTo(p: Pool, d: nat, from: (Label, Content), to: (Label, Content)) {
    d < |p.decoders| && Fits(p.decoders[d], from.0) &&
    forall k: nat :: p.world(k, d, from.1) == Decoded(to.1, to.0)
  }

  /** Decoder `d` never reports a label that the decoder of step i takes, unless it is the step before. */
  ghost predicate FeedsOnly(p: Pool, chain: seq<nat>, d: nat, i: nat)
    requires i < |chain| && chain[i] < |p.decoders|
  {
    forall k: nat, c: Content ::
      p.world(k, d, c).Decoded? && Fits(p.decoders[chain[i]], p.world(k, d, c).tag) ==> i > 0 && d == chain[i - 1]
  }

  /** Each decoder of the chain is only ever offered the output of the one before it. */
  ghost predicate Private(p: Pool, chain: seq<nat>) {
    (forall i :: 0 <= i < |chain| ==> chain[i] < |p.decoders|) &&
    (forall i :: 0 < i < |chain| ==> !Fits(p.decoders[chain[i]], p.input)) &&
    (forall d: nat, i: nat :: d < |p.decoders| && i < |chain| ==> FeedsOnly(p, chain, d, i))
  }

  /** The path follows the chain for j steps and the rest of the chain is untouched. */
  ghost predicate OnCourse(p: Pool, chain: seq<nat>, stops: seq<(Label, Content)>, s: Search, j: nat) {
    PathOk(p, s) && |stops| == |chain| + 1 && j <= |chain| && j < |s.path| &&
    (s.path[j].inLabel, s.path[j].inData.content) == stops[j] &&
    (j > 0 ==> s.path[j - 1].decoder == Some(chain[j - 1])) &&
    (j == |chain| ==> |s.path| == j + 1) &&
    (forall i :: j <= i < |chain| ==> chain[i] < |s.states| && s.states[chain[i]] == Untried)
  }

  /** Only the next decoder of the chain can be picked, and only at the end of the followed part. */
  lemma PickedOnCourse(p: Pool, chain: seq<nat>, stops: seq<(Label, Content)>, s: Search, j: nat, i: nat)
    requires Private(p, chain) && OnCourse(p, chain, stops, s, j)
    requires j <= i < |chain| && Fits(p.decoders[chain[i]], s.path[|s.path| - 1].inLabel)
    ensures i == j && |s.path| == j + 1
  {
    var top := |s.path| - 1;
    if top > 0 {
      assert LinkedAt(p, s.path, top - 1);
      var maker := s.path[top - 1].decoder.value;
      assert FeedsOnly(p, chain, maker, i);
      assert i > 0 && maker == chain[i - 1];
      assert SpentAt(s, top - 1) && (j > 0 ==> SpentAt(s, j - 1));
      assert 0 < j < top ==> ApartAt(s.path, j - 1, top - 1);
    }
  }

  lemma CourseSurvivesPop(p: Pool, chain: seq<nat>, stops: seq<(Label, Content)>, s: Search, j: nat)
    requires Leads(p, chain, stops) && OnCourse(p, chain, stops, s, j)
    requires FirstUsable(p, s.states, s.path[|s.path| - 1].inLabel, 0).None?
    requires !SameLabel(s.path[|s.path| - 1].inLabel, p.target)
    ensures OnCourse(p, chain, stops, Backtrack(p, s), j)
  {
    PathOkPops(p, s);
    if |s.path| == j + 1 {
      assert StepsTo(p, chain[j], stops[j], stops[j + 1]);
      assert Usable(p, s.states, s.path[|s.path| - 1].inLabel, chain[j]);
      assert false;
    }
  }

  lemma CourseSurvivesDetour(
    p: Pool, chain: seq<nat>, stops: seq<(Label, Content)>, s: Search, t: Search, j: nat, d: nat)
    requires OnCourse(p, chain, stops, s, j) && j < |chain|
    requires forall i :: j <= i < |chain| ==> chain[i] != d
    requires PathOk(p, t) && Resembles(s, t, d)
    ensures OnCourse(p, chain, stops, t, j)
  {
  }

  lemma CourseSteps(p: Pool, chain: seq<nat>, stops: seq<(Label, Content)>, s: Search, j: nat)
    requires OnCourse(p, chain, stops, s, j) && j < |chain| && |s.path| == j + 1
    requires StepsTo(p, chain[j], stops[j], stops[j + 1])
    requires forall i :: j < i < |chain| ==> chain[i] != chain[j]
    ensures Attempt(p, s, chain[j]).Continue?
    ensures OnCourse(p, chain, stops, Attempt(p, s, chain[j]).next, j + 1)
  {
    assert p.world(s.calls + 1, chain[j], s.path[j].inData.content) == Decoded(stops[j + 1].1, stops[j + 1].0);
    PathOkExtends(p, s, chain[j]);
  }

  lemma CourseSurvivesAttempt(
    p: Pool, chain: seq<nat>, stops: seq<(Label, Content)>, s: Search, j: nat, d: nat) returns (j': nat)
    requires Private(p, chain) && OnCourse(p, chain, stops, s, j) && j < |chain|
    requires StepsTo(p, chain[j], stops[j], stops[j + 1])
    requires forall a, b :: 0 <= a < b < |chain| ==> chain[a] != chain[b]
    requires d < |s.states| && Usable(p, s.states, s.path[|s.path| - 1].inLabel, d) && Attempt(p, s, d).Continue?
    ensures OnCourse(p, chain, stops, Attempt(p, s, d).next, j')
  {
    forall i | j <= i < |chain| && chain[i] == d ensures i == j && |s.path| == j + 1 {
      PickedOnCourse(p, chain, stops, s, j, i);
    }
    if d == chain[j] {
      CourseSteps(p, chain, stops, s, j);
      j' := j + 1;
    } else {
      PathOkExtends(p, s, d);
      AttemptResembles(p, s, d);
      CourseSurvivesDetour(p, chain, stops, s, Attempt(p, s, d).next, j, d);
      j' := j;
    }
  }

  lemma CourseAdvances(p: Pool, chain: seq<nat>, stops: seq<(Label, Content)>, s: Search, j: nat) returns (j': nat)
    requires Leads(p, chain, stops) && Private(p, chain) && OnCourse(p, chain, stops, s, j)
    requires forall a, b :: 0 <= a < b < |chain| ==> chain[a] != chain[b]
    requires Advance(p, s).Continue?
    ensures OnCourse(p, chain, stops, Advance(p, s).next, j')
  {
    var usable := FirstUsable(p, s.states, s.path[|s.path| - 1].inLabel, 0);
    assert j < |chain|;
    if usable.None? {
      CourseSurvivesPop(p, chain, stops, s, j);
      j' := j;
    } else {
      assert StepsTo(p, chain[j], stops[j], stops[j + 1]);
      j' := CourseSurvivesAttempt(p, chain, stops, s, j, usable.value);
    }
  }

  lemma {:induction false} CourseRunSucceeds(
    p: Pool, chain: seq<nat>, stops: seq<(Label, Content)>, s: Search, j: nat)
    requires Leads(p, chain, stops) && Private(p, chain) && OnCourse(p, chain, stops, s, j)
    requires forall a, b :: 0 <= a < b < |chain| ==> chain[a] != chain[b]
    ensures !Run(p, s).0.NoUsableDecoder?
    decreases |p.decoders| - Count(s.states, Success), |s.path|, Count(s.states, Untried)
  {
    match Advance(p, s)
    case Halt(_, _) =>
    case Continue(next) =>
      var j' := CourseAdvances(p, chain, stops, s, j);
      AdvanceDecreases(p, s);
      CourseRunSucceeds(p, chain, stops, next, j');
  }

  /** A private chain never repeats a decoder: walking back from a repetition would reach the input twice. */
  lemma {:induction false} PrivateChainIsSimple(
    p: Pool, chain: seq<nat>, stops: seq<(Label, Content)>, a: nat, b: nat)
    requires Leads(p, chain, stops) && Private(p, chain) && a < b < |chain|
    ensures chain[a] != chain[b]
  {
    assert StepsTo(p, chain[b - 1], stops[b - 1], stops[b]) && StepsTo(p, chain[b], stops[b], stops[b + 1]);
    assert StepsTo(p, chain[a], stops[a], stops[a + 1]);
    var made := p.world(0, chain[b - 1], stops[b - 1].1);
    assert made == Decoded(stops[b].1, stops[b].0);
    if chain[a] == chain[b] {
      assert FeedsOnly(p, chain, chain[b - 1], a);
      assert Fits(p.decoders[chain[a]], made.tag);
      PrivateChainIsSimple(p, chain, stops, a - 1, b - 1);
    }
  }

  /**
   Chain completeness.  If a chain of decoders leads from the input to the target and
   each of them is only ever offered its predecessor's output, the search never reports
   that no decoder is usable.  Nothing is asked of the decoders outside the chain
   except that they do not feed it.
   */
  lemma ChainCompleteness(p: Pool, chain: seq<nat>, stops: seq<(Label, Content)>)
    requires Leads(p, chain, stops) && Private(p, chain)
    ensures !Decode(p).0.NoUsableDecoder?
    ensures NoLateFailure(p) ==> Decode(p).0.Found?
  {
    forall a, b | 0 <= a < b < |chain| ensures chain[a] != chain[b] {
      PrivateChainIsSimple(p, chain, stops, a, b);
    }
    StartIsOk(p);
    CourseRunSucceeds(p, chain, stops, Start(p), 0);
    if NoLateFailure(p) {
      NeverFails(p, Start(p));
    }
  }

  // --------------------------------------------- pools with one label per decoder

  ghost predicate Named(tag: Label) {
    tag.format.Some? && tag.kind.Some?
  }

  /**
   Every decoder names its input type, always answers alike, never fails after decoding,
   and reports its own output label, different from those of the others and from the label
   of the input.
   */
  ghost predicate OneLabelEach(p: Pool, outs: seq<Label>) {
    |outs| == |p.decoders| && Named(p.input) &&
    (forall d :: 0 <= d < |outs| ==>
                   p.decoders[d].inType.Some? && Named(outs[d]) && !SameLabel(outs[d], p.input)) &&
    (forall d, e :: 0 <= d < e < |outs| ==> !SameLabel(outs[d], outs[e])) &&
    (forall k: nat, d: nat, c: Content :: d < |outs| ==> SettledReply(p, outs[d], k, d, c))
  }

  ghost predicate SettledReply(p: Pool, out: Label, k: nat, d: nat, c: Content) {
    p.world(k, d, c) == p.world(0, d, c) &&
    (p.world(k, d, c).Refused? || (p.world(k, d, c).Decoded? && p.world(k, d, c).tag == out))
  }

  lemma SameLabelSymmetric(a: Label, b: Label)
    requires SameLabel(a, b)
    ensures SameLabel(b, a)
  {
  }

  lemma FitsOneLabel(d: Decoder, a: Label, b: Label)
    requires d.inType.Some? && Named(a) && Named(b)
    requires Fits(d, a) && Fits(d, b)
    ensures SameLabel(a, b)
  {
  }

  /** The label reached by a non-empty chain is that of its last decoder, which fits the label before. */
  lemma LastLink(p: Pool, outs: seq<Label>, chain: seq<Link>)
    requires OneLabelEach(p, outs) && Follow(p, chain).Some?
    ensures Named(Follow(p, chain).value.0)
    ensures chain != [] ==>
              var (link, before) := (chain[|chain| - 1], Follow(p, chain[..|chain| - 1]));
              link.decoder < |outs| && before.Some? && Named(before.value.0) &&
              Fits(p.decoders[link.decoder], before.value.0) &&
              p.world(0, link.decoder, before.value.1) == Decoded(Follow(p, chain).value.1, outs[link.decoder]) &&
              Follow(p, chain).value.0 == outs[link.decoder]
  {
    if chain != [] {
      var link := chain[|chain| - 1];
      var before := Follow(p, chain[..|chain| - 1]);
      assert SettledReply(p, outs[link.decoder], link.call, link.decoder, before.value.1);
      LastLink(p, outs, chain[..|chain| - 1]);
    }
  }

  /** At most one content can be derived under a label. */
  lemma {:induction false} DerivationsAgree(p: Pool, outs: seq<Label>, a: seq<Link>, b: seq<Link>)
    requires OneLabelEach(p, outs) && Follow(p, a).Some? && Follow(p, b).Some?
    requires SameLabel(Follow(p, a).value.0, Follow(p, b).value.0)
    ensures Follow(p, a) == Follow(p, b)
    decreases |a|
  {
    LastLink(p, outs, a);
    LastLink(p, outs, b);
    SameLabelSymmetric(Follow(p, a).value.0, Follow(p, b).value.0);
    if a != [] && b != [] {
      var d := a[|a| - 1].decoder;
      assert d == b[|b| - 1].decoder;
      var (a', b') := (a[..|a| - 1], b[..|b| - 1]);
      FitsOneLabel(p.decoders[d], Follow(p, a').value.0, Follow(p, b').value.0);
      DerivationsAgree(p, outs, a', b');
    }
  }

  lemma {:induction false} PrefixesFollow(p: Pool, chain: seq<Link>, i: nat)
    requires Follow(p, chain).Some? && i <= |chain|
    ensures Follow(p, chain[..i]).Some?
    decreases |chain| - i
  {
    if i == |chain| {
      assert chain[..i] == chain;
    } else {
      PrefixesFollow(p, chain, i + 1);
      assert chain[..i + 1][..i] == chain[..i];
    }
  }

  ghost function Stops(p: Pool, chain: seq<Link>): (stops: seq<(Label, Content)>)
    requires Follow(p, chain).Some?
    ensures |stops| == |chain| + 1
    ensures forall i :: 0 <= i <= |chain| ==> Follow(p, chain[..i]) == Some(stops[i])
  {
    assert forall i :: 0 <= i <= |chain| ==> Follow(p, chain[..i]).Some? by {
      forall i | 0 <= i <= |chain| ensures Follow(p, chain[..i]).Some? {
        PrefixesFollow(p, chain, i);
      }
    }
    seq(|chain| + 1, i requires 0 <= i <= |chain| && Follow(p, chain[..i]).Some? => Follow(p, chain[..i]).value)
  }

  lemma StepOfChain(p: Pool, outs: seq<Label>, chain: seq<Link>, i: nat)
    requires OneLabelEach(p, outs) && Follow(p, chain).Some? && i < |chain|
    ensures chain[i].decoder < |outs|
    ensures Named(Stops(p, chain)[i].0)
    ensures StepsTo(p, chain[i].decoder, Stops(p, chain)[i], Stops(p, chain)[i + 1])
    ensures Stops(p, chain)[i + 1].0 == outs[chain[i].decoder]
  {
    var stops := Stops(p, chain);
    assert Follow(p, chain[..i + 1]) == Some(stops[i + 1]);
    LastLink(p, outs, chain[..i + 1]);
    assert chain[..i + 1][..i] == chain[..i];
    var d := chain[i].decoder;
    forall k: nat ensures p.world(k, d, stops[i].1) == Decoded(stops[i + 1].1, stops[i + 1].0) {
      assert SettledReply(p, outs[d], k, d, stops[i].1);
    }
  }

  lemma LaterStepSkipsInput(p: Pool, outs: seq<Label>, chain: seq<Link>, i: nat)
    requires OneLabelEach(p, outs) && Follow(p, chain).Some? && 0 < i < |chain| && chain[i].decoder < |p.decoders|
    ensures !Fits(p.decoders[chain[i].decoder], p.input)
  {
    StepOfChain(p, outs, chain, i);
    StepOfChain(p, outs, chain, i - 1);
    if Fits(p.decoders[chain[i].decoder], p.input) {
      FitsOneLabel(p.decoders[chain[i].decoder], Stops(p, chain)[i].0, p.input);
    }
  }

  /** The decoder of step i takes the label of stop i only, which only the decoder of the step before reports. */
  lemma OnlyPreviousFeeds(p: Pool, outs: seq<Label>, chain: seq<Link>, steps: seq<nat>, d: nat, i: nat)
    requires OneLabelEach(p, outs) && Follow(p, chain).Some? && d < |outs| && i < |chain|
    requires |steps| == |chain| && forall j :: 0 <= j < |chain| ==> steps[j] == chain[j].decoder < |outs|
    ensures FeedsOnly(p, steps, d, i)
  {
    var stops := Stops(p, chain);
    assert chain[..0] == [] && stops[0] == (p.input, p.data);
    StepOfChain(p, outs, chain, i);
    if i > 0 {
      StepOfChain(p, outs, chain, i - 1);
    }
    forall k: nat, c: Content | p.world(k, d, c).Decoded? && Fits(p.decoders[steps[i]], p.world(k, d, c).tag)
      ensures i > 0 && d == steps[i - 1]
    {
      assert SettledReply(p, outs[d], k, d, c);
      FitsOneLabel(p.decoders[steps[i]], stops[i].0, outs[d]);
      SameLabelSymmetric(stops[i].0, outs[d]);
    }
  }

  lemma ChainIsPrivate(p: Pool, outs: seq<Label>, chain: seq<Link>, steps: seq<nat>)
    requires OneLabelEach(p, outs) && Follow(p, chain).Some?
    requires |steps| == |chain| && forall i :: 0 <= i < |chain| ==> steps[i] == chain[i].decoder
    ensures Private(p, steps)
  {
    forall i | 0 <= i < |chain| ensures steps[i] < |outs| {
      StepOfChain(p, outs, chain, i);
    }
    forall i | 0 < i < |chain| ensures !Fits(p.decoders[steps[i]], p.input) {
      LaterStepSkipsInput(p, outs, chain, i);
    }
    forall d: nat, i: nat | d < |outs| && i < |chain| ensures FeedsOnly(p, steps, d, i) {
      OnlyPreviousFeeds(p, outs, chain, steps, d, i);
    }
  }

  /**
   For pools with one label per decoder the search decides: it succeeds exactly when some
   chain of decoders derives an object labelled as the target, and then returns the
   content every such chain derives; otherwise it reports that no decoder is usable.
   */
  lemma SearchDecides(p: Pool, outs: seq<Label>)
    requires OneLabelEach(p, outs)
    ensures !Decode(p).0.Failed?
    ensures Decode(p).0.Found? <==> exists chain :: Derives(p, chain)
    ensures Decode(p).0.Found? ==>
              forall chain :: Derives(p, chain) ==> Follow(p, chain).value.1 == Decode(p).0.item.content
  {
    forall k: nat, d: nat, c: Content | d < |outs|
      ensures p.world(k, d, c).Refused? || p.world(k, d, c).Decoded?
    {
      assert SettledReply(p, outs[d], k, d, c);
    }
    NeverFails(p, Start(p));
    if Decode(p).0.Found? {
      var witness' := Soundness(p);
      assert Derives(p, witness');
    }
    forall chain | Derives(p, chain)
      ensures Decode(p).0.Found? && Follow(p, chain).value.1 == Decode(p).0.item.content
    {
      DerivationIsFound(p, outs, chain);
    }
  }

  ghost predicate Derives(p: Pool, chain: seq<Link>) {
    Follow(p, chain).Some? && SameLabel(Follow(p, chain).value.0, p.target)
  }

  lemma DerivationIsFound(p: Pool, outs: seq<Label>, chain: seq<Link>)
    requires OneLabelEach(p, outs) && Derives(p, chain) && NoLateFailure(p)
    ensures Decode(p).0.Found? && Follow(p, chain).value.1 == Decode(p).0.item.content
  {
    var steps := seq(|chain|, i requires 0 <= i < |chain| => chain[i].decoder);
    var stops := Stops(p, chain);
    assert chain[..0] == [] && chain[..|chain|] == chain;
    forall i | 0 <= i < |chain| ensures StepsTo(p, steps[i], stops[i], stops[i + 1]) {
      StepOfChain(p, outs, chain, i);
    }
    ChainIsPrivate(p, outs, chain, steps);
    ChainCompleteness(p, steps, stops);
    var found := Soundness(p);
    var (a, b) := (Follow(p, chain).value.0, Follow(p, found).value.0);
    assert SameLabel(a, b);
    DerivationsAgree(p, outs, chain, found);
  }
}
