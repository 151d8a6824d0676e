/**
 The matching rules of the decoder search in other words than its own, and what they mean
 end to end.
 */
module DecodeChainRules {
  import opened Wrappers
  import opened DecodeChain

  /** Characters agree up to ASCII case. */
  predicate SameLetter(a: char, b: char) {
    a == b || ('A' <= a <= 'Z' && b as int == a as int + 32) || ('A' <= b <= 'Z' && a as int == b as int + 32)
  }

  /** Two C strings match exactly when they have the same letters in the same places. */
  lemma TextRule(a: string, b: string)
    ensures SameText(a, b) <==> |a| == |b| && forall i :: 0 <= i < |a| ==> SameLetter(a[i], b[i])
  {
  }

  /** An object carries the target label when each name is NULL on both sides or matches. */
  lemma LabelRule(a: Label, b: Label)
    ensures SameLabel(a, b) <==>
            (a.format.None? <==> b.format.None?) && (a.kind.None? <==> b.kind.None?) &&
            (a.format.Some? && b.format.Some? ==> SameText(a.format.value, b.format.value)) &&
            (a.kind.Some? && b.kind.Some? ==> SameText(a.kind.value, b.kind.value))
  {
  }

  /** A named format must be the decoder's; a named type must be the decoder's if it has one. */
  predicate Matches(d: Decoder, tag: Label) {
    (tag.format.Some? ==> d.inFormat.Some? && SameText(d.inFormat.value, tag.format.value)) &&
    (tag.kind.Some? && d.inType.Some? ==> SameText(d.inType.value, tag.kind.value))
  }

  /** The four NULL rules are one rule. */
  lemma FitsRule(d: Decoder, tag: Label)
    ensures Fits(d, tag) <==> Matches(d, tag)
  {
  }

  /** A pool of one decoder that turns everything into the target. */
  function SinglePool(d: Decoder, input: Label, target: Label, data: Content, out: Content): Pool {
    Pool([d], input, target, data, (k: nat, i: nat, c: Content) => Decoded(out, target))
  }

  lemma SameLabelReflexive(a: Label)
    ensures SameLabel(a, a)
  {
  }

  lemma SinglePick(d: Decoder, input: Label, target: Label, data: Content, out: Content)
    ensures FirstUsable(SinglePool(d, input, target, data, out), [Untried], input, 0) ==
            if Matches(d, input) then Some(0) else None
  {
    var p := SinglePool(d, input, target, data, out);
    FitsRule(d, input);
    assert FirstUsable(p, [Untried], input, 1) == None;
  }

  /** With one decoder, whatever labels are NULL: the input itself, what the decoder makes of it if it matches, or nothing. */
  lemma SingleDecoder(d: Decoder, input: Label, target: Label, data: Content, out: Content)
    ensures Decode(SinglePool(d, input, target, data, out)).0 ==
            if SameLabel(input, target) then Found(Object(0, data))
            else if Matches(d, input) then Found(Object(1, out))
            else NoUsableDecoder
  {
    var p := SinglePool(d, input, target, data, out);
    var s := Start(p);
    assert s.states == [Untried];
    if !SameLabel(input, target) {
      SinglePick(d, input, target, data, out);
      var t := Advance(p, s).next;
      assert WellFormed(p, t) && Run(p, s) == Run(p, t);
      if Matches(d, input) {
        SameLabelReflexive(target);
        assert |t.path| == 2 && t.path[1] == FreshNode(p, target, Object(1, out));
      } else {
        assert t.path == [] && Run(p, t).0 == NoUsableDecoder;
      }
    }
  }

  /** A PEM decoder without an input type takes PEM data of unknown type. */
  lemma HalfNamedInput(data: Content, out: Content)
    ensures var p := SinglePool(
                       Decoder(Some("PEM"), None, true), Label(Some("PEM"), None), Label(Some("ASN1"), None), data, out);
            Decode(p).0 == Found(Object(1, out))
  {
    var d, input, target := Decoder(Some("PEM"), None, true), Label(Some("PEM"), None), Label(Some("ASN1"), None);
    SingleDecoder(d, input, target, data, out);
    assert |"PEM"| != |"ASN1"|;
  }

  // ----------------------------------------------------------------- errors reported

  /** A reply that stops the search with this error. */
  predicate Breaks(reply: Reply, error: ErrorCode) {
    match reply
    case Unlabelled(_, e) => e == error && error != DecodeRetry
    case Unplaced(_, _, code) => error == OtherError(code)
    case _ => false
  }

  ghost predicate LastCallBreaks(p: Pool, calls: nat, error: ErrorCode) {
    exists d: nat, c: Content :: d < |p.decoders| && Breaks(p.world(calls, d, c), error)
  }

  lemma {:induction false} RunReportsLast(p: Pool, s: Search)
    requires WellFormed(p, s) && Run(p, s).0.Failed?
    ensures LastCallBreaks(p, Run(p, s).1.calls, Run(p, s).0.error)
    decreases |p.decoders| - Count(s.states, Success), |s.path|, Count(s.states, Untried)
  {
    AdvanceKeepsWellFormed(p, s);
    match Advance(p, s)
    case Continue(next) =>
      AdvanceDecreases(p, s);
      RunReportsLast(p, next);
    case Halt(outcome, last) =>
      var tail := s.path[|s.path| - 1];
      var d := FirstUsable(p, s.states, tail.inLabel, 0).value;
      assert Breaks(p.world(s.calls + 1, d, tail.inData.content), outcome.error);
  }

  /** When the search fails, it is with the error that the last decode call ended in. */
  lemma FailureIsReported(p: Pool)
    requires Decode(p).0.Failed?
    ensures LastCallBreaks(p, Decode(p).1.calls, Decode(p).0.error)
  {
    RunReportsLast(p, Start(p));
  }

  /**
   What one attempt leaves behind, whatever the reply: only the tried decoder changes state,
   to failed if it refused, to succeeded if its output got a label, and otherwise it stays
   marked; the path grows exactly on a full success, by a node for the output.
   */
  lemma AttemptRule(p: Pool, s: Search, d: nat)
    requires WellFormed(p, s) && s.path != [] && d < |s.states|
    ensures var g := Attempt(p, s, d);
            var t := if g.Halt? then g.last else g.next;
            var top := |s.path| - 1;
            var reply := p.world(s.calls + 1, d, s.path[top].inData.content);
            t.calls == s.calls + 1 && |t.states| == |s.states| &&
            (forall e :: 0 <= e < |s.states| && e != d ==> t.states[e] == s.states[e]) &&
            (t.states[d] == Tried <==> reply.Refused?) &&
            (t.states[d] == Success <==> reply.Unplaced? || reply.Decoded?) && t.states[d] != Untried &&
            (g.Halt? <==> exists e :: Breaks(reply, e)) && (g.Halt? ==> g.outcome.Failed? && Breaks(reply, g.outcome.error)) &&
            t.path[..top] == s.path[..top] && t.path[top].decoder == Some(d) &&
            t.path[top].inLabel == s.path[top].inLabel && t.path[top].inData == s.path[top].inData &&
            (!reply.Decoded? ==> |t.path| == |s.path| && t.path[top].outData == s.path[top].outData) &&
            (reply.Unplaced? ==> t.path[top].outLabel == reply.tag) &&
            (reply.Decoded? ==>
               |t.path| == |s.path| + 1 && t.path[top].outLabel == reply.tag == t.path[top + 1].inLabel &&
               t.path[top].outData == Some(t.path[top + 1].inData) &&
               t.path[top + 1].inData == Object(s.calls + 1, reply.out) &&
               t.path[top + 1].decoder == None && t.path[top + 1].outLabel == p.target && t.path[top + 1].outData == None)
  {
    var reply := p.world(s.calls + 1, d, s.path[|s.path| - 1].inData.content);
    match reply
    case Unlabelled(_, e) => assert e != DecodeRetry ==> Breaks(reply, e);
    case Unplaced(_, _, code) => assert Breaks(reply, OtherError(code));
    case _ =>
  }
}
