/**
 The decoder-chain search of codecs/src/decode_chain.c as a transition system.

 A pool of decoders is searched depth first for a chain that turns the caller's
 input into an object carrying the target label.  `Advance` is one turn of the
 search loop, `Run` the whole loop.  The provider's decoders are an oracle: the
 reply to a decode call may depend on the number of the call, so nothing here
 presupposes that decoders are deterministic or stateless.
 */
module DecodeChain {
  import opened Wrappers

  // ------------------------------------------------------------------ labels

  /** A format and a type, each a possibly NULL C string. */
  datatype Label = Label(format: Option<string>, kind: Option<string>)

  function FoldChar(c: char): char {
    if 'A' <= c <= 'Z' then (c as int + 32) as char else c
  }

  /** Equality of C strings up to ASCII case. */
  predicate SameText(a: string, b: string) {
    |a| == |b| && forall i :: 0 <= i < |a| ==> FoldChar(a[i]) == FoldChar(b[i])
  }

  predicate SameName(a: Option<string>, b: Option<string>) {
    match (a, b)
    case (None, None) => true
    case (Some(x), Some(y)) => SameText(x, y)
    case _ => false
  }

  predicate SameLabel(a: Label, b: Label) {
    SameName(a.format, b.format) && SameName(a.kind, b.kind)
  }

  // ---------------------------------------------------------------- decoders

  /** `frees` tells whether the provider registered a callback that frees outputs. */
  datatype Decoder = Decoder(inFormat: Option<string>, inType: Option<string>, frees: bool)

  predicate FormatFits(d: Decoder, format: string) {
    d.inFormat.Some? && SameText(d.inFormat.value, format)
  }

  predicate TypeFits(d: Decoder, kind: string) {
    d.inType.None? || SameText(d.inType.value, kind)
  }

  /** The four NULL / non-NULL rules by which a decoder accepts a labelled input. */
  predicate Fits(d: Decoder, tag: Label) {
    match (tag.format, tag.kind)
    case (Some(f), Some(k)) => FormatFits(d, f) && TypeFits(d, k)
    case (None, Some(k)) => TypeFits(d, k)
    case (Some(f), None) => FormatFits(d, f)
    case (None, None) => true
  }

  /** What a BSL_Param array carries; the search never looks inside. */
  type Content = seq<int>

  /** An object in memory.  Handle 0 is the caller's input, handle k the output of decode call k. */
  datatype Object = Object(handle: nat, content: Content)

  datatype ErrorCode = DecodeRetry | OtherError(code: int)

  /**
   The reply to one decode attempt: the decoder refused the input; it decoded but
   its output label could not be read; it decoded but the new path node could not
   be stored; or it decoded.
   */
  datatype Reply =
    | Refused
    | Unlabelled(out: Content, error: ErrorCode)
    | Unplaced(out: Content, tag: Label, code: int)
    | Decoded(out: Content, tag: Label)

  type World = (nat, nat, Content) -> Reply

  datatype Pool = Pool(
    decoders: seq<Decoder>, input: Label, target: Label, data: Content, world: World)

  // ------------------------------------------------------------ search state

  datatype DecoderState = Untried | Trying | Tried | Success

  datatype Node = Node(
    inLabel: Label, inData: Object, decoder: Option<nat>,
    outLabel: Label, outData: Option<Object>)

  /**
   What the search does to memory, in order: decoder `d` reads an object, makes
   one, frees one through its callback, loses one for want of a callback; an object
   made by `d` is handed to the caller; a decoder context is freed.
   */
  datatype Event =
    | Use(d: nat, handle: nat)
    | Made(d: nat, handle: nat)
    | Released(d: nat, handle: nat)
    | Lost(d: nat, handle: nat)
    | HandedOver(d: nat, handle: nat)
    | ContextFreed(d: nat)

  datatype Search = Search(
    states: seq<DecoderState>, path: seq<Node>, calls: nat, log: seq<Event>)

  datatype Outcome = Found(item: Object) | NoUsableDecoder | Failed(error: ErrorCode)

  datatype Progress = Halt(outcome: Outcome, last: Search) | Continue(next: Search)

  function FreshNode(p: Pool, tag: Label, data: Object): Node {
    Node(tag, data, None, p.target, None)
  }

  function Start(p: Pool): Search {
    Search(seq(|p.decoders|, i => Untried), [FreshNode(p, p.input, Object(0, p.data))], 0, [])
  }

  predicate WellFormed(p: Pool, s: Search) {
    |s.states| == |p.decoders| &&
    forall i :: 0 <= i < |s.path| ==> s.path[i].decoder.Some? ==> s.path[i].decoder.value < |p.decoders|
  }

  // -------------------------------------------------------- one turn of the loop

  predicate Usable(p: Pool, states: seq<DecoderState>, tag: Label, d: nat)
    requires |states| == |p.decoders| && d < |states|
  {
    states[d] == Untried && Fits(p.decoders[d], tag)
  }

  /** The first usable decoder at index `from` or later. */
  function FirstUsable(p: Pool, states: seq<DecoderState>, tag: Label, from: nat): (r: Option<nat>)
    requires |states| == |p.decoders| && from <= |states|
    ensures r.Some? ==> from <= r.value < |states| && Usable(p, states, tag, r.value)
    ensures forall d :: from <= d < (if r.Some? then r.value else |states|) ==> !Usable(p, states, tag, d)
    decreases |states| - from
  {
    if from == |states| then None
    else if Usable(p, states, tag, from) then Some(from)
    else FirstUsable(p, states, tag, from + 1)
  }

  /** The memory effect of asking decoder `d` to free an output, either of which may be NULL. */
  function FreeOut(p: Pool, d: Option<nat>, data: Option<Object>): seq<Event>
    requires d.Some? ==> d.value < |p.decoders|
  {
    if d.None? || data.None? then []
    else if p.decoders[d.value].frees then [Released(d.value, data.value.handle)]
    else [Lost(d.value, data.value.handle)]
  }

  /** The state a decoder is left in by its reply. */
  function Verdict(reply: Reply): DecoderState {
    match reply
    case Refused => Tried
    case Unlabelled(_, _) => Trying
    case Unplaced(_, _, _) => Success
    case Decoded(_, _) => Success
  }

  /** Decoder `d` is tried on the tail of the path. */
  function Attempt(p: Pool, s: Search, d: nat): Progress
    requires WellFormed(p, s) && s.path != [] && d < |s.states|
  {
    var call := s.calls + 1;
    var top := |s.path| - 1;
    var node := s.path[top].(decoder := Some(d));
    var log := s.log + [Use(d, node.inData.handle)];
    var reply := p.world(call, d, node.inData.content);
    var states := s.states[d := Verdict(reply)];
    match reply
    case Refused =>
      Continue(Search(states, s.path[top := node], call, log))
    case Unlabelled(out, error) =>
      var freed := log + [Made(d, call)] + FreeOut(p, Some(d), Some(Object(call, out)));
      var s' := Search(states, s.path[top := node], call, freed);
      if error == DecodeRetry then Continue(s') else Halt(Failed(error), s')
    case Unplaced(out, tag, code) =>
      var freed := log + [Made(d, call)] + FreeOut(p, Some(d), Some(Object(call, out)));
      Halt(Failed(OtherError(code)),
           Search(states, s.path[top := node.(outLabel := tag)], call, freed))
    case Decoded(out, tag) =>
      var made := Object(call, out);
      Continue(Search(
                 states,
                 s.path[top := node.(outLabel := tag, outData := Some(made))] + [FreshNode(p, tag, made)],
                 call, log + [Made(d, call)]))
  }

  function ForgetFailures(states: seq<DecoderState>): (r: seq<DecoderState>)
    ensures |r| == |states|
  {
    seq(|states|, i requires 0 <= i < |states| => if states[i] == Tried then Untried else states[i])
  }

  /** The tail is a dead end: free what it was made from, pop it, and let failed decoders be tried again. */
  function Backtrack(p: Pool, s: Search): Search
    requires WellFormed(p, s) && s.path != []
  {
    var top := |s.path| - 1;
    var tail := s.path[top];
    if top == 0 then
      Search(ForgetFailures(s.states), [], s.calls, s.log + FreeOut(p, tail.decoder, tail.outData))
    else
      var prev := s.path[top - 1];
      Search(ForgetFailures(s.states),
             s.path[..top - 1] + [FreshNode(p, prev.inLabel, prev.inData)],
             s.calls,
             s.log + FreeOut(p, prev.decoder, prev.outData) + FreeOut(p, tail.decoder, tail.outData))
  }

  function Advance(p: Pool, s: Search): Progress
    requires WellFormed(p, s) && s.path != []
  {
    var tail := s.path[|s.path| - 1];
    if SameLabel(tail.inLabel, p.target) then Halt(Found(tail.inData), s)
    else
      match FirstUsable(p, s.states, tail.inLabel, 0)
      case Some(d) => Attempt(p, s, d)
      case None => Continue(Backtrack(p, s))
  }

  // ------------------------------------------------------------- the whole loop

  function Count(states: seq<DecoderState>, what: DecoderState): (n: nat)
    ensures n <= |states|
  {
    if states == [] then 0
    else Count(states[1..], what) + if states[0] == what then 1 else 0
  }

  lemma {:induction false} CountUpdate(states: seq<DecoderState>, i: nat, now: DecoderState, what: DecoderState)
    requires i < |states|
    ensures Count(states[i := now], what)
         == Count(states, what) - (if states[i] == what then 1 else 0) + (if now == what then 1 else 0)
  {
    if i == 0 {
      assert states[i := now][1..] == states[1..];
    } else {
      assert states[i := now][1..] == states[1..][i - 1 := now];
      CountUpdate(states[1..], i - 1, now, what);
    }
  }

  lemma {:induction false} CountForget(states: seq<DecoderState>)
    ensures Count(ForgetFailures(states), Success) == Count(states, Success)
    ensures Count(ForgetFailures(states), Untried) == Count(states, Untried) + Count(states, Tried)
  {
    if states != [] {
      assert ForgetFailures(states)[1..] == ForgetFailures(states[1..]);
      CountForget(states[1..]);
    }
  }

  lemma {:induction false} CountDisjoint(states: seq<DecoderState>)
    ensures Count(states, Success) + Count(states, Untried) + Count(states, Tried) <= |states|
  {
    if states != [] {
      CountDisjoint(states[1..]);
    }
  }

  lemma AdvanceKeepsWellFormed(p: Pool, s: Search)
    requires WellFormed(p, s) && s.path != []
    ensures match Advance(p, s) case Halt(_, t) => WellFormed(p, t) case Continue(t) => WellFormed(p, t)
  {
  }

  /**
   Every turn that does not stop the loop lowers, lexicographically, the number of
   decoders that have not succeeded, the length of the path, and the number of
   untried decoders, whatever the decoders answer.
   */
  lemma AdvanceDecreases(p: Pool, s: Search)
    requires WellFormed(p, s) && s.path != [] && Advance(p, s).Continue?
    ensures
      var t := Advance(p, s).next;
      var succeeded := Count(s.states, Success);
      var succeeded' := Count(t.states, Success);
      succeeded < succeeded' ||
      (succeeded == succeeded' &&
       (|t.path| < |s.path| ||
        (|t.path| == |s.path| && Count(t.states, Untried) < Count(s.states, Untried))))
  {
    match FirstUsable(p, s.states, s.path[|s.path| - 1].inLabel, 0)
    case None =>
      CountForget(s.states);
    case Some(d) =>
      var now := Verdict(p.world(s.calls + 1, d, s.path[|s.path| - 1].inData.content));
      assert Advance(p, s).next.states == s.states[d := now];
      CountUpdate(s.states, d, now, Success);
      CountUpdate(s.states, d, now, Untried);
  }

  function Run(p: Pool, s: Search): (Outcome, Search)
    requires WellFormed(p, s)
    decreases |p.decoders| - Count(s.states, Success), |s.path|, Count(s.states, Untried)
  {
    if s.path == [] then (NoUsableDecoder, s)
    else
      AdvanceKeepsWellFormed(p, s);
      match Advance(p, s)
      case Halt(outcome, last) => (outcome, last)
      case Continue(next) =>
        AdvanceDecreases(p, s);
        Run(p, next)
  }

  function Decode(p: Pool): (Outcome, Search) {
    Run(p, Start(p))
  }
}
