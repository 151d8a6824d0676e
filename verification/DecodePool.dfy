/**
 The pool context of codecs/src/decode_chain.c: an object whose decoder states and
 decoder path are updated in place, refining the transition system of `DecodeChain`.
 */
module DecodePool {
  import opened Wrappers
  import opened DecodeChain
  import opened DecodeChainOwnership
  import opened DecodeChainTrace

  /** sizeof(bool), the length the flag command demands of its value. */
  const BOOL_SIZE: int := 1

  datatype TryResult = Moved | RetryOther | Broken(error: ErrorCode)

  datatype PoolResult = Searched(outcome: Outcome) | NoDecoder | NoMemory

  /** Marking a decoder as being tried beforehand changes nothing about the attempt. */
  lemma AttemptIgnoresMark(p: Pool, s: Search, d: nat)
    requires WellFormed(p, s) && s.path != [] && d < |s.states|
    ensures Attempt(p, s.(states := s.states[d := Trying]), d) == Attempt(p, s, d)
  {
  }

  lemma FreePathStep(p: Pool, log: seq<Event>, path: seq<Node>)
    requires path != []
    requires forall i :: 0 <= i < |path| ==> path[i].decoder.Some? ==> path[i].decoder.value < |p.decoders|
    ensures log + FreePath(p, path) ==
            log + FreeOut(p, path[0].decoder, path[0].outData) + FreePath(p, path[1..])
  {
    var first, rest := FreeOut(p, path[0].decoder, path[0].outData), FreePath(p, path[1..]);
    assert log + (first + rest) == log + first + rest;
  }

  class PoolCtx {
    const pool: Pool
    var states: seq<DecoderState>
    var path: seq<Node>
    var calls: nat
    ghost var log: seq<Event>

    constructor (pool: Pool)
      ensures this.pool == pool && path == [] && calls == 0 && log == []
      ensures states == Start(pool).states
    {
      this.pool := pool;
      states := seq(|pool.decoders|, i => Untried);
      path := [];
      calls := 0;
      log := [];
    }

    ghost function View(): Search
      reads this
    {
      Search(states, path, calls, log)
    }

    ghost predicate Valid()
      reads this
    {
      WellFormed(pool, View())
    }

    /** The first untried decoder that fits the label is marked as being tried. */
    method GetUsableDecoder(tag: Label) returns (d: Option<nat>)
      requires Valid()
      modifies this`states
      ensures Valid()
      ensures d == FirstUsable(pool, old(states), tag, 0)
      ensures states == if d.Some? then old(states)[d.value := Trying] else old(states)
    {
      var i := 0;
      while i < |pool.decoders|
        invariant i <= |pool.decoders| && states == old(states)
        invariant FirstUsable(pool, states, tag, 0) == FirstUsable(pool, states, tag, i)
      {
        if states[i] == Untried && Fits(pool.decoders[i], tag) {
          states := states[i := Trying];
          return Some(i);
        }
        i := i + 1;
      }
      return None;
    }

    /** Ask a decoder to free an output; a no-op when there is nothing to free or no one to ask. */
    ghost method FreeOutData(d: Option<nat>, data: Option<Object>)
      requires d.Some? ==> d.value < |pool.decoders|
      modifies this`log
      ensures log == old(log) + FreeOut(pool, d, data)
    {
      log := log + FreeOut(pool, d, data);
    }

    /** Run decoder `d`, already marked as being tried, on the tail. */
    method TryDecode(d: nat) returns (r: TryResult)
      requires Valid() && path != [] && d < |states|
      modifies this
      ensures Valid()
      ensures match Attempt(pool, old(View()), d)
              case Continue(s) => View() == s && !r.Broken?
              case Halt(outcome, s) => View() == s && r.Broken? && outcome == Failed(r.error)
      ensures r.RetryOther? <==>
              Attempt(pool, old(View()), d).Continue? && |path| == |old(path)|
    {
      var top := |path| - 1;
      path := path[top := path[top].(decoder := Some(d))];
      var input := path[top].inData;
      calls := calls + 1;
      log := log + [Use(d, input.handle)];
      match pool.world(calls, d, input.content) {
        case Refused =>
          states := states[d := Tried];
          r := RetryOther;
        case Unlabelled(out, error) =>
          log := log + [Made(d, calls)];
          FreeOutData(Some(d), Some(Object(calls, out)));
          states := states[d := Trying];
          r := if error == DecodeRetry then RetryOther else Broken(error);
        case Unplaced(out, tag, code) =>
          log := log + [Made(d, calls)];
          states := states[d := Success];
          path := path[top := path[top].(outLabel := tag)];
          assert path == old(path)[top := path[top]];
          FreeOutData(Some(d), Some(Object(calls, out)));
          r := Broken(OtherError(code));
        case Decoded(out, tag) =>
          log := log + [Made(d, calls)];
          states := states[d := Success];
          var made := Object(calls, out);
          path := path[top := path[top].(outLabel := tag, outData := Some(made))];
          assert path == old(path)[top := path[top]];
          path := path + [FreshNode(pool, tag, made)];
          r := Moved;
      }
    }

    /** Free what the tail was made from, reset the node that made it, and delete the tail. */
    method ResetLastNode()
      requires Valid() && path != []
      modifies this`path, this`log
      ensures Valid()
      ensures path == Backtrack(pool, old(View())).path && log == Backtrack(pool, old(View())).log
    {
      var top := |path| - 1;
      var tail := path[top];
      if top > 0 {
        var prev := path[top - 1];
        FreeOutData(prev.decoder, prev.outData);
        path := path[top - 1 := FreshNode(pool, prev.inLabel, prev.inData)];
      }
      FreeOutData(tail.decoder, tail.outData);
      path := path[..top];
    }

    /** Pop the tail and let every decoder that failed be tried again. */
    method BackToLastLayer()
      requires Valid() && path != []
      modifies this
      ensures Valid() && View() == Backtrack(pool, old(View()))
    {
      ResetLastNode();
      var i := 0;
      while i < |states|
        invariant i <= |states| == |old(states)|
        invariant forall j :: 0 <= j < i ==> states[j] == ForgetFailures(old(states))[j]
        invariant forall j :: i <= j < |states| ==> states[j] == old(states)[j]
        invariant path == Backtrack(pool, old(View())).path && log == Backtrack(pool, old(View())).log
        invariant calls == old(calls) && Valid()
      {
        if states[i] == Tried {
          states := states[i := Untried];
        }
        i := i + 1;
      }
    }

    /** One turn of the search loop on the tail; `Moved` and `RetryOther` mean that the loop goes on. */
    method Turn() returns (r: TryResult)
      requires Valid() && path != [] && !SameLabel(path[|path| - 1].inLabel, pool.target)
      modifies this
      ensures Valid()
      ensures match Advance(pool, old(View()))
              case Continue(s) => View() == s && !r.Broken?
              case Halt(outcome, s) => View() == s && r.Broken? && outcome == Failed(r.error)
    {
      ghost var s := View();
      var d := GetUsableDecoder(path[|path| - 1].inLabel);
      if d.Some? {
        AttemptIgnoresMark(pool, s, d.value);
        r := TryDecode(d.value);
      } else {
        BackToLastLayer();
        r := Moved;
      }
    }

    /** The search loop: depth first over the path, always working on its tail. */
    method DecodeWithKeyChain() returns (outcome: Outcome)
      requires Valid() && |path| <= 1
      modifies this
      ensures Valid() && (outcome, View()) == Run(pool, old(View()))
    {
      while path != []
        invariant Valid() && Run(pool, View()) == Run(pool, old(View()))
        decreases |pool.decoders| - Count(states, Success), |path|, Count(states, Untried)
      {
        ghost var s := View();
        var tail := path[|path| - 1];
        if SameLabel(tail.inLabel, pool.target) {
          return Found(tail.inData);
        }
        var r := Turn();
        if r.Broken? {
          return Failed(r.error);
        }
        AdvanceDecreases(pool, s);
      }
      return NoUsableDecoder;
    }

    /** One decode on a fresh pool; `stored` tells whether the initial node could be stored. */
    method PoolDecode(stored: bool) returns (r: PoolResult)
      requires Valid() && path == [] && calls == 0 && log == [] && states == Start(pool).states
      modifies this
      ensures Valid()
      ensures |pool.decoders| == 0 ==> r == NoDecoder && View() == old(View())
      ensures |pool.decoders| > 0 && !stored ==> r == NoMemory && View() == old(View())
      ensures |pool.decoders| > 0 && stored ==> (r, View()) == (Searched(Decode(pool).0), Decode(pool).1)
    {
      if |pool.decoders| == 0 {
        return NoDecoder;
      }
      if !stored {
        return NoMemory;
      }
      path := path + [FreshNode(pool, pool.input, Object(0, pool.data))];
      assert View() == Start(pool);
      var outcome := DecodeWithKeyChain();
      return Searched(outcome);
    }

    /** The SET_FLAG_FREE_OUT_DATA command: with `false` the caller takes over the decoded object. */
    method SetFlagFreeOutData(free: bool, valLen: int) returns (accepted: bool)
      requires Valid()
      modifies this`path, this`log
      ensures Valid()
      ensures valLen != 1 ==> !accepted && View() == old(View())
      ensures valLen == 1 ==> (accepted, View()) == SetFlag(old(View()), free)
    {
      if valLen != BOOL_SIZE {
        return false;
      }
      if path == [] {
        return false;
      }
      if |path| == 1 {
        return true;
      }
      var k := |path| - 2;
      var prev, tail := path[k], path[k + 1];
      if prev.outData.None? || prev.outData.value.handle != tail.inData.handle {
        return false;
      }
      if !free {
        log := log + if prev.decoder.Some? then [HandedOver(prev.decoder.value, tail.inData.handle)] else [];
        path := path[k := prev.(outData := None)];
      }
      return true;
    }

    method FreePathNodes()
      requires Valid()
      modifies this`path, this`log
      ensures path == [] && log == old(log) + FreePath(pool, old(path))
    {
      ghost var all := log + FreePath(pool, path);
      while path != []
        invariant Valid() && log + FreePath(pool, path) == all
      {
        FreePathStep(pool, log, path);
        FreeOutData(path[0].decoder, path[0].outData);
        path := path[1..];
      }
    }

    method FreeDecoders()
      modifies this`log
      ensures log == old(log) + FreeContexts(0, |pool.decoders|)
    {
      var i := 0;
      while i < |pool.decoders|
        invariant i <= |pool.decoders|
        invariant log + FreeContexts(i, |pool.decoders|) == old(log) + FreeContexts(0, |pool.decoders|)
      {
        log := log + [ContextFreed(i)];
        i := i + 1;
      }
    }

    /** Free the path front to back, then the decoder contexts. */
    method PoolFree()
      requires Valid()
      modifies this`path, this`log
      ensures path == [] && log == Close(pool, old(View()))
    {
      FreePathNodes();
      FreeDecoders();
    }

    /**
     A whole session on a fresh pool: decode, any flag commands, free.  Its memory events are
     clean; a decoded result is handed over exactly when a command asked for it, and nothing
     else ever is; without a search nothing is made.
     */
    method Session(stored: bool, flags: seq<bool>) returns (r: PoolResult)
      requires Valid() && path == [] && calls == 0 && log == [] && states == Start(pool).states
      modifies this
      ensures path == [] && CleanTrace(pool, log)
      ensures Audit(Opening(pool), log).Some? && Settled(pool, Audit(Opening(pool), log).value)
      ensures r == if pool.decoders == [] then NoDecoder else if !stored then NoMemory else Searched(Decode(pool).0)
      ensures r.Searched? && r.outcome.Found? ==>
                forall h: nat :: HandedIn(log, h) <==> false in flags && h != 0 && h == r.outcome.item.handle
      ensures !r.Searched? || r.outcome.NoUsableDecoder? ==> forall h: nat :: !HandedIn(log, h)
      ensures !r.Searched? ==> forall h: nat :: !MadeIn(log, h)
    {
      r := PoolDecode(stored);
      ghost var s := View();
      assert s == Ended(pool, stored);
      for i := 0 to |flags|
        invariant Valid() && View() == SetFlags(s, flags[..i])
      {
        assert flags[..i + 1][..i] == flags[..i];
        var accepted := SetFlagFreeOutData(flags[i], BOOL_SIZE);
      }
      assert flags[..|flags|] == flags;
      PoolFree();
      ghost var l := SessionAccounts(pool, stored, flags);
      assert Audit(Opening(pool), log) == Some(l);
      SessionFrees(pool, stored, flags);
      SettledIsClean(pool, log);
      if r == Searched(NoUsableDecoder) {
        GivingUpEmptiesPath(pool, Start(pool));
      }
      AuditExplained(pool, log);
    }
  }
}
