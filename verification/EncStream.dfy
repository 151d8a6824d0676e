/**
 The encryption side of the `enc` tool, apps/src/app_enc.c: standard input is read in
 pieces of any size, a sliding cache keeps a tail of at least 16 bytes back, and the rest
 goes to the cipher.  The cipher and the streams are an oracle.
 */
module EncStream {
  import opened Wrappers
  import opened Bytes

  const MAX_BUFSIZE: nat := 4096
  const BUF_SAFE_BLOCK: nat := 16
  const BUF_READABLE_BLOCK: nat := 32
  const XTS_MIN_DATALEN: nat := 16
  const BLOCK: nat := 16
  const CACHE_SIZE: nat := MAX_BUFSIZE + BUF_READABLE_BLOCK

  datatype Ret = Success | CryptoFail | UioFail | StdinFail | CopyArgsFailed

  function Flatten(pieces: seq<seq<byte>>): seq<byte> {
    if pieces == [] then [] else Flatten(pieces[..|pieces| - 1]) + pieces[|pieces| - 1]
  }

  lemma {:induction false} FlattenConcat(a: seq<seq<byte>>, b: seq<seq<byte>>)
    ensures Flatten(a + b) == Flatten(a) + Flatten(b)
  {
    if b == [] {
      assert a + b == a;
    } else {
      var front, last := b[..|b| - 1], b[|b| - 1];
      FlattenConcat(a, front);
      assert (a + b)[..|a + b| - 1] == a + front && (a + b)[|a + b| - 1] == last;
      assert Flatten(a) + Flatten(front) + last == Flatten(a) + (Flatten(front) + last);
    }
  }

  lemma FlattenOne(pieces: seq<seq<byte>>, last: seq<byte>)
    ensures Flatten(pieces + [last]) == Flatten(pieces) + last
  {
    assert (pieces + [last])[..|pieces|] == pieces;
  }

  // ------------------------------------------------------- cutting into blocks

  function Blocks(buf: seq<byte>, n: nat): (b: seq<seq<byte>>)
    requires BLOCK * n <= |buf|
    ensures |b| == n
  {
    if n == 0 then [] else Blocks(buf, n - 1) + [buf[BLOCK * (n - 1)..BLOCK * n]]
  }

  lemma BlocksNext(before: seq<seq<byte>>, buf: seq<byte>, i: nat)
    requires BLOCK * (i + 1) <= |buf|
    ensures before + Blocks(buf, i + 1) == before + Blocks(buf, i) + [buf[i * BLOCK..(i + 1) * BLOCK]]
  {
    var done, block := Blocks(buf, i), buf[i * BLOCK..(i + 1) * BLOCK];
    assert Blocks(buf, i + 1) == done + [block];
    assert before + done + [block] == before + (done + [block]);
  }

  /** Block i is the bytes from 16 i on. */
  lemma {:induction false} BlockAt(buf: seq<byte>, n: nat, i: nat)
    requires 16 * n <= |buf| && i < n
    ensures Blocks(buf, n)[i] == buf[16 * i..16 * (i + 1)]
  {
    if i + 1 < n {
      BlockAt(buf, n - 1, i);
    }
  }

  lemma {:induction false} FlattenBlocks(buf: seq<byte>, n: nat)
    requires BLOCK * n <= |buf|
    ensures Flatten(Blocks(buf, n)) == buf[..BLOCK * n]
  {
    if n > 0 {
      FlattenBlocks(buf, n - 1);
      assert Blocks(buf, n)[..n - 1] == Blocks(buf, n - 1);
    }
  }

  /** The updates of StreamCipherUpdate: whole blocks, then the rest, taken from where the output ends. */
  function Cut(buf: seq<byte>, len: nat, emitted: nat): seq<seq<byte>>
    requires len <= |buf| && emitted + len % BLOCK <= |buf|
  {
    Blocks(buf, len / BLOCK) + if len % BLOCK == 0 then [] else [buf[emitted..emitted + len % BLOCK]]
  }

  lemma WholeBlocks(len: nat)
    ensures len / BLOCK * BLOCK == len - len % BLOCK && 0 <= len % BLOCK < BLOCK
  {
  }

  lemma CutFlattens(buf: seq<byte>, len: nat, emitted: nat)
    requires len <= |buf| && emitted + len % BLOCK <= |buf|
    ensures Flatten(Cut(buf, len, emitted)) ==
            buf[..len - len % BLOCK] + buf[emitted..emitted + len % BLOCK]
  {
    var n, rest := len / BLOCK, len % BLOCK;
    FlattenBlocks(buf, n);
    if rest == 0 {
      assert Cut(buf, len, emitted) == Blocks(buf, n);
    } else {
      var tail := [buf[emitted..emitted + rest]];
      FlattenConcat(Blocks(buf, n), tail);
      assert tail[..0] == [];
    }
  }

  lemma CutIsWhole(buf: seq<byte>, len: nat, emitted: nat)
    requires len <= |buf| && emitted == len - len % BLOCK
    ensures Flatten(Cut(buf, len, emitted)) == buf[..len]
  {
    CutFlattens(buf, len, emitted);
    assert buf[..emitted] + buf[emitted..len] == buf[..len];
  }

  /**
   The rest of the input is fetched at the length of the output so far.  That feeds the
   cipher the whole input, for all inputs of a length, exactly when there is no rest or
   every block was answered by a block.
   */
  lemma StreamUpdateConservesExactly(size: nat, len: nat, emitted: nat)
    requires len <= size && emitted + len % BLOCK <= size
    ensures (forall buf: seq<byte> :: |buf| == size ==> Flatten(Cut(buf, len, emitted)) == buf[..len]) <==>
            len % BLOCK == 0 || emitted == len - len % BLOCK
  {
    if len % BLOCK == 0 || emitted == len - len % BLOCK {
      forall buf: seq<byte> | |buf| == size ensures Flatten(Cut(buf, len, emitted)) == buf[..len] {
        CutConserves(buf, len, emitted);
      }
    } else {
      var buf := CutMisses(size, len, emitted);
    }
  }

  lemma CutConserves(buf: seq<byte>, len: nat, emitted: nat)
    requires len <= |buf| && emitted + len % BLOCK <= |buf|
    requires len % BLOCK == 0 || emitted == len - len % BLOCK
    ensures Flatten(Cut(buf, len, emitted)) == buf[..len]
  {
    CutFlattens(buf, len, emitted);
  }

  /** An input that is not fed whole: its first byte behind the blocks differs from the one fetched. */
  lemma CutMisses(size: nat, len: nat, emitted: nat) returns (buf: seq<byte>)
    requires len <= size && emitted + len % BLOCK <= size && len % BLOCK > 0 && emitted != len - len % BLOCK
    ensures |buf| == size && Flatten(Cut(buf, len, emitted)) != buf[..len]
  {
    var base := len - len % BLOCK;
    buf := seq(size, i => if i == base then 1 else 0);
    CutFlattens(buf, len, emitted);
    var head, tail := buf[..base], buf[emitted..emitted + len % BLOCK];
    assert (head + tail)[base] == tail[0] == buf[emitted] == 0;
    assert buf[..len][base] == 1;
  }

  // ------------------------------------------------------------- cipher updates

  type Emits = (nat, seq<byte>) -> Option<nat>

  /** How much the cipher returned for updates number `from` up to `end`, counted from 0; None if it failed on one of them. */
  function Emitted(emits: Emits, updates: seq<seq<byte>>, from: nat, end: nat): Option<nat>
    requires from <= end <= |updates|
    decreases end
  {
    if from == end then Some(0)
    else Plus(Emitted(emits, updates, from, end - 1), emits(end, updates[end - 1]))
  }

  function Plus(a: Option<nat>, b: Option<nat>): Option<nat> {
    if a.None? || b.None? then None else Some(a.value + b.value)
  }

  /** What the updates since the first n have emitted. */
  function Since(emits: Emits, updates: seq<seq<byte>>, n: nat): Option<nat>
    requires n <= |updates|
  {
    Emitted(emits, updates, n, |updates|)
  }

  /** How a feed ends: by what the cipher returned, the room for it, and the write, if there is anything to write. */
  function RetOf(emitted: Option<nat>, resLen: nat, written: bool): Ret {
    if emitted.None? || emitted.value > resLen then CryptoFail
    else if emitted.value != 0 && !written then UioFail
    else Success
  }

  /** Success needs a cipher that did not fail, room for what it emitted, and a write that worked if there was anything to write. */
  lemma RetRule(emitted: Option<nat>, resLen: nat, written: bool)
    ensures RetOf(emitted, resLen, written) == Success <==>
            emitted.Some? && emitted.value <= resLen && (emitted.value > 0 ==> written)
    ensures RetOf(emitted, resLen, written) == CryptoFail <==> emitted.None? || emitted.value > resLen
    ensures RetOf(emitted, resLen, written) == UioFail <==>
            emitted.Some? && 0 < emitted.value <= resLen && !written
  {
  }

  /** The cipher took every update. */
  ghost predicate NoCipherFailure(emits: Emits, updates: seq<seq<byte>>) {
    Since(emits, updates, 0).Some?
  }

  lemma {:induction false} EmittedStays(emits: Emits, a: seq<seq<byte>>, b: seq<seq<byte>>, from: nat, end: nat)
    requires from <= end <= |a| && a <= b
    ensures Emitted(emits, a, from, end) == Emitted(emits, b, from, end)
    decreases end
  {
    if from < end {
      EmittedStays(emits, a, b, from, end - 1);
    }
  }

  lemma SinceNext(emits: Emits, updates: seq<seq<byte>>, data: seq<byte>, n: nat)
    requires n <= |updates|
    ensures Since(emits, updates + [data], n) == Plus(Since(emits, updates, n), emits(|updates| + 1, data))
  {
    EmittedStays(emits, updates, updates + [data], n, |updates|);
  }

  /** Failing nowhere before and nowhere after is failing nowhere. */
  lemma {:induction false} EmittedJoins(emits: Emits, updates: seq<seq<byte>>, n: nat, end: nat)
    requires n <= end <= |updates| && Emitted(emits, updates, 0, n).Some? && Emitted(emits, updates, n, end).Some?
    ensures Emitted(emits, updates, 0, end).Some?
    decreases end
  {
    if n < end {
      EmittedJoins(emits, updates, n, end - 1);
    }
  }

  lemma EmittedAfter(emits: Emits, before: seq<seq<byte>>, after: seq<seq<byte>>)
    requires before <= after && Since(emits, after, |before|).Some? && NoCipherFailure(emits, before)
    ensures NoCipherFailure(emits, after)
  {
    EmittedStays(emits, before, after, 0, |before|);
    EmittedJoins(emits, after, |before|, |after|);
  }

  /**
   The cipher handle and the output stream.  `emits` is the number of bytes the cipher
   returns for an update, or None when it fails; `writes` tells whether a write succeeds.
   `updates` lists what the cipher has been fed.
   */
  class EncCtx {
    const isXts: bool
    const emits: Emits
    const writes: nat -> bool
    var updates: seq<seq<byte>>

    constructor (isXts: bool, emits: Emits, writes: nat -> bool)
      ensures this.isXts == isXts && this.emits == emits && this.writes == writes && updates == []
    {
      this.isXts, this.emits, this.writes, this.updates := isXts, emits, writes, [];
    }

    /** An update emits at most the blocks it completes, so at most one block for one block. */
    ghost predicate Sane() {
      forall k, b {:trigger SaneAt(k, b)} :: SaneAt(k, b)
    }

    ghost predicate SaneAt(k: nat, b: seq<byte>) {
      emits(k, b).Some? ==> emits(k, b).value <= |b| + BLOCK - 1 && (|b| == BLOCK ==> emits(k, b).value <= BLOCK)
    }

    /** Nothing fails, XTS emits what it is fed, and other modes answer every block by a block. */
    ghost predicate Reliable() {
      (forall k :: writes(k)) && forall k, b {:trigger ReliableAt(k, b)} :: ReliableAt(k, b)
    }

    ghost predicate ReliableAt(k: nat, b: seq<byte>) {
      emits(k, b).Some? && (isXts ==> emits(k, b).value <= |b|) &&
      (!isXts && |b| == BLOCK ==> emits(k, b).value == BLOCK)
    }

    /** CRYPT_EAL_CipherUpdate. */
    method CipherUpdate(data: seq<byte>) returns (out: Option<nat>)
      modifies this`updates
      ensures updates == old(updates) + [data] && out == emits(|updates|, data)
    {
      updates := updates + [data];
      out := emits(|updates|, data);
    }

    /** XTSCipherUpdate: one update with everything. */
    method XtsCipherUpdate(buf: seq<byte>, resLen: nat) returns (ret: Ret)
      requires isXts
      modifies this`updates
      ensures updates == old(updates) + [buf]
      ensures ret == RetOf(Since(emits, updates, |old(updates)|), resLen, writes(|updates|))
      ensures Reliable() && |buf| <= resLen ==> ret == Success
    {
      SinceNext(emits, updates, buf, |updates|);
      assert Reliable() ==> ReliableAt(|updates| + 1, buf);
      var out := CipherUpdate(buf);
      if out.None? || out.value > resLen {
        return CryptoFail;
      }
      if out.value != 0 && !writes(|updates|) {
        return UioFail;
      }
      return Success;
    }

    /** One block, and what it adds to the output. */
    method FeedBlock(block: seq<byte>, ghost base: nat) returns (out: Option<nat>)
      requires |block| == BLOCK && base <= |updates| && Sane() && !isXts
      modifies this`updates
      ensures updates == old(updates) + [block]
      ensures Since(emits, updates, base) == Plus(old(Since(emits, updates, base)), out)
      ensures (out.Some? ==> out.value <= BLOCK) && (Reliable() ==> out == Some(BLOCK))
    {
      SinceNext(emits, updates, block, base);
      assert SaneAt(|updates| + 1, block) && (Reliable() ==> ReliableAt(|updates| + 1, block));
      out := CipherUpdate(block);
    }

    /** The block loop of StreamCipherUpdate, which stops at the first failure. */
    method FeedBlocks(readBuf: seq<byte>, n: nat) returns (ok: bool, updateLen: nat)
      requires n * BLOCK <= |readBuf| && Sane() && !isXts
      modifies this`updates
      ensures old(updates) <= updates && (Reliable() ==> ok && updateLen == n * BLOCK)
      ensures ok ==>
                updates == old(updates) + Blocks(readBuf, n) && updateLen <= n * BLOCK &&
                Since(emits, updates, |old(updates)|) == Some(updateLen)
      ensures !ok ==> Since(emits, updates, |old(updates)|).None?
    {
      updateLen := 0;
      ghost var base := |updates|;
      for i := 0 to n
        invariant updateLen <= i * BLOCK && updates == old(updates) + Blocks(readBuf, i)
        invariant Since(emits, updates, base) == Some(updateLen)
        invariant Reliable() ==> updateLen == i * BLOCK
      {
        var block := readBuf[i * BLOCK..(i + 1) * BLOCK];
        BlocksNext(old(updates), readBuf, i);
        var out := FeedBlock(block, base);
        if out.None? {
          return false, updateLen;
        }
        updateLen := updateLen + out.value;
      }
      ok := true;
    }

    /** StreamCipherUpdate: block by block, then the rest from offset `updateLen`. */
    method StreamCipherUpdate(readBuf: seq<byte>, readLen: nat, resLen: nat)
      returns (ret: Ret, ghost emitted: nat)
      requires readLen <= |readBuf| && Sane() && !isXts
      modifies this`updates
      ensures emitted <= readLen - readLen % BLOCK && old(updates) <= updates
      ensures ret == RetOf(Since(emits, updates, |old(updates)|), resLen, writes(|updates|))
      ensures Since(emits, updates, |old(updates)|).Some? ==>
                updates == old(updates) + Cut(readBuf, readLen, emitted) &&
                Since(emits, old(updates) + Blocks(readBuf, readLen / BLOCK), |old(updates)|) == Some(emitted)
      ensures Reliable() ==>
                emitted == readLen - readLen % BLOCK && Since(emits, updates, |old(updates)|).Some? &&
                (readLen + BLOCK <= resLen ==> ret == Success)
    {
      var blockNum, remainLen := readLen / BLOCK, readLen % BLOCK;
      ghost var before := updates;
      WholeBlocks(readLen);
      var ok, updateLen := FeedBlocks(readBuf, blockNum);
      if !ok {
        return CryptoFail, 0;
      }
      emitted := updateLen;
      ghost var blocks := Blocks(readBuf, blockNum);
      var out := FeedRest(readBuf, updateLen, remainLen, |before|);
      ghost var rest := if remainLen == 0 then [] else [readBuf[emitted..emitted + remainLen]];
      assert before + blocks + rest == before + (blocks + rest);
      if out.None? {
        return CryptoFail, emitted;
      }
      updateLen := updateLen + out.value;
      ret := Deliver(updateLen, resLen);
    }

    /** The rest of the input goes to the cipher in one update, if there is any. */
    method FeedRest(readBuf: seq<byte>, at: nat, n: nat, ghost base: nat) returns (out: Option<nat>)
      requires at + n <= |readBuf| && base <= |updates| && Sane() && n < BLOCK
      modifies this`updates
      ensures updates == old(updates) + if n == 0 then [] else [readBuf[at..at + n]]
      ensures Since(emits, updates, base) == Plus(old(Since(emits, updates, base)), out)
      ensures Reliable() ==> out.Some?
      ensures out.Some? ==> out.value < n + BLOCK
    {
      if n == 0 {
        assert updates + [] == updates;
        return Some(0);
      }
      var rest := readBuf[at..at + n];
      SinceNext(emits, updates, rest, base);
      assert SaneAt(|updates| + 1, rest) && (Reliable() ==> ReliableAt(|updates| + 1, rest));
      out := CipherUpdate(rest);
    }

    /** The output is written, if there is any and it fits. */
    method Deliver(updateLen: nat, resLen: nat) returns (ret: Ret)
      ensures ret == RetOf(Some(updateLen), resLen, writes(|updates|))
    {
      if updateLen > resLen {
        return CryptoFail;
      }
      if updateLen != 0 && !writes(|updates|) {
        return UioFail;
      }
      return Success;
    }

    method FeedStream(buf: seq<byte>, len: nat, resLen: nat) returns (ret: Ret)
      requires len <= |buf| && Sane() && !isXts
      modifies this`updates
      ensures old(updates) <= updates
      ensures ret == RetOf(Since(emits, updates, |old(updates)|), resLen, writes(|updates|))
      ensures Reliable() ==> Flatten(updates) == Flatten(old(updates)) + buf[..len]
      ensures Reliable() && len + BLOCK <= resLen ==> ret == Success
    {
      ghost var before, emitted := updates, 0;
      ret, emitted := StreamCipherUpdate(buf, len, resLen);
      if Reliable() {
        CutIsWhole(buf, len, emitted);
        FlattenConcat(before, Cut(buf, len, emitted));
      }
    }

    /** Feed the first `len` bytes of a buffer to the cipher, as its mode demands. */
    method Feed(buf: seq<byte>, len: nat, resLen: nat) returns (ret: Ret)
      requires len <= |buf| && Sane() && (isXts ==> len >= XTS_MIN_DATALEN)
      modifies this`updates
      ensures old(updates) <= updates
      ensures ret == RetOf(Since(emits, updates, |old(updates)|), resLen, writes(|updates|))
      ensures isXts ==> forall i :: |old(updates)| <= i < |updates| ==> |updates[i]| >= XTS_MIN_DATALEN
      ensures Reliable() && len + (if isXts then 0 else BLOCK) <= resLen ==>
                ret == Success && Flatten(updates) == Flatten(old(updates)) + buf[..len]
    {
      ghost var before := updates;
      if isXts {
        ret := XtsCipherUpdate(buf[..len], resLen);
        FlattenOne(before, buf[..len]);
      } else {
        ret := FeedStream(buf, len, resLen);
      }
    }
  }

  // ------------------------------------------------------------- standard input

  /** Every update so far had at least the 16 bytes that XTS needs. */
  ghost predicate LongEnough(updates: seq<seq<byte>>) {
    forall i :: 0 <= i < |updates| ==> |updates[i]| >= XTS_MIN_DATALEN
  }

  /** UpdateEncStdinEnd: what is left in the cache goes to the cipher. */
  method UpdateEncStdinEnd(ctx: EncCtx, cache: seq<byte>, cacheLen: nat) returns (ret: Ret)
    requires cacheLen <= |cache| && cacheLen < BUF_READABLE_BLOCK && ctx.Sane()
    modifies ctx`updates
    ensures ctx.isXts && LongEnough(old(ctx.updates)) ==> LongEnough(ctx.updates)
    ensures ctx.isXts && cacheLen < XTS_MIN_DATALEN ==> ret == CryptoFail && ctx.updates == old(ctx.updates)
    ensures !(ctx.isXts && cacheLen < XTS_MIN_DATALEN) ==>
              old(ctx.updates) <= ctx.updates &&
              ret == RetOf(Since(ctx.emits, ctx.updates, |old(ctx.updates)|), CACHE_SIZE, ctx.writes(|ctx.updates|))
    ensures ctx.Reliable() && !(ctx.isXts && cacheLen < XTS_MIN_DATALEN) ==>
              ret == Success && Flatten(ctx.updates) == Flatten(old(ctx.updates)) + cache[..cacheLen]
  {
    if ctx.isXts && cacheLen < XTS_MIN_DATALEN {
      return CryptoFail;
    }
    ret := ctx.Feed(cache, cacheLen, CACHE_SIZE);
  }

  /** Room in the cache for a read: the three overflow tests of the code on 32-bit unsigned integers. */
  predicate Fits(cacheLen: nat, readLen: nat) {
    !(cacheLen > CACHE_SIZE || readLen > 0xffff_ffff - cacheLen || readLen > CACHE_SIZE - cacheLen)
  }

  /** The state at the head of the read loop after the input `all`. */
  ghost predicate AtLoopHead(reliable: bool, fed: seq<byte>, cache: seq<byte>, cacheLen: nat, all: seq<byte>) {
    |cache| == CACHE_SIZE && cacheLen < BUF_READABLE_BLOCK &&
    (cacheLen == |all| || (BUF_SAFE_BLOCK <= cacheLen && BUF_READABLE_BLOCK <= |all|)) &&
    (reliable ==> fed + cache[..cacheLen] == all)
  }

  /** One read: append to the cache and, once it holds 32 bytes, feed all but the last 16. */
  method Absorb(ctx: EncCtx, cacheArea: array<byte>, cacheLen: nat, read: seq<byte>, ghost all: seq<byte>)
    returns (ret: Ret, cacheLen': nat)
    requires ctx.Sane() && cacheArea.Length == CACHE_SIZE && 0 < |read| <= MAX_BUFSIZE
    requires AtLoopHead(ctx.Reliable(), Flatten(ctx.updates), cacheArea[..], cacheLen, all)
    modifies ctx`updates, cacheArea
    ensures old(ctx.updates) <= ctx.updates && ret != CopyArgsFailed && ret != StdinFail
    ensures ctx.Reliable() || cacheLen + |read| < BUF_READABLE_BLOCK ==> ret == Success
    ensures cacheLen + |read| >= BUF_READABLE_BLOCK ==>
              ret == RetOf(Since(ctx.emits, ctx.updates, |old(ctx.updates)|), CACHE_SIZE, ctx.writes(|ctx.updates|))
    ensures ctx.isXts && LongEnough(old(ctx.updates)) ==> LongEnough(ctx.updates)
    ensures ret == Success && NoCipherFailure(ctx.emits, old(ctx.updates)) ==>
              NoCipherFailure(ctx.emits, ctx.updates)
    ensures ret == Success ==>
              AtLoopHead(ctx.Reliable(), Flatten(ctx.updates), cacheArea[..], cacheLen', all + read)
  {
    ghost var fed, head, before := Flatten(ctx.updates), cacheArea[..cacheLen], ctx.updates;
    cacheLen' := Append(cacheArea, cacheLen, read);
    if cacheLen' < BUF_READABLE_BLOCK {
      assert fed + (head + read) == fed + head + read;
      return Success, cacheLen';
    }
    var readableLen := cacheLen' - BUF_SAFE_BLOCK;
    ret := ctx.Feed(cacheArea[..], readableLen, CACHE_SIZE);
    if ret != Success {
      return;
    }
    if readableLen + BUF_SAFE_BLOCK > CACHE_SIZE {
      return CopyArgsFailed, cacheLen';
    }
    ghost var full := cacheArea[..][..readableLen];
    ghost var tail := KeepTail(cacheArea, readableLen);
    cacheLen' := BUF_SAFE_BLOCK;
    assert full + tail == head + read;
    if NoCipherFailure(ctx.emits, before) {
      EmittedAfter(ctx.emits, before, ctx.updates);
    }
    assert fed + full + tail == fed + (full + tail) && fed + (head + read) == fed + head + read;
  }

  method Append(cacheArea: array<byte>, cacheLen: nat, read: seq<byte>) returns (cacheLen': nat)
    requires cacheArea.Length == CACHE_SIZE && cacheLen < BUF_READABLE_BLOCK && |read| <= MAX_BUFSIZE
    modifies cacheArea
    ensures cacheLen' == cacheLen + |read| && cacheArea[..cacheLen'] == old(cacheArea[..cacheLen]) + read
  {
    Memcpy(cacheArea, cacheLen, read);
    return cacheLen + |read|;
  }

  /** The last 16 bytes move to the front; source and destination never overlap. */
  method KeepTail(cacheArea: array<byte>, readableLen: nat) returns (ghost tail: seq<byte>)
    requires BUF_SAFE_BLOCK <= readableLen && readableLen + BUF_SAFE_BLOCK <= cacheArea.Length
    modifies cacheArea
    ensures tail == old(cacheArea[readableLen..readableLen + BUF_SAFE_BLOCK]) == cacheArea[..BUF_SAFE_BLOCK]
  {
    tail := cacheArea[readableLen..readableLen + BUF_SAFE_BLOCK];
    Memcpy(cacheArea, 0, cacheArea[readableLen..readableLen + BUF_SAFE_BLOCK]);
  }

  /** The first read that fails or delivers nothing. */
  function FirstBad(pieces: seq<Option<seq<byte>>>): (n: nat)
    ensures n <= |pieces| && (n < |pieces| ==> pieces[n] == None || pieces[n] == Some([]))
    ensures forall i :: 0 <= i < n ==> pieces[i].Some? && pieces[i].value != []
  {
    if pieces == [] || pieces[0].None? || pieces[0].value == [] then 0 else 1 + FirstBad(pieces[1..])
  }

  function Input(pieces: seq<Option<seq<byte>>>): seq<byte> {
    if pieces == [] then []
    else
      var last := pieces[|pieces| - 1];
      Input(pieces[..|pieces| - 1]) + if last.Some? then last.value else []
  }

  /** All of the input but at most 31 bytes has been fed, in order. */
  ghost predicate FedUpTo(updates: seq<seq<byte>>, input: seq<byte>) {
    Flatten(updates) <= input && |input| < |Flatten(updates)| + 32 && (input != [] ==> Flatten(updates) != input)
  }

  lemma HeadIsFed(updates: seq<seq<byte>>, cache: seq<byte>, cacheLen: nat, all: seq<byte>)
    requires AtLoopHead(true, Flatten(updates), cache, cacheLen, all)
    ensures FedUpTo(updates, all)
  {
    assert |all| == |Flatten(updates)| + cacheLen;
  }

  lemma InputGrows(pieces: seq<Option<seq<byte>>>, i: nat)
    requires i < |pieces| && pieces[i].Some?
    ensures Input(pieces[..i + 1]) == Input(pieces[..i]) + pieces[i].value
  {
    assert pieces[..i + 1][..i] == pieces[..i];
  }

  /** The read loop of UpdateEncStdin: it stops at the first bad read or failed update. */
  method ReadAll(ctx: EncCtx, cacheArea: array<byte>, pieces: seq<Option<seq<byte>>>) returns (ret: Ret, cacheLen: nat)
    requires ctx.Sane() && ctx.updates == [] && cacheArea.Length == CACHE_SIZE
    requires forall i :: 0 <= i < |pieces| && pieces[i].Some? ==> |pieces[i].value| <= MAX_BUFSIZE
    modifies ctx`updates, cacheArea
    ensures ret != CopyArgsFailed && (ctx.isXts ==> LongEnough(ctx.updates))
    ensures ret == Success ==> FirstBad(pieces) == |pieces| && NoCipherFailure(ctx.emits, ctx.updates)
    ensures var bad := FirstBad(pieces);
            (ctx.Reliable() ==>
               ret == if bad == |pieces| then Success else if pieces[bad].None? then UioFail else StdinFail) &&
            (ctx.Reliable() || ret == Success ==>
               AtLoopHead(ctx.Reliable(), Flatten(ctx.updates), cacheArea[..], cacheLen, Input(pieces[..bad])))
  {
    cacheLen := 0;
    for i := 0 to |pieces|
      invariant AtLoopHead(ctx.Reliable(), Flatten(ctx.updates), cacheArea[..], cacheLen, Input(pieces[..i]))
      invariant ctx.isXts ==> LongEnough(ctx.updates)
      invariant NoCipherFailure(ctx.emits, ctx.updates)
      invariant i <= FirstBad(pieces)
    {
      if pieces[i].None? {
        return UioFail, cacheLen;
      }
      var read := pieces[i].value;
      if |read| == 0 {
        return StdinFail, cacheLen;
      }
      if !Fits(cacheLen, |read|) {
        return CopyArgsFailed, cacheLen;
      }
      InputGrows(pieces, i);
      ret, cacheLen := Absorb(ctx, cacheArea, cacheLen, read, Input(pieces[..i]));
      if ret != Success {
        return;
      }
    }
    ret := Success;
  }

  /**
   UpdateEncStdin on any sequence of reads (None is a failed read) up to end of file, or up
   to a failure of the end-of-file query.  The overflow error never occurs; XTS never sees a
   short update; success means that every read delivered something, the cipher took every
   update, and XTS got at least 16 bytes.  When cipher and writes do not fail the result is
   decided by the reads: a failed or an empty read is reported, with all but the cache fed;
   otherwise the cipher is fed exactly the concatenation of the reads, unless an XTS input is
   shorter than 16 bytes in all.  A failed end-of-file query counts as success, with the cache
   dropped.
   */
  method UpdateEncStdin(ctx: EncCtx, pieces: seq<Option<seq<byte>>>, eof: bool) returns (ret: Ret)
    requires ctx.Sane() && ctx.updates == []
    requires forall i :: 0 <= i < |pieces| && pieces[i].Some? ==> |pieces[i].value| <= MAX_BUFSIZE
    modifies ctx`updates
    ensures ret != CopyArgsFailed
    ensures ctx.isXts ==> forall i :: 0 <= i < |ctx.updates| ==> |ctx.updates[i]| >= 16
    ensures ret == Success ==>
              FirstBad(pieces) == |pieces| && NoCipherFailure(ctx.emits, ctx.updates) &&
              (eof && ctx.isXts ==> |Input(pieces)| >= 16)
    ensures ctx.Reliable() ==>
              var bad := FirstBad(pieces);
              if bad < |pieces| then
                ret == (if pieces[bad].None? then UioFail else StdinFail) && FedUpTo(ctx.updates, Input(pieces[..bad]))
              else if !eof then ret == Success && FedUpTo(ctx.updates, Input(pieces))
              else if ctx.isXts && |Input(pieces)| < 16 then ret == CryptoFail && ctx.updates == []
              else ret == Success && Flatten(ctx.updates) == Input(pieces)
  {
    var cacheArea := new byte[CACHE_SIZE](i => 0);
    var cacheLen;
    ret, cacheLen := ReadAll(ctx, cacheArea, pieces);
    assert pieces[..|pieces|] == pieces;
    if ctx.Reliable() {
      HeadIsFed(ctx.updates, cacheArea[..], cacheLen, Input(pieces[..FirstBad(pieces)]));
    }
    if ret != Success || !eof {
      return;
    }
    ghost var before := ctx.updates;
    ret := UpdateEncStdinEnd(ctx, cacheArea[..], cacheLen);
    if ret == Success {
      EmittedAfter(ctx.emits, before, ctx.updates);
    }
  }

  // ----------------------------------------------------------------- a file

  /** How much UpdateEncFile reads next: 4096 bytes or all that is left; an XTS file is never left with a short last piece. */
  function NextRead(isXts: bool, left: nat): (n: nat)
    requires left > 0
    ensures 0 < n <= left && n <= 2 * MAX_BUFSIZE
    ensures n < left ==> n == 4096
    ensures n == left <==> if isXts then left < 8192 else left <= 4096
    ensures isXts && left >= XTS_MIN_DATALEN ==> n >= XTS_MIN_DATALEN && (n == left || left - n >= XTS_MIN_DATALEN)
  {
    if !isXts then (if left > MAX_BUFSIZE then MAX_BUFSIZE else left)
    else if left < 2 * MAX_BUFSIZE then left
    else MAX_BUFSIZE
  }

  /** A stream of which read number k fails unless `readable(k)`, and otherwise delivers what is there. */
  predicate Delivers(file: seq<byte>, readable: nat -> bool, k: nat, from: nat, n: nat) {
    readable(k) && from + n <= |file|
  }

  /** One piece of the file goes to the cipher. */
  method FeedPiece(ctx: EncCtx, readBuf: seq<byte>) returns (ret: Ret)
    requires ctx.Sane() && NoCipherFailure(ctx.emits, ctx.updates)
    requires ctx.isXts ==> |readBuf| >= XTS_MIN_DATALEN && LongEnough(ctx.updates)
    modifies ctx`updates
    ensures ctx.isXts ==> LongEnough(ctx.updates)
    ensures ret == Success ==> NoCipherFailure(ctx.emits, ctx.updates)
    ensures ctx.Reliable() && |readBuf| + (if ctx.isXts then 0 else BLOCK) <= 2 * MAX_BUFSIZE ==>
              ret == Success && Flatten(ctx.updates) == Flatten(old(ctx.updates)) + readBuf
  {
    ghost var before := ctx.updates;
    ret := ctx.Feed(readBuf, |readBuf|, 2 * MAX_BUFSIZE);
    assert readBuf[..|readBuf|] == readBuf;
    if ret == Success {
      EmittedAfter(ctx.emits, before, ctx.updates);
    }
  }

  lemma FileGrows(file: seq<byte>, done: nat, n: nat)
    requires done + n <= |file|
    ensures file[..done] + file[done..done + n] == file[..done + n]
  {
  }

  ghost predicate ReadsWorked(readable: nat -> bool, n: nat) {
    forall j: nat :: j < n ==> readable(j)
  }

  /**
   UpdateEncFile on a stream that should hold `fileLen` bytes.  Every XTS update has at least
   16 bytes and only an XTS file of less than 16 bytes is refused at once.  When the cipher
   and the writes do not fail, the first `fileLen` bytes are fed, or a read has failed or
   fallen short and exactly the bytes read before are: `turns` whole reads of 4096 bytes.
   */
  method UpdateEncFile(ctx: EncCtx, fileLen: nat, file: seq<byte>, readable: nat -> bool)
    returns (ret: Ret, ghost done: nat, ghost turns: nat)
    requires ctx.Sane() && ctx.updates == []
    modifies ctx`updates
    ensures ctx.isXts ==> forall i :: 0 <= i < |ctx.updates| ==> |ctx.updates[i]| >= 16
    ensures ret == Success ==> done == fileLen <= |file| && NoCipherFailure(ctx.emits, ctx.updates)
    ensures (done < fileLen ==> done == 4096 * turns) && ReadsWorked(readable, turns)
    ensures ctx.isXts && fileLen < XTS_MIN_DATALEN ==> ret == CryptoFail && ctx.updates == []
    ensures ctx.Reliable() && !(ctx.isXts && fileLen < XTS_MIN_DATALEN) ==>
              done <= fileLen && done <= |file| && Flatten(ctx.updates) == file[..done] &&
              (done == fileLen ==> ret == Success) &&
              (done < fileLen ==>
                 ret == UioFail && !Delivers(file, readable, turns, done, NextRead(ctx.isXts, fileLen - done)))
  {
    done, turns := 0, 0;
    if fileLen < XTS_MIN_DATALEN && ctx.isXts {
      return CryptoFail, done, turns;
    }
    var readFileLen, k := fileLen, 0;
    while readFileLen > 0
      invariant 0 <= readFileLen <= fileLen && done == fileLen - readFileLen <= |file| && turns == k
      invariant ctx.isXts ==> LongEnough(ctx.updates) && (readFileLen == 0 || readFileLen >= XTS_MIN_DATALEN)
      invariant ctx.Reliable() ==> Flatten(ctx.updates) == file[..done]
      invariant NoCipherFailure(ctx.emits, ctx.updates)
      invariant (readFileLen > 0 ==> done == 4096 * turns) && ReadsWorked(readable, k)
    {
      var from, n := fileLen - readFileLen, NextRead(ctx.isXts, readFileLen);
      if !Delivers(file, readable, k, from, n) {
        return UioFail, done, turns;
      }
      assert ReadsWorked(readable, k + 1);
      var readBuf := file[from..from + n];
      FileGrows(file, done, n);
      ret := FeedPiece(ctx, readBuf);
      if ret != Success {
        return;
      }
      readFileLen, done, k, turns := readFileLen - n, done + n, k + 1, turns + 1;
    }
    return Success, done, turns;
  }
}
