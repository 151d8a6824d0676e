/**
 The key synchronisation format by byte offsets: what every record sent holds, which records
 are accepted as which key, and what a receiver makes of any stream.
 */
module KeySyncBytes {
  import opened Wrappers
  import opened Bytes
  import opened KeySync

  /** The attribute fields of a record. */
  predicate AttrAt(rec: seq<byte>, a: KeyAttr)
    requires |rec| == 192
  {
    Value(rec[0..4]) == a.version && rec[4..36] == a.uuid && Value(rec[36..40]) == a.algId &&
    Value(rec[40..48]) == a.createTime && Value(rec[48..56]) == a.expireTime
  }

  /** A key field of n bytes holds the two keys, each behind its length. */
  predicate PairAt(rec: seq<byte>, n: nat, pair: KeyPair)
    requires |rec| == 192
  {
    var pub := |pair.pub|;
    n == 8 + pub + |pair.prv| && n <= 128 &&
    Value(rec[60..64]) == pub && rec[64..64 + pub] == pair.pub &&
    Value(rec[64 + pub..68 + pub]) == |pair.prv| && rec[68 + pub..60 + n] == pair.prv
  }

  // ------------------------------------------------------------------------- pairs

  predicate SlicesAre(b: seq<byte>, pair: KeyPair) {
    var pub := |pair.pub|;
    |b| == 8 + pub + |pair.prv| && Value(b[0..4]) == pub && b[4..4 + pub] == pair.pub &&
    Value(b[4 + pub..8 + pub]) == |pair.prv| && b[8 + pub..] == pair.prv
  }

  lemma SlicesOfImage(pair: KeyPair)
    requires |pair.pub| + |pair.prv| <= 120
    ensures SlicesAre(Sm2Image(pair), pair)
  {
    var b, pub, prv := Sm2Image(pair), |pair.pub|, |pair.prv|;
    Widths();
    ValueOfBigEndian(pub, 4);
    ValueOfBigEndian(prv, 4);
    assert b[0..4] == BigEndian(pub, 4);
    assert b[4 + pub..8 + pub] == BigEndian(prv, 4);
    assert b[4..4 + pub] == pair.pub;
    assert b[8 + pub..] == pair.prv;
  }

  lemma ImageOfSlices(b: seq<byte>, pair: KeyPair)
    requires SlicesAre(b, pair)
    ensures b == Sm2Image(pair)
  {
    var pub := |pair.pub|;
    BigEndianOfValue(b[0..4]);
    BigEndianOfValue(b[4 + pub..8 + pub]);
    assert b == b[0..4] + b[4..4 + pub] + b[4 + pub..8 + pub] + b[8 + pub..];
  }

  lemma SliceOfSlice(rec: seq<byte>, n: nat, from: nat, end: nat)
    requires from <= end <= n && 60 + n <= |rec|
    ensures rec[60..60 + n][from..end] == rec[60 + from..60 + end]
  {
    var b := rec[60..60 + n];
    forall k | 0 <= k < end - from ensures b[from..end][k] == rec[60 + from..60 + end][k] {
      assert b[from..end][k] == b[from + k] == rec[60 + (from + k)];
    }
    assert b[from..end] == rec[60 + from..60 + end];
  }

  lemma PairInRecord(rec: seq<byte>, n: nat, pair: KeyPair)
    requires |rec| == 192 && n <= 128
    ensures rec[60..60 + n] == Sm2Image(pair) <==> PairAt(rec, n, pair)
  {
    var b, pub := rec[60..60 + n], |pair.pub|;
    if b == Sm2Image(pair) {
      SlicesOfImage(pair);
    } else if SlicesAre(b, pair) {
      ImageOfSlices(b, pair);
    }
    if n == 8 + pub + |pair.prv| {
      SliceOfSlice(rec, n, 0, 4);
      SliceOfSlice(rec, n, 4, 4 + pub);
      SliceOfSlice(rec, n, 4 + pub, 8 + pub);
      SliceOfSlice(rec, n, 8 + pub, n);
      assert b[8 + pub..] == b[8 + pub..n];
    }
  }

  // ----------------------------------------------------------------------- sending

  /** Which keys can be sent: all symmetric ones, and SM2 pairs of at most 120 bytes. */
  lemma SendableRule(k: KeyInfo)
    requires ValidKey(k)
    ensures Sendable(k) <==>
            k.attr.algId != 296 || (k.pair.Some? && |k.pair.value.pub| + |k.pair.value.prv| <= 120)
  {
  }

  /** Every byte of a record that is sent. */
  lemma RecordBytes(k: KeyInfo)
    requires Sendable(k)
    ensures var rec := RecordOf(k);
            var n := Value(rec[56..60]);
            |rec| == 192 && AttrAt(rec, k.attr) && n <= 128 &&
            (k.attr.algId == 296 ==> PairAt(rec, n, k.pair.value)) &&
            (k.attr.algId != 296 ==> n == |k.key| && rec[60..60 + n] == k.key) &&
            forall i :: 60 + n <= i < 192 ==> rec[i] == 0
  {
    var rec, m := RecordOf(k), Material(k).value;
    RecordFields(k.attr, m);
    assert rec[0..4] == rec[..4];
    RecordTail(k.attr, m);
    PairIn(rec, m, k);
  }

  lemma PairIn(rec: seq<byte>, m: seq<byte>, k: KeyInfo)
    requires Sendable(k) && m == Material(k).value && |rec| == 192 && rec[60..60 + |m|] == m
    ensures k.attr.algId == 296 ==> PairAt(rec, |m|, k.pair.value)
  {
    if k.attr.algId == 296 {
      PairInRecord(rec, |m|, k.pair.value);
    }
  }

  lemma RecordTail(a: KeyAttr, m: seq<byte>)
    requires ValidAttr(a) && |m| <= SYNC_KEY_LEN
    ensures var rec := Record(a, m);
            rec[60..60 + |m|] == m && forall i :: 60 + |m| <= i < 192 ==> rec[i] == 0
  {
    var head := AttrImage(a) + BigEndian(|m|, 4);
    assert Record(a, m) == head + m + (Zeros(SYNC_KEY_LEN - |m|) + Zeros(4));
    assert |head| == 60;
  }

  /** The header and the place of every record in a message. */
  lemma MessageBytes(keys: seq<KeyInfo>)
    requires 1 <= |keys| <= 1024 && AllSendable(keys)
    ensures var msg := Message(keys);
            |msg| == 8 + 192 * |keys| && Value(msg[0..4]) == 1 && Value(msg[4..8]) == |keys| &&
            forall j :: 0 <= j < |keys| ==> RecordAt(msg, j) == RecordOf(keys[j])
  {
    var msg, recs := Message(keys), RecordsOf(keys);
    HeaderParts(|keys|, Concat(recs));
    assert msg[0..4] == msg[..4];
    ConcatLength(recs);
    forall j | 0 <= j < |keys| ensures RecordAt(msg, j) == RecordOf(keys[j]) {
      RecordInConcat(recs, j);
      assert msg[8..][192 * j..192 * (j + 1)] == msg[8 + 192 * j..8 + 192 * (j + 1)];
    }
  }

  /** Record number j of a message. */
  function RecordAt(stream: seq<byte>, j: nat): seq<byte> {
    if 8 + 192 * (j + 1) <= |stream| then stream[8 + 192 * j..8 + 192 * (j + 1)] else []
  }

  lemma {:induction false} RecordInConcat(recs: seq<seq<byte>>, j: nat)
    requires AllRecords(recs) && j < |recs|
    ensures 192 * (j + 1) <= |Concat(recs)| && Concat(recs)[192 * j..192 * (j + 1)] == recs[j]
    decreases j
  {
    ConcatLength(recs);
    if j > 0 {
      RecordInConcat(recs[1..], j - 1);
      var rest := Concat(recs[1..]);
      assert Concat(recs)[192..] == rest;
      assert Concat(recs)[192..][192 * (j - 1)..192 * j] == Concat(recs)[192 * j..192 * (j + 1)];
    } else {
      assert Concat(recs)[..192] == recs[0];
    }
  }

  // --------------------------------------------------------------------- receiving

  /** A record is acceptable as key k. */
  ghost predicate Describes(env: Env, rec: seq<byte>, k: KeyInfo) {
    |rec| == 192 && AttrAt(rec, k.attr) &&
    var n := Value(rec[56..60]);
    if k.attr.algId == 296
    then k.key == [] && k.pair.Some? && PairAt(rec, n, k.pair.value) && env.pairChecks(k.pair.value)
    else n <= 64 && k.pair.None? && k.key == rec[60..60 + n]
  }

  /** A record is read as a key exactly when its bytes describe it; in particular an SM2 pair must check out. */
  lemma KeyOfRule(env: Env, rec: seq<byte>, k: KeyInfo)
    requires |rec| == 192
    ensures KeyOf(env, rec) == Some(k) <==> Describes(env, rec, k)
  {
    var n, attr := Value(rec[56..60]), AttrOf(rec);
    assert rec[0..4] == rec[..4];
    assert AttrAt(rec, k.attr) <==> k.attr == attr;
    if n <= 128 {
      assert rec[60..188][..n] == rec[60..60 + n];
      if attr.algId == 296 {
        PairRule(env, rec, n, attr, k);
      }
    }
  }

  lemma PairRule(env: Env, rec: seq<byte>, n: nat, attr: KeyAttr, k: KeyInfo)
    requires |rec| == 192 && n == Value(rec[56..60]) <= 128 && attr == AttrOf(rec) && attr.algId == 296
    ensures KeyOf(env, rec) == Some(k) <==>
            k.attr == attr && k.key == [] && k.pair.Some? && PairAt(rec, n, k.pair.value) && env.pairChecks(k.pair.value)
  {
    var b := rec[60..60 + n];
    assert rec[60..188][..n] == b;
    var found := PairOf(b);
    if found.Some? {
      PairOfImage(found.value);
      PairInRecord(rec, n, found.value);
    }
    if k.pair.Some? {
      PairInRecord(rec, n, k.pair.value);
      if PairAt(rec, n, k.pair.value) {
        PairOfImage(k.pair.value);
      }
    }
  }

  /** A header that announces n records. */
  predicate HeaderAt(stream: seq<byte>, n: nat) {
    |stream| >= 8 && Value(stream[0..4]) == 1 && Value(stream[4..8]) == n && 1 <= n <= 1024
  }

  /** The first m of n records are written and the next one, if any, is missing, unacceptable or cannot be written. */
  ghost predicate ReceivedAs(env: Env, stream: seq<byte>, n: nat, r: Reception) {
    var m := |r.written|;
    m <= n && 8 + 192 * m <= |stream| &&
    (forall j :: 0 <= j < m ==> Describes(env, RecordAt(stream, j), r.written[j]) && env.writes(j, r.written[j])) &&
    match r.outcome
    case Received => m == n
    case Truncated => m < n && |stream| < 8 + 192 * (m + 1)
    case Rejected => m < n && 8 + 192 * (m + 1) <= |stream| && forall k :: !Describes(env, RecordAt(stream, m), k)
    case WriteFailed =>
      m < n && 8 + 192 * (m + 1) <= |stream| &&
      exists k :: Describes(env, RecordAt(stream, m), k) && !env.writes(m, k)
    case BadOption => false
  }

  /** How much of the stream has been read: the header, the records written, and one that was refused. */
  ghost predicate ReadTo(stream: seq<byte>, r: Reception) {
    var end := 8 + 192 * (|r.written| + if r.outcome == Rejected || r.outcome == WriteFailed then 1 else 0);
    end <= |stream| && r.rest == stream[end..]
  }

  lemma SlotIsRecord(stream: seq<byte>, j: nat)
    requires 8 + 192 * (j + 1) <= |stream|
    ensures Slot(stream[8..], j) == RecordAt(stream, j) && |RecordAt(stream, j)| == 192
  {
    assert stream[8..][192 * j..192 * (j + 1)] == stream[8 + 192 * j..8 + 192 * (j + 1)];
  }

  lemma ReadBehind(stream: seq<byte>, r: Reception)
    requires |stream| >= 8 && Consumed(stream[8..], r)
    ensures ReadTo(stream, r)
  {
    var a := 192 * (|r.written| + if r.outcome == Rejected || r.outcome == WriteFailed then 1 else 0);
    assert stream[8..][a..] == stream[8 + a..];
  }

  lemma RecordsReceived(env: Env, stream: seq<byte>, n: nat)
    requires |stream| >= 8
    ensures var r := ReceiveRecords(RecordParser(env), env.writes, stream[8..], 0, n);
            ReceivedAs(env, stream, n, r) && ReadTo(stream, r)
  {
    var parse := RecordParser(env);
    var r := ReceiveRecords(parse, env.writes, stream[8..], 0, n);
    var m := |r.written|;
    WrittenIsPrefix(parse, env.writes, stream[8..], 0, n);
    ReadBehind(stream, r);
    forall j | 0 <= j < m ensures Describes(env, RecordAt(stream, j), r.written[j]) && env.writes(j, r.written[j]) {
      assert WrittenAt(parse, env.writes, stream[8..], 0, r.written, j);
      SlotIsRecord(stream, j);
      KeyOfRule(env, RecordAt(stream, j), r.written[j]);
    }
    if r.outcome == Rejected || r.outcome == WriteFailed {
      SlotIsRecord(stream, m);
      var rec := RecordAt(stream, m);
      forall k ensures KeyOf(env, rec) == Some(k) <==> Describes(env, rec, k) {
        KeyOfRule(env, rec, k);
      }
      if r.outcome == WriteFailed {
        assert Describes(env, rec, KeyOf(env, rec).value);
      }
    }
  }

  /**
   What the receiver makes of any stream.  Without a header of version 1 and 1 to 1024 records
   nothing is written; with one, exactly the acceptable records before the first other one.
   */
  lemma AnyStream(env: Env, stream: seq<byte>)
    ensures var r := Receive(env, stream);
            if exists n :: HeaderAt(stream, n) then
              ReceivedAs(env, stream, Value(stream[4..8]), r) && ReadTo(stream, r)
            else
              var short := |stream| < 4 || (|stream| < 8 && Value(stream[0..4]) == 1);
              r.written == [] && r.outcome == if short then Truncated else Rejected
  {
    if |stream| >= 4 {
      assert stream[0..4] == stream[..4];
    }
    if |stream| >= 8 {
      var n := Value(stream[4..8]);
      if HeaderAt(stream, n) {
        RecordsReceived(env, stream, n);
      }
    }
  }

  /** Whatever arrives, an SM2 key is only written if its pair checks out, and any other key has at most 64 bytes and no pair. */
  lemma WrittenKeysAreSound(env: Env, stream: seq<byte>, j: nat)
    requires j < |Receive(env, stream).written|
    ensures var k := Receive(env, stream).written[j];
            if k.attr.algId == 296 then k.key == [] && k.pair.Some? && env.pairChecks(k.pair.value)
            else k.pair.None? && |k.key| <= 64
    ensures Value(stream[0..4]) == 1 && 1 <= Value(stream[4..8]) <= 1024
  {
    AnyStream(env, stream);
    var r := Receive(env, stream);
    assert Describes(env, RecordAt(stream, j), r.written[j]);
  }
}
