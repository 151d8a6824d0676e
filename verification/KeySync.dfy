/**
 The key synchronisation format of apps/src/app_keymgmt.c: what SendKey puts on the wire,
 what ReceiveKey makes of it, and how they fit together.  Numeric fields are unsigned bit
 patterns; signed fields of the C structs are read the same way on both sides.
 */
module KeySync {
  import opened Wrappers
  import opened Bytes

  const CRYPT_PKEY_SM2: nat := 296
  const SYNC_DATA_VERSION: nat := 1
  const MAX_KEY_COUNT: nat := 1024
  /** Size of the key field on the wire, and of the key buffer of a symmetric key. */
  const SYNC_KEY_LEN: nat := 128
  const KEY_LEN: nat := 64
  const UUID_LEN: nat := 32
  const RECORD_LEN: nat := 192

  datatype KeyAttr = KeyAttr(version: nat, uuid: seq<byte>, algId: nat, createTime: nat, expireTime: nat)

  datatype KeyPair = KeyPair(pub: seq<byte>, prv: seq<byte>)

  datatype KeyInfo = KeyInfo(attr: KeyAttr, key: seq<byte>, pair: Option<KeyPair>)

  predicate ValidAttr(a: KeyAttr) {
    a.version < TWO_32 && |a.uuid| == UUID_LEN && a.algId < TWO_32 &&
    a.createTime < TWO_64 && a.expireTime < TWO_64
  }

  /** A key as the store can hold it. */
  predicate ValidKey(k: KeyInfo) {
    ValidAttr(k.attr) && |k.key| <= KEY_LEN &&
    (k.pair.Some? ==> |k.pair.value.pub| <= SYNC_KEY_LEN && |k.pair.value.prv| <= SYNC_KEY_LEN)
  }

  // -------------------------------------------------------------- the wire format

  /** Length and value of the public key, then of the private key. */
  function Sm2Image(pair: KeyPair): (b: seq<byte>)
    ensures |b| == 8 + |pair.pub| + |pair.prv|
  {
    BigEndian(|pair.pub|, 4) + pair.pub + BigEndian(|pair.prv|, 4) + pair.prv
  }

  /** The bytes of the key field, or None when the key cannot be sent. */
  function Material(k: KeyInfo): (m: Option<seq<byte>>)
    ensures m.Some? && ValidKey(k) ==> |m.value| <= SYNC_KEY_LEN
  {
    if k.attr.algId == CRYPT_PKEY_SM2 then
      if k.pair.Some? && |k.pair.value.pub| + |k.pair.value.prv| + 8 <= SYNC_KEY_LEN
      then Some(Sm2Image(k.pair.value)) else None
    else Some(k.key)
  }

  function AttrImage(a: KeyAttr): seq<byte> {
    BigEndian(a.version, 4) + a.uuid + BigEndian(a.algId, 4) + BigEndian(a.createTime, 8) + BigEndian(a.expireTime, 8)
  }

  /** One record: attributes, key length, key field, and the padding of the C struct. */
  function Record(a: KeyAttr, material: seq<byte>): (b: seq<byte>)
    requires |a.uuid| == UUID_LEN && |material| <= SYNC_KEY_LEN
    ensures |b| == RECORD_LEN
  {
    AttrImage(a) + BigEndian(|material|, 4) + (material + Zeros(SYNC_KEY_LEN - |material|)) + Zeros(4)
  }

  function Header(n: nat): seq<byte> {
    BigEndian(SYNC_DATA_VERSION, 4) + BigEndian(n, 4)
  }

  predicate Sendable(k: KeyInfo) {
    ValidKey(k) && Material(k).Some?
  }

  /** The record sent for a key. */
  function RecordOf(k: KeyInfo): (b: seq<byte>)
    requires Sendable(k)
    ensures |b| == RECORD_LEN
  {
    Record(k.attr, Material(k).value)
  }

  predicate AllSendable(keys: seq<KeyInfo>) {
    forall i :: 0 <= i < |keys| ==> Sendable(keys[i])
  }

  function RecordsOf(keys: seq<KeyInfo>): (recs: seq<seq<byte>>)
    requires AllSendable(keys)
    ensures |recs| == |keys| && forall i :: 0 <= i < |keys| ==> recs[i] == RecordOf(keys[i])
  {
    seq(|keys|, i requires 0 <= i < |keys| => RecordOf(keys[i]))
  }

  predicate AllRecords(recs: seq<seq<byte>>) {
    forall i :: 0 <= i < |recs| ==> |recs[i]| == RECORD_LEN
  }

  function Concat(recs: seq<seq<byte>>): seq<byte> {
    if recs == [] then [] else recs[0] + Concat(recs[1..])
  }

  lemma {:induction false} ConcatAppend(recs: seq<seq<byte>>, rec: seq<byte>)
    ensures Concat(recs + [rec]) == Concat(recs) + rec
  {
    if recs == [] {
      assert recs + [rec] == [rec];
    } else {
      ConcatAppend(recs[1..], rec);
      assert (recs + [rec])[1..] == recs[1..] + [rec];
    }
  }

  lemma {:induction false} ConcatLength(recs: seq<seq<byte>>)
    requires AllRecords(recs)
    ensures |Concat(recs)| == RECORD_LEN * |recs|
  {
    if recs != [] {
      ConcatLength(recs[1..]);
    }
  }

  // ------------------------------------------------------------ parsing an SM2 key

  /** Subtraction of unsigned 32-bit integers. */
  function Sub32(a: nat, b: nat): nat {
    (a - b) % TWO_32
  }

  lemma Sub32IsExact(a: nat, b: nat)
    requires b <= a < TWO_32
    ensures Sub32(a, b) == a - b
  {
  }

  lemma FrontSlice(s: seq<byte>, n: nat, a: nat, b: nat)
    requires a <= b <= n <= |s|
    ensures s[..n][a..b] == s[a..b]
  {
    assert forall k :: 0 <= k < b - a ==> s[..n][a..b][k] == s[..n][a + k] == s[a + k];
  }

  /** The key pair whose image the bytes are, if they are one. */
  ghost function PairOf(b: seq<byte>): (r: Option<KeyPair>)
    ensures r.Some? ==> b == Sm2Image(r.value)
    ensures r.None? ==> forall pair :: b != Sm2Image(pair)
  {
    if exists pair :: b == Sm2Image(pair) then
      var pair :| b == Sm2Image(pair);
      Some(pair)
    else None
  }

  /**
   CreateAsymKeyFromSyncInfo up to the key check, on 32-bit unsigned arithmetic.  A key
   field of `keyLen` bytes is accepted exactly when it is the image of a key pair.
   */
  method ParseSm2(key: seq<byte>, keyLen: nat) returns (r: Option<KeyPair>)
    requires keyLen <= SYNC_KEY_LEN == |key|
    ensures r == PairOf(key[..keyLen])
  {
    ghost var field := key[..keyLen];
    if keyLen < 4 {
      assert forall pair :: |Sm2Image(pair)| >= 8;
      return None;
    }
    var pubLen := Value(key[..4]);
    var pos := 4;
    assert field[..4] == key[..4];
    Sub32IsExact(keyLen, pos);
    if pubLen > Sub32(keyLen, pos) {
      NoImage(field);
      return None;
    }
    var pub := key[pos..pos + pubLen];
    pos := pos + pubLen;
    Sub32IsExact(keyLen, pos);
    if Sub32(keyLen, pos) < 4 {
      NoImage(field);
      return None;
    }
    var prvLen := Value(key[pos..pos + 4]);
    pos := pos + 4;
    FrontSlice(key, keyLen, 4 + pubLen, 8 + pubLen);
    Sub32IsExact(keyLen, pos);
    if prvLen != Sub32(keyLen, pos) {
      NoImage(field);
      return None;
    }
    var pair := KeyPair(pub, key[pos..pos + prvLen]);
    FrontSlice(key, keyLen, 4, 4 + pubLen);
    FrontSlice(key, keyLen, 8 + pubLen, keyLen);
    assert field[8 + pubLen..] == field[8 + pubLen..keyLen];
    ImageOfParts(field, pair);
    PairOfImage(pair);
    return Some(pair);
  }

  /** A field that starts with lengths adding up to its own length. */
  predicate WellCut(field: seq<byte>) {
    |field| >= 8 && Value(field[..4]) + 8 <= |field| &&
    var p := Value(field[..4]);
    Value(field[4 + p..8 + p]) == |field| - 8 - p
  }

  lemma ImageParts(pair: KeyPair)
    ensures var (b, p) := (Sm2Image(pair), |pair.pub|);
            b[..4] == BigEndian(p, 4) && b[4..4 + p] == pair.pub &&
            b[4 + p..8 + p] == BigEndian(|pair.prv|, 4) && b[8 + p..] == pair.prv
  {
  }

  lemma ImageIsWellCut(pair: KeyPair)
    requires |pair.pub| < TWO_32 && |pair.prv| < TWO_32
    ensures WellCut(Sm2Image(pair)) && Value(Sm2Image(pair)[..4]) == |pair.pub|
  {
    ImageParts(pair);
    Widths();
    ValueOfBigEndian(|pair.pub|, 4);
    ValueOfBigEndian(|pair.prv|, 4);
  }

  lemma NoImage(field: seq<byte>)
    requires |field| <= SYNC_KEY_LEN && !WellCut(field)
    ensures forall pair :: field != Sm2Image(pair)
  {
    forall pair | field == Sm2Image(pair) ensures false {
      ImageIsWellCut(pair);
    }
  }

  lemma ImageOfParts(field: seq<byte>, pair: KeyPair)
    requires WellCut(field)
    requires var p := Value(field[..4]); pair.pub == field[4..4 + p] && pair.prv == field[8 + p..]
    ensures field == Sm2Image(pair)
  {
    var p := Value(field[..4]);
    BigEndianOfValue(field[..4]);
    BigEndianOfValue(field[4 + p..8 + p]);
    assert field == field[..4] + field[4..4 + p] + field[4 + p..8 + p] + field[8 + p..];
  }

  /** At most one pair has a given image, so the parser has no choice. */
  lemma PairOfImage(pair: KeyPair)
    requires |Sm2Image(pair)| < TWO_32
    ensures PairOf(Sm2Image(pair)) == Some(pair)
  {
    var other := PairOf(Sm2Image(pair)).value;
    ImageIsWellCut(pair);
    ImageIsWellCut(other);
    ImageParts(pair);
    ImageParts(other);
  }

  // ------------------------------------------------------------- parsing a record

  /** What the receiver's environment decides: whether a key pair checks out and whether a write succeeds. */
  datatype Env = Env(pairChecks: KeyPair -> bool, writes: (nat, KeyInfo) -> bool)

  function AttrOf(rec: seq<byte>): KeyAttr
    requires |rec| == RECORD_LEN
  {
    KeyAttr(Value(rec[..4]), rec[4..36], Value(rec[36..40]), Value(rec[40..48]), Value(rec[48..56]))
  }

  /** The key a record describes, or None when the receiver rejects it. */
  ghost function KeyOf(env: Env, rec: seq<byte>): Option<KeyInfo>
    requires |rec| == RECORD_LEN
  {
    var attr, keyLen, key := AttrOf(rec), Value(rec[56..60]), rec[60..188];
    if keyLen > SYNC_KEY_LEN then None
    else if attr.algId == CRYPT_PKEY_SM2 then
      match PairOf(key[..keyLen])
      case Some(pair) => if env.pairChecks(pair) then Some(KeyInfo(attr, [], Some(pair))) else None
      case None => None
    else if keyLen > KEY_LEN then None
    else Some(KeyInfo(attr, key[..keyLen], None))
  }

  lemma RecordFields(a: KeyAttr, material: seq<byte>)
    requires ValidAttr(a) && |material| <= SYNC_KEY_LEN
    ensures var rec := Record(a, material);
            AttrOf(rec) == a && Value(rec[56..60]) == |material| && rec[60..188][..|material|] == material
  {
    var rec := Record(a, material);
    Widths();
    assert rec[..4] == BigEndian(a.version, 4);
    assert rec[4..36] == a.uuid;
    assert rec[36..40] == BigEndian(a.algId, 4);
    assert rec[40..48] == BigEndian(a.createTime, 8);
    assert rec[48..56] == BigEndian(a.expireTime, 8);
    assert rec[56..60] == BigEndian(|material|, 4);
    assert rec[60..188] == material + Zeros(SYNC_KEY_LEN - |material|);
    ValueOfBigEndian(a.version, 4);
    ValueOfBigEndian(a.algId, 4);
    ValueOfBigEndian(a.createTime, 8);
    ValueOfBigEndian(a.expireTime, 8);
    ValueOfBigEndian(|material|, 4);
  }

  /** A key that holds what its algorithm calls for and nothing else, and whose pair checks out. */
  ghost predicate Proper(env: Env, k: KeyInfo) {
    Sendable(k) &&
    if k.attr.algId == CRYPT_PKEY_SM2 then k.key == [] && env.pairChecks(k.pair.value) else k.pair.None?
  }

  /** The receiver reads from a record the key it was made from. */
  lemma RecordRoundTrip(env: Env, k: KeyInfo)
    requires Proper(env, k)
    ensures KeyOf(env, RecordOf(k)) == Some(k)
  {
    RecordFields(k.attr, Material(k).value);
    if k.attr.algId == CRYPT_PKEY_SM2 {
      PairOfImage(k.pair.value);
    }
  }

  // ---------------------------------------------------------- receiving a message

  datatype Outcome = Received | BadOption | Truncated | Rejected | WriteFailed

  /** How a run ends, the keys written in order, and what is left of the stream. */
  datatype Reception = Reception(outcome: Outcome, written: seq<KeyInfo>, rest: seq<byte>)

  type Parser = seq<byte> -> Option<KeyInfo>

  /** The loop over `n - i` records. */
  ghost function ReceiveRecords(
    parse: Parser, writes: (nat, KeyInfo) -> bool, stream: seq<byte>, i: nat, n: nat): (r: Reception)
    requires i <= n
    decreases n - i
  {
    if i == n then Reception(Received, [], stream)
    else if |stream| < RECORD_LEN then Reception(Truncated, [], stream)
    else
      var rest := stream[RECORD_LEN..];
      match parse(stream[..RECORD_LEN])
      case None => Reception(Rejected, [], rest)
      case Some(k) =>
        if !writes(i, k) then Reception(WriteFailed, [], rest)
        else
          var r := ReceiveRecords(parse, writes, rest, i + 1, n);
          r.(written := [k] + r.written)
  }

  ghost function RecordParser(env: Env): Parser {
    rec => if |rec| == RECORD_LEN then KeyOf(env, rec) else None
  }

  /** ReceiveKey: version, count, records. */
  ghost function Receive(env: Env, stream: seq<byte>): Reception {
    if |stream| < 4 then Reception(Truncated, [], stream)
    else if Value(stream[..4]) != SYNC_DATA_VERSION then Reception(Rejected, [], stream[4..])
    else if |stream| < 8 then Reception(Truncated, [], stream[4..])
    else
      var n := Value(stream[4..8]);
      if n == 0 || n > MAX_KEY_COUNT then Reception(Rejected, [], stream[8..])
      else ReceiveRecords(RecordParser(env), env.writes, stream[8..], 0, n)
  }

  /** The j-th key written is the one the j-th record of the stream describes. */
  ghost predicate WrittenAt(
    parse: Parser, writes: (nat, KeyInfo) -> bool, stream: seq<byte>, i: nat, written: seq<KeyInfo>, j: nat)
  {
    j < |written| && RECORD_LEN * (j + 1) <= |stream| &&
    parse(Slot(stream, j)) == Some(written[j]) && writes(i + j, written[j])
  }

  function Slot(stream: seq<byte>, j: nat): seq<byte>
    requires RECORD_LEN * (j + 1) <= |stream|
  {
    stream[RECORD_LEN * j..RECORD_LEN * (j + 1)]
  }

  /** What is left is behind the records written and, if one was refused, behind that one. */
  ghost predicate Consumed(stream: seq<byte>, r: Reception) {
    var taken := RECORD_LEN * (|r.written| + if r.outcome == Rejected || r.outcome == WriteFailed then 1 else 0);
    taken <= |stream| && r.rest == stream[taken..]
  }

  lemma ConsumedOn(stream: seq<byte>, rest: seq<byte>, r: Reception, s: Reception)
    requires |stream| >= RECORD_LEN && rest == stream[RECORD_LEN..] && Consumed(rest, s)
    requires r.outcome == s.outcome && r.rest == s.rest && |r.written| == |s.written| + 1
    ensures Consumed(stream, r)
  {
    var a := RECORD_LEN * (|s.written| + if s.outcome == Rejected || s.outcome == WriteFailed then 1 else 0);
    assert stream[RECORD_LEN..][a..] == stream[RECORD_LEN + a..];
  }

  lemma SlotsShift(stream: seq<byte>, rest: seq<byte>, j: nat)
    requires RECORD_LEN * (j + 2) <= |stream| && rest == stream[RECORD_LEN..]
    ensures Slot(stream, j + 1) == Slot(rest, j)
  {
    var a, b := RECORD_LEN * j, RECORD_LEN * (j + 1);
    assert RECORD_LEN * (j + 2) == b + RECORD_LEN && b == a + RECORD_LEN;
    assert rest[a..b] == stream[RECORD_LEN + a..RECORD_LEN + b];
  }

  /**
   Exactly the records before the first bad one are written: the j-th key written is the
   one record j describes, the run succeeds only with all n, and otherwise the record after
   the last one written is missing, rejected, or could not be written.
   */
  lemma {:induction false} WrittenIsPrefix(
    parse: Parser, writes: (nat, KeyInfo) -> bool, stream: seq<byte>, i: nat, n: nat)
    requires i <= n
    ensures var r := ReceiveRecords(parse, writes, stream, i, n);
            var m := |r.written|;
            m <= n - i && RECORD_LEN * m <= |stream| && r.outcome != BadOption && Consumed(stream, r) &&
            (forall j :: 0 <= j < m ==> WrittenAt(parse, writes, stream, i, r.written, j)) &&
            (r.outcome == Received <==> m == n - i) &&
            (r.outcome == Truncated ==> |stream| < RECORD_LEN * (m + 1)) &&
            (r.outcome == Rejected ==>
               RECORD_LEN * (m + 1) <= |stream| && parse(Slot(stream, m)).None?) &&
            (r.outcome == WriteFailed ==>
               RECORD_LEN * (m + 1) <= |stream| && parse(Slot(stream, m)).Some? &&
               !writes(i + m, parse(Slot(stream, m)).value))
    decreases n - i
  {
    if i < n && |stream| >= RECORD_LEN {
      assert Slot(stream, 0) == stream[..RECORD_LEN];
      var rest, k := stream[RECORD_LEN..], parse(stream[..RECORD_LEN]);
      if k.Some? && writes(i, k.value) {
        WrittenIsPrefix(parse, writes, rest, i + 1, n);
        var r := ReceiveRecords(parse, writes, stream, i, n);
        var s := ReceiveRecords(parse, writes, rest, i + 1, n);
        forall j | 0 <= j < |r.written| ensures WrittenAt(parse, writes, stream, i, r.written, j) {
          if j > 0 {
            assert WrittenAt(parse, writes, rest, i + 1, s.written, j - 1);
            SlotsShift(stream, rest, j - 1);
          }
        }
        ConsumedOn(stream, rest, r, s);
        if RECORD_LEN * (|s.written| + 1) <= |rest| {
          SlotsShift(stream, rest, |s.written|);
        }
      }
    }
  }

  /** The records parse back to the keys and every write succeeds. */
  ghost predicate Accepted(
    parse: Parser, writes: (nat, KeyInfo) -> bool, recs: seq<seq<byte>>, keys: seq<KeyInfo>, i: nat)
  {
    |recs| == |keys| && AllRecords(recs) &&
    forall j :: 0 <= j < |keys| ==> parse(recs[j]) == Some(keys[j]) && writes(i + j, keys[j])
  }

  lemma AcceptedTail(
    parse: Parser, writes: (nat, KeyInfo) -> bool, recs: seq<seq<byte>>, keys: seq<KeyInfo>, i: nat)
    requires keys != [] && Accepted(parse, writes, recs, keys, i)
    ensures parse(recs[0]) == Some(keys[0]) && writes(i, keys[0])
    ensures Accepted(parse, writes, recs[1..], keys[1..], i + 1)
  {
  }

  lemma {:induction false} RecordsRoundTrip(
    parse: Parser, writes: (nat, KeyInfo) -> bool, recs: seq<seq<byte>>, keys: seq<KeyInfo>, i: nat)
    requires Accepted(parse, writes, recs, keys, i)
    ensures ReceiveRecords(parse, writes, Concat(recs), i, i + |keys|) == Reception(Received, keys, [])
    decreases |keys|
  {
    if keys != [] {
      AcceptedTail(parse, writes, recs, keys, i);
      RecordsRoundTrip(parse, writes, recs[1..], keys[1..], i + 1);
      var stream := Concat(recs);
      assert stream[..RECORD_LEN] == recs[0] && stream[RECORD_LEN..] == Concat(recs[1..]);
      assert keys == [keys[0]] + keys[1..];
    }
  }

  /** The message SendKey passes to the connection. */
  function Message(keys: seq<KeyInfo>): seq<byte>
    requires AllSendable(keys)
  {
    Header(|keys|) + Concat(RecordsOf(keys))
  }

  lemma HeaderParts(n: nat, body: seq<byte>)
    requires n < TWO_32
    ensures var stream := Header(n) + body;
            Value(stream[..4]) == SYNC_DATA_VERSION && Value(stream[4..8]) == n && stream[8..] == body
  {
    var stream := Header(n) + body;
    Widths();
    ValueOfBigEndian(SYNC_DATA_VERSION, 4);
    ValueOfBigEndian(n, 4);
    assert stream[..4] == BigEndian(SYNC_DATA_VERSION, 4);
    assert stream[4..8] == BigEndian(n, 4);
  }

  /**
   Round trip.  ReceiveKey run on what SendKey sends for 1 to 1024 keys writes the same keys,
   in order, and consumes the stream exactly.
   */
  lemma SyncRoundTrip(env: Env, keys: seq<KeyInfo>)
    requires 1 <= |keys| <= MAX_KEY_COUNT && AllSendable(keys)
    requires forall j :: 0 <= j < |keys| ==> Proper(env, keys[j]) && env.writes(j, keys[j])
    ensures Receive(env, Message(keys)) == Reception(Received, keys, [])
  {
    var recs := RecordsOf(keys);
    HeaderParts(|keys|, Concat(recs));
    forall j | 0 <= j < |keys| ensures RecordParser(env)(recs[j]) == Some(keys[j]) && env.writes(0 + j, keys[j]) {
      RecordRoundTrip(env, keys[j]);
    }
    RecordsRoundTrip(RecordParser(env), env.writes, recs, keys, 0);
  }
}
