/**
 SendKey and ReceiveKey as the code runs them: a record struct whose words are converted
 in place between host and network order, a send buffer filled at a running index, and a
 receive loop over a stream.  Both are independent of the byte order of the host.
 */
module KeySyncOps {
  import opened Wrappers
  import opened Bytes
  import opened KeySync
  import opened Uuid

  /** memcpy into a byte field. */
  function Splice(b: seq<byte>, at: nat, src: seq<byte>): (r: seq<byte>)
    requires at + |src| <= |b|
    ensures |r| == |b|
  {
    b[..at] + src + b[at + |src|..]
  }

  /** Copying behind what is already there extends it. */
  lemma AppendSplice(b: seq<byte>, done: seq<byte>, src: seq<byte>)
    requires |done| + |src| <= |b| && b == done + Zeros(|b| - |done|)
    ensures Splice(b, |done|, src) == done + src + Zeros(|b| - |done| - |src|)
  {
  }

  /** HITLS_SyncKeyInfo: the fields as they lie in memory. */
  class SyncKeyInfo {
    var version: seq<byte>
    var uuid: seq<byte>
    var algId: seq<byte>
    var createTime: seq<byte>
    var expireTime: seq<byte>
    var keyLen: seq<byte>
    var key: seq<byte>

    ghost predicate Valid()
      reads this
    {
      |version| == 4 && |uuid| == UUID_LEN && |algId| == 4 && |createTime| == 8 && |expireTime| == 8 &&
      |keyLen| == 4 && |key| == SYNC_KEY_LEN
    }

    /** The bytes of the struct, with its trailing padding. */
    function Image(): (b: seq<byte>)
      requires Valid()
      reads this
      ensures |b| == RECORD_LEN
    {
      (version + uuid + algId + createTime + expireTime) + keyLen + key + Zeros(4)
    }

    constructor ()
      ensures Valid() && key == Zeros(SYNC_KEY_LEN)
    {
      version, uuid, algId := Zeros(4), Zeros(UUID_LEN), Zeros(4);
      createTime, expireTime, keyLen, key := Zeros(8), Zeros(8), Zeros(4), Zeros(SYNC_KEY_LEN);
    }

    /** Copy the attributes of a key, in host order. */
    method SetAttr(host: Host, a: KeyAttr)
      requires Valid() && ValidAttr(a)
      modifies this`version, this`uuid, this`algId, this`createTime, this`expireTime
      ensures Valid() && uuid == a.uuid
      ensures version == Store(host, a.version, 4) && algId == Store(host, a.algId, 4)
      ensures createTime == Store(host, a.createTime, 8) && expireTime == Store(host, a.expireTime, 8)
    {
      version, uuid, algId := Store(host, a.version, 4), a.uuid, Store(host, a.algId, 4);
      createTime, expireTime := Store(host, a.createTime, 8), Store(host, a.expireTime, 8);
    }

    /** KeyAttrOrderCvt: the numeric attributes change order in place. */
    method OrderCvt(host: Host, toByte: bool)
      requires Valid()
      modifies this`version, this`algId, this`createTime, this`expireTime
      ensures Valid()
      ensures toByte ==> version == ToNetwork(host, old(version)) && algId == ToNetwork(host, old(algId)) &&
                         createTime == ToNetwork(host, old(createTime)) &&
                         expireTime == ToNetwork(host, old(expireTime))
      ensures !toByte ==> version == FromNetwork(host, old(version)) && algId == FromNetwork(host, old(algId)) &&
                          createTime == FromNetwork(host, old(createTime)) &&
                          expireTime == FromNetwork(host, old(expireTime))
    {
      if toByte {
        version, algId := ToNetwork(host, version), ToNetwork(host, algId);
        createTime, expireTime := ToNetwork(host, createTime), ToNetwork(host, expireTime);
      } else {
        version, algId := FromNetwork(host, version), FromNetwork(host, algId);
        createTime, expireTime := FromNetwork(host, createTime), FromNetwork(host, expireTime);
      }
    }

    /** The attributes in network order, whatever the host. */
    method FillAttr(host: Host, a: KeyAttr)
      requires Valid() && ValidAttr(a)
      modifies this`version, this`uuid, this`algId, this`createTime, this`expireTime
      ensures Valid() && version + uuid + algId + createTime + expireTime == AttrImage(a)
    {
      SetAttr(host, a);
      OrderCvt(host, true);
      Widths();
      LoadStore(host, a.version, 4);
      LoadStore(host, a.algId, 4);
      LoadStore(host, a.createTime, 8);
      LoadStore(host, a.expireTime, 8);
    }

    method AppendPair(pair: KeyPair) returns (used: nat)
      requires Valid() && key == Zeros(SYNC_KEY_LEN) && |pair.pub| + |pair.prv| + 8 <= SYNC_KEY_LEN
      modifies this`key
      ensures Valid() && used == |Sm2Image(pair)| && key == Sm2Image(pair) + Zeros(SYNC_KEY_LEN - used)
    {
      used := 0;
      AppendSplice(key, [], BigEndian(|pair.pub|, 4));
      key := Splice(key, used, BigEndian(|pair.pub|, 4));
      used := used + 4;
      AppendSplice(key, [] + BigEndian(|pair.pub|, 4), pair.pub);
      key := Splice(key, used, pair.pub);
      used := used + |pair.pub|;
      AppendSplice(key, [] + BigEndian(|pair.pub|, 4) + pair.pub, BigEndian(|pair.prv|, 4));
      key := Splice(key, used, BigEndian(|pair.prv|, 4));
      used := used + 4;
      AppendSplice(key, [] + BigEndian(|pair.pub|, 4) + pair.pub + BigEndian(|pair.prv|, 4), pair.prv);
      key := Splice(key, used, pair.prv);
      used := used + |pair.prv|;
      assert [] + BigEndian(|pair.pub|, 4) == BigEndian(|pair.pub|, 4);
    }

    /** FillSyncKeyInfoFromSm2: lengths and keys are appended at a running index. */
    method FillFromSm2(host: Host, k: KeyInfo) returns (ok: bool)
      requires Valid() && ValidKey(k) && k.attr.algId == CRYPT_PKEY_SM2 && key == Zeros(SYNC_KEY_LEN)
      modifies this
      ensures Valid() && (ok <==> Sendable(k)) && (ok ==> Image() == RecordOf(k))
    {
      FillAttr(host, k.attr);
      if k.pair.None? {
        return false;
      }
      var pair := k.pair.value;
      if |pair.pub| + |pair.prv| + 8 > SYNC_KEY_LEN {
        return false;
      }
      var used := AppendPair(pair);
      keyLen := BigEndian(used, 4);
      return true;
    }

    /** FillSyncKeyInfoFromCipher. */
    method FillFromCipher(host: Host, k: KeyInfo)
      requires Valid() && ValidKey(k) && k.attr.algId != CRYPT_PKEY_SM2 && key == Zeros(SYNC_KEY_LEN)
      modifies this
      ensures Valid() && Sendable(k) && Image() == RecordOf(k)
    {
      FillAttr(host, k.attr);
      key := Splice(key, 0, k.key);
      assert key == k.key + Zeros(SYNC_KEY_LEN - |k.key|);
      keyLen := BigEndian(|k.key|, 4);
    }

    /** A received record is stored into the struct byte by byte. */
    method Receive(rec: seq<byte>)
      requires |rec| == RECORD_LEN
      modifies this
      ensures Valid() && version == rec[..4] && uuid == rec[4..36] && algId == rec[36..40]
      ensures createTime == rec[40..48] && expireTime == rec[48..56] && keyLen == rec[56..60] && key == rec[60..188]
    {
      version, uuid, algId, createTime := rec[..4], rec[4..36], rec[36..40], rec[40..48];
      expireTime, keyLen, key := rec[48..56], rec[56..60], rec[60..188];
    }

    /** Convert a received record to host order and read its attributes. */
    method ReadAttr(host: Host, ghost rec: seq<byte>) returns (a: KeyAttr)
      requires Valid() && |rec| == RECORD_LEN && version == rec[..4] && uuid == rec[4..36] && algId == rec[36..40]
      requires createTime == rec[40..48] && expireTime == rec[48..56]
      modifies this`version, this`algId, this`createTime, this`expireTime
      ensures Valid() && a == AttrOf(rec)
    {
      NetworkOrder(host, version);
      NetworkOrder(host, algId);
      NetworkOrder(host, createTime);
      NetworkOrder(host, expireTime);
      OrderCvt(host, false);
      a := KeyAttr(Load(host, version), uuid, Load(host, algId), Load(host, createTime), Load(host, expireTime));
    }

    /** ParseAndWriteKeyFile up to the write: the key the record describes, or a rejection. */
    method Parse(host: Host, env: Env, ghost rec: seq<byte>) returns (r: Option<KeyInfo>)
      requires |rec| == RECORD_LEN
      requires Valid() && version == rec[..4] && uuid == rec[4..36] && algId == rec[36..40]
      requires createTime == rec[40..48] && expireTime == rec[48..56] && keyLen == rec[56..60] && key == rec[60..188]
      modifies this
      ensures r == KeyOf(env, rec)
    {
      NetworkOrder(host, keyLen);
      keyLen := FromNetwork(host, keyLen);
      var len := Load(host, keyLen);
      if len > SYNC_KEY_LEN {
        return None;
      }
      var attr := ReadAttr(host, rec);
      if attr.algId == CRYPT_PKEY_SM2 {
        var pair := ParseSm2(key, len);
        if pair.None? || !env.pairChecks(pair.value) {
          return None;
        }
        return Some(KeyInfo(attr, [], pair));
      }
      if len > KEY_LEN {
        return None;
      }
      return Some(KeyInfo(attr, key[..len], None));
    }
  }

  // -------------------------------------------------------------------- SendKey

  datatype SendError = BadUuidList | BadCount | KeyUnavailable | SendFailed

  /** PrepareOneKey: read the key, fill a zeroed record, and copy it to the buffer at the index. */
  method PrepareOneKey(host: Host, key: Option<KeyInfo>, buf: array<byte>, index: nat) returns (ok: bool)
    requires key.Some? ==> ValidKey(key.value)
    requires index + RECORD_LEN <= buf.Length
    modifies buf
    ensures ok <==> key.Some? && Sendable(key.value)
    ensures ok ==> buf[..index + RECORD_LEN] == old(buf[..index]) + RecordOf(key.value)
  {
    if key.None? {
      return false;
    }
    var info := new SyncKeyInfo();
    if key.value.attr.algId == CRYPT_PKEY_SM2 {
      var filled := info.FillFromSm2(host, key.value);
      if !filled {
        return false;
      }
    } else {
      info.FillFromCipher(host, key.value);
    }
    Memcpy(buf, index, info.Image());
    assert buf[..index + RECORD_LEN] == old(buf[..index]) + RecordOf(key.value);
    return true;
  }

  /** The first i words name keys that can be sent. */
  ghost predicate Found(store: string -> Option<KeyInfo>, words: seq<string>, keys: seq<KeyInfo>) {
    |keys| <= |words| && AllSendable(keys) && forall j :: 0 <= j < |keys| ==> store(words[j]) == Some(keys[j])
  }

  /** Every word names a key that can be sent. */
  ghost predicate AllAvailable(store: string -> Option<KeyInfo>, words: seq<string>) {
    forall j :: 0 <= j < |words| ==> store(words[j]).Some? && Sendable(store(words[j]).value)
  }

  /** The j-th key received is genuine and can be written. */
  ghost predicate Arrives(env: Env, j: nat, k: KeyInfo) {
    Proper(env, k) && env.writes(j, k)
  }

  /** The keys a list of words names. */
  ghost function KeysOf(store: string -> Option<KeyInfo>, words: seq<string>): seq<KeyInfo>
    requires AllAvailable(store, words)
  {
    seq(|words|, j requires 0 <= j < |words| => store(words[j]).value)
  }

  lemma FoundAll(store: string -> Option<KeyInfo>, words: seq<string>, keys: seq<KeyInfo>)
    requires Found(store, words, keys) && |keys| == |words|
    ensures AllAvailable(store, words) && KeysOf(store, words) == keys
  {
  }

  /** What the buffer holds once the records of `keys` have been appended. */
  ghost predicate Prepared(
    store: string -> Option<KeyInfo>, words: seq<string>, keys: seq<KeyInfo>, header: seq<byte>, bytes: seq<byte>)
  {
    Found(store, words, keys) && |bytes| == |header| + |keys| * RECORD_LEN &&
    bytes == header + Concat(RecordsOf(keys))
  }

  lemma RecordsGrow(keys: seq<KeyInfo>, k: KeyInfo)
    requires AllSendable(keys) && Sendable(k)
    ensures AllSendable(keys + [k]) && Concat(RecordsOf(keys + [k])) == Concat(RecordsOf(keys)) + RecordOf(k)
  {
    ConcatAppend(RecordsOf(keys), RecordOf(k));
    assert RecordsOf(keys + [k]) == RecordsOf(keys) + [RecordOf(k)];
  }

  lemma FoundGrows(store: string -> Option<KeyInfo>, words: seq<string>, keys: seq<KeyInfo>, k: KeyInfo)
    requires Found(store, words, keys) && |keys| < |words| && store(words[|keys|]) == Some(k) && Sendable(k)
    ensures Found(store, words, keys + [k])
  {
  }

  lemma Regroup(a: seq<byte>, b: seq<byte>, c: seq<byte>)
    ensures a + b + c == a + (b + c)
  {
  }

  lemma PreparedGrows(
    store: string -> Option<KeyInfo>, words: seq<string>, keys: seq<KeyInfo>, header: seq<byte>, bytes: seq<byte>,
    k: KeyInfo)
    requires Prepared(store, words, keys, header, bytes) && |keys| < |words|
    requires store(words[|keys|]) == Some(k) && Sendable(k)
    ensures Prepared(store, words, keys + [k], header, bytes + RecordOf(k))
  {
    RecordsGrow(keys, k);
    FoundGrows(store, words, keys, k);
    Regroup(header, Concat(RecordsOf(keys)), RecordOf(k));
  }

  /** PreparHeaderInfo. */
  method PrepareHeader(n: nat, buf: array<byte>) returns (index: nat)
    requires 8 <= buf.Length
    modifies buf
    ensures index == 8 && buf[..index] == Header(n)
  {
    index := 0;
    Memcpy(buf, index, BigEndian(SYNC_DATA_VERSION, 4));
    index := index + 4;
    Memcpy(buf, index, BigEndian(n, 4));
    index := index + 4;
  }

  /** The loop over the uuids: each key's record is appended to the buffer. */
  method PrepareKeys(host: Host, words: seq<string>, store: string -> Option<KeyInfo>, buf: array<byte>)
    returns (ok: bool, index: nat, ghost keys: seq<KeyInfo>)
    requires forall w :: store(w).Some? ==> ValidKey(store(w).value)
    requires buf.Length == 8 + |words| * RECORD_LEN
    modifies buf
    ensures Found(store, words, keys)
    ensures ok ==> |keys| == |words| && index == buf.Length &&
                   buf[..index] == old(buf[..8]) + Concat(RecordsOf(keys))
    ensures !ok ==> |keys| < |words| && (store(words[|keys|]).None? || !Sendable(store(words[|keys|]).value))
  {
    keys, index := [], 8;
    ghost var header := buf[..8];
    for i := 0 to |words|
      invariant |keys| == i && index == 8 + i * RECORD_LEN
      invariant Prepared(store, words, keys, header, buf[..index])
    {
      var k := store(words[i]);
      ghost var before := buf[..index];
      ok := PrepareOneKey(host, k, buf, index);
      if !ok {
        return;
      }
      PreparedGrows(store, words, keys, header, before, k.value);
      keys := keys + [k.value];
      index := index + RECORD_LEN;
    }
    ok := true;
  }

  /**
   HITLS_APP_SendKey: the message for the keys named by a uuid list, in the order of the
   list, handed whole to the send callback.  It fails exactly when the list is malformed or
   too long, some key cannot be sent, or the callback fails.
   */
  method SendKey(host: Host, uuid: string, store: string -> Option<KeyInfo>, sendFunc: seq<byte> -> bool)
    returns (r: Result<seq<byte>, SendError>, ghost words: seq<string>, ghost keys: seq<KeyInfo>)
    requires forall w :: store(w).Some? ==> ValidKey(store(w).value)
    ensures r == Err(BadUuidList) <==> !IsUuidList(uuid)
    ensures IsUuidList(uuid) ==> words != [] && AllUuids(words) && Join(words) == uuid
    ensures r == Err(BadCount) <==> IsUuidList(uuid) && |words| > 1024
    ensures r.Ok? || r == Err(SendFailed) ==>
              1 <= |keys| == |words| <= MAX_KEY_COUNT && Found(store, words, keys) &&
              (r == if sendFunc(Message(keys)) then Ok(Message(keys)) else Err(SendFailed))
    ensures r == Err(KeyUnavailable) ==>
              |keys| < |words| && Found(store, words, keys) &&
              (store(words[|keys|]).None? || !Sendable(store(words[|keys|]).value))
  {
    keys := [];
    words := [];
    var list := SplitUuidString(uuid);
    if list.Err? {
      return Err(BadUuidList), words, keys;
    }
    words := list.value;
    var n := |list.value|;
    if n == 0 || n > MAX_KEY_COUNT {
      return Err(BadCount), words, keys;
    }
    var buf := new byte[8 + n * RECORD_LEN];
    var index := PrepareHeader(n, buf);
    var ok;
    ok, index, keys := PrepareKeys(host, list.value, store, buf);
    if !ok {
      return Err(KeyUnavailable), words, keys;
    }
    assert buf[..index] == Message(keys);
    if !sendFunc(buf[..index]) {
      return Err(SendFailed), words, keys;
    }
    return Ok(buf[..index]), words, keys;
  }

  // ----------------------------------------------------------------- ReceiveKey

  const ITER_MIN: int := 1024
  const SALT_LEN_MIN: int := 8

  /** The key derivation parameters, where -1 stands for the default. */
  predicate KdfOk(iter: int, saltLen: int) {
    (iter == -1 || iter >= 1024) && (saltLen == -1 || saltLen >= 8)
  }

  /**
   HITLS_APP_ReceiveKey on a stream.  Bad key derivation parameters are refused before anything
   is read; the result does not depend on the host.
   */
  method ReceiveKey(host: Host, env: Env, iter: int, saltLen: int, stream: seq<byte>) returns (r: Reception)
    ensures r == if KdfOk(iter, saltLen) then KeySync.Receive(env, stream) else Reception(BadOption, [], stream)
  {
    var kdfIter, kdfSaltLen := if iter == -1 then 10000 else iter, if saltLen == -1 then 16 else saltLen;
    if kdfIter < ITER_MIN || kdfSaltLen < SALT_LEN_MIN {
      return Reception(BadOption, [], stream);
    }
    if |stream| < 4 {
      return Reception(Truncated, [], stream);
    }
    NetworkOrder(host, stream[..4]);
    if Load(host, FromNetwork(host, stream[..4])) != SYNC_DATA_VERSION {
      return Reception(Rejected, [], stream[4..]);
    }
    if |stream| < 8 {
      return Reception(Truncated, [], stream[4..]);
    }
    NetworkOrder(host, stream[4..8]);
    var n := Load(host, FromNetwork(host, stream[4..8]));
    if n == 0 || n > MAX_KEY_COUNT {
      return Reception(Rejected, [], stream[8..]);
    }
    r := ReceiveLoop(host, env, stream[8..], n);
  }

  /** A run that continues after `written` has been written. */
  ghost function Resumed(
    parse: Parser, writes: (nat, KeyInfo) -> bool, written: seq<KeyInfo>, rest: seq<byte>, i: nat, n: nat): Reception
    requires i <= n
  {
    var r := ReceiveRecords(parse, writes, rest, i, n);
    r.(written := written + r.written)
  }

  lemma ResumedFromStart(parse: Parser, writes: (nat, KeyInfo) -> bool, stream: seq<byte>, n: nat)
    ensures Resumed(parse, writes, [], stream, 0, n) == ReceiveRecords(parse, writes, stream, 0, n)
  {
  }

  lemma ResumedStep(
    parse: Parser, writes: (nat, KeyInfo) -> bool, written: seq<KeyInfo>, rest: seq<byte>, i: nat, n: nat)
    requires i < n && |rest| >= RECORD_LEN
    ensures var (k, rest') := (parse(rest[..RECORD_LEN]), rest[RECORD_LEN..]);
            Resumed(parse, writes, written, rest, i, n) ==
            if k.None? then Reception(Rejected, written, rest')
            else if !writes(i, k.value) then Reception(WriteFailed, written, rest')
            else Resumed(parse, writes, written + [k.value], rest', i + 1, n)
  {
  }

  method ParseRecord(host: Host, env: Env, info: SyncKeyInfo, rec: seq<byte>, ghost parse: Parser)
    returns (k: Option<KeyInfo>)
    requires |rec| == RECORD_LEN && parse == RecordParser(env)
    modifies info
    ensures k == parse(rec)
  {
    info.Receive(rec);
    k := info.Parse(host, env, rec);
  }

  method ReceiveLoop(host: Host, env: Env, stream: seq<byte>, n: nat) returns (r: Reception)
    ensures r == ReceiveRecords(RecordParser(env), env.writes, stream, 0, n)
  {
    ghost var parse := RecordParser(env);
    var written: seq<KeyInfo>, rest := [], stream;
    ResumedFromStart(parse, env.writes, stream, n);
    var info := new SyncKeyInfo();
    for i := 0 to n
      invariant Resumed(parse, env.writes, [], stream, 0, n) == Resumed(parse, env.writes, written, rest, i, n)
    {
      if |rest| < RECORD_LEN {
        assert written + [] == written;
        return Reception(Truncated, written, rest);
      }
      ResumedStep(parse, env.writes, written, rest, i, n);
      var k := ParseRecord(host, env, info, rest[..RECORD_LEN], parse);
      rest := rest[RECORD_LEN..];
      if k.None? {
        return Reception(Rejected, written, rest);
      }
      if !env.writes(i, k.value) {
        return Reception(WriteFailed, written, rest);
      }
      written := written + [k.value];
    }
    assert written + [] == written;
    return Reception(Received, written, rest);
  }

  /**
   A whole synchronisation of the keys on a uuid list between two hosts of any byte order.
   The message is sent exactly when the list is not too long, every key on it can be sent and
   the callback delivers it; if the receiver accepts the keys, it then ends up with the sender's
   keys, in the order of the list.
   */
  method Synchronise(
    sender: Host, receiver: Host, words: seq<string>, store: string -> Option<KeyInfo>, sendFunc: seq<byte> -> bool,
    iter: int, saltLen: int, env: Env)
    returns (r: Option<Reception>)
    requires words != [] && AllUuids(words)
    requires forall w :: store(w).Some? ==> ValidKey(store(w).value)
    ensures r.Some? <==>
              |words| <= 1024 && AllAvailable(store, words) && AllSendable(KeysOf(store, words)) &&
              sendFunc(Message(KeysOf(store, words)))
    ensures r.Some? && KdfOk(iter, saltLen) && (forall j :: 0 <= j < |words| ==> Arrives(env, j, KeysOf(store, words)[j])) ==>
              r.value == Reception(Received, KeysOf(store, words), [])
  {
    var message, split, keys := SendKey(sender, Join(words), store, sendFunc);
    JoinIsInjective(split, words);
    if message.Err? {
      if message.error.SendFailed? {
        assert message == Err(SendFailed);
        FoundAll(store, words, keys);
      }
      assert message.error.KeyUnavailable? ==> message == Err(KeyUnavailable) && !AllAvailable(store, words);
      return None;
    }
    FoundAll(store, words, keys);
    var reception := ReceiveKey(receiver, env, iter, saltLen, message.value);
    if forall j :: 0 <= j < |keys| ==> Arrives(env, j, keys[j]) {
      SyncRoundTrip(env, keys);
    }
    return Some(reception);
  }
}
