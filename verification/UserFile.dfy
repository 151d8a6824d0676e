/**
 Registration and login of apps/src/app_sm.c: the user file is a struct whose words are
 converted in place between host and network order, authenticated by an HMAC over the
 converted part.  Key derivation and HMAC are deterministic functions of their inputs.
 */
module UserFile {
  import opened Wrappers
  import opened Bytes
  import opened Octets

  const VERSION: nat := 1
  const HMAC_SM3: nat := 291
  const ITER: nat := 1024
  const SALT_MAX_LEN: nat := 64
  const SALT_LEN: nat := 8
  const DKEY_LEN: nat := 32
  const HMAC_LEN: nat := 32
  const PARAM_LEN: nat := 120
  const INFO_LEN: nat := 156

  datatype Error = UioFail | InfoCmpFail | CryptoFail | IntegrityVerifyFail | PasswdFail

  /** kdf(macId, password, salt, iter) yields DKEY_LEN bytes; hmac(macId, data) is keyed by the build. */
  datatype Crypto = Crypto(
    kdf: (nat, string, seq<byte>, nat) -> Option<seq<byte>>, hmac: (nat, seq<byte>) -> Option<seq<byte>>)

  ghost predicate Lawful(c: Crypto) {
    forall id, p, salt, n :: c.kdf(id, p, salt, n).Some? ==> |c.kdf(id, p, salt, n).value| == DKEY_LEN
  }

  // ---------------------------------------------------------------- the file format

  /** The numeric fields of UserParam, as they lie in memory. */
  datatype Words = Words(
    version: seq<byte>, deriveMacId: seq<byte>, integrityMacId: seq<byte>, iter: seq<byte>, saltLen: seq<byte>,
    dKeyLen: seq<byte>)

  predicate WordSized(w: Words) {
    |w.version| == |w.deriveMacId| == |w.integrityMacId| == |w.iter| == |w.saltLen| == |w.dKeyLen| == 4
  }

  function ParamBytes(w: Words, salt: seq<byte>, dKey: seq<byte>): seq<byte> {
    w.version + w.deriveMacId + w.integrityMacId + w.iter + salt + w.saltLen + dKey + w.dKeyLen
  }

  /** The words of a registration, as the file holds them. */
  function NetworkWords(): (w: Words)
    ensures WordSized(w)
  {
    var id := BigEndian(HMAC_SM3, 4);
    Words(BigEndian(VERSION, 4), id, id, BigEndian(ITER, 4), BigEndian(SALT_LEN, 4), BigEndian(DKEY_LEN, 4))
  }

  function ParamImage(salt: seq<byte>, dKey: seq<byte>): (b: seq<byte>)
    requires |salt| == SALT_LEN && |dKey| == DKEY_LEN
    ensures |b| == PARAM_LEN
  {
    ParamBytes(NetworkWords(), salt + Zeros(SALT_MAX_LEN - SALT_LEN), dKey)
  }

  function InfoImage(param: seq<byte>, mac: seq<byte>): (b: seq<byte>)
    requires |param| == PARAM_LEN && |mac| <= HMAC_LEN
    ensures |b| == INFO_LEN
  {
    param + (mac + Zeros(HMAC_LEN - |mac|)) + BigEndian(|mac|, 4)
  }

  /** What registration leaves in the file. */
  function Registered(c: Crypto, password: string, salt: seq<byte>): Result<seq<byte>, Error>
    requires |salt| == SALT_LEN
  {
    var dKey := c.kdf(HMAC_SM3, password, salt, ITER);
    if dKey.None? || |dKey.value| != DKEY_LEN then Err(CryptoFail)
    else
      var param := ParamImage(salt, dKey.value);
      var mac := c.hmac(HMAC_SM3, param);
      if mac.None? || |mac.value| > HMAC_LEN then Err(CryptoFail) else Ok(InfoImage(param, mac.value))
  }

  // The fields of a file.
  function Word(f: seq<byte>, at: nat): nat
    requires at + 4 <= |f|
  {
    Value(f[at..at + 4])
  }

  predicate HeaderOk(f: seq<byte>)
    requires |f| >= INFO_LEN
  {
    Word(f, 0) == VERSION && Word(f, 80) <= SALT_MAX_LEN && Word(f, 116) <= DKEY_LEN && Word(f, 152) <= HMAC_LEN
  }

  /** The stored HMAC is that of the stored parameters. */
  predicate MacMatches(c: Crypto, f: seq<byte>)
    requires |f| >= INFO_LEN && HeaderOk(f)
  {
    var mac := c.hmac(Word(f, 8), f[..PARAM_LEN]);
    mac.Some? && mac.value == f[120..120 + Word(f, 152)]
  }

  function Derived(c: Crypto, f: seq<byte>, password: string): Option<seq<byte>>
    requires |f| >= INFO_LEN && HeaderOk(f)
  {
    c.kdf(Word(f, 4), password, f[16..16 + Word(f, 80)], Word(f, 12))
  }

  /** The key derived from the password is the stored one. */
  predicate KeyMatches(c: Crypto, f: seq<byte>, password: string)
    requires |f| >= INFO_LEN && HeaderOk(f)
  {
    Derived(c, f, password) == Some(f[84..116]) && Word(f, 116) == DKEY_LEN
  }

  // ------------------------------------------------------------------- the password

  datatype CharClass = Lower | Upper | Digit | Special

  function ClassOf(ch: char): CharClass {
    if 'a' <= ch <= 'z' then Lower
    else if 'A' <= ch <= 'Z' then Upper
    else if '0' <= ch <= '9' then Digit
    else Special
  }

  /** At least eight printable characters, not all of one class. */
  ghost predicate Acceptable(p: string) {
    |p| >= 8 && (forall i :: 0 <= i < |p| ==> '!' <= p[i] <= '~') &&
    exists i, j :: 0 <= i < |p| && 0 <= j < |p| && ClassOf(p[i]) != ClassOf(p[j])
  }

  /** The special characters, in code order: four runs without a gap. */
  const SPECIALS: string := "!\"#$%&'()*+,-./" + ":;<=>?@" + "[\\]^_`" + "{|}~"

  /** strchr finds exactly the printable characters that are in no other class. */
  lemma SpecialsAreTheRest(ch: char)
    requires '!' <= ch <= '~'
    ensures ch in SPECIALS <==> ClassOf(ch) == Special
  {
    if ClassOf(ch) == Special {
      var code := ch as int;
      var at := if code < 48 then code - 33 else if code < 65 then code - 43 else if code < 97 then code - 69
                else code - 95;
      SpecialAt(at);
    }
    if ch in SPECIALS {
      var at :| 0 <= at < |SPECIALS| && SPECIALS[at] == ch;
      SpecialAt(at);
    }
  }

  lemma SpecialAt(at: nat)
    requires at < 32
    ensures |SPECIALS| == 32
    ensures SPECIALS[at] as int == at + if at < 15 then 33 else if at < 22 then 43 else if at < 28 then 69 else 95
  {
    var a, b, c := "!\"#$%&'()*+,-./", ":;<=>?@", "[\\]^_`";
    assert at < 15 ==> SPECIALS[at] == a[at];
    assert 15 <= at < 22 ==> SPECIALS[at] == b[at - 15];
    assert 22 <= at < 28 ==> SPECIALS[at] == c[at - 22];
  }

  function Flag(b: bool): nat {
    if b then 1 else 0
  }

  ghost predicate Seen(p: string, n: nat, k: CharClass)
    requires n <= |p|
  {
    exists i :: 0 <= i < n && ClassOf(p[i]) == k
  }

  method CheckPassword(p: string) returns (ok: bool)
    ensures ok <==> Acceptable(p)
  {
    var lower, upper, digit, special := false, false, false, false;
    if |p| < 8 {
      return false;
    }
    for i := 0 to |p|
      invariant forall j :: 0 <= j < i ==> '!' <= p[j] <= '~'
      invariant lower == Seen(p, i, Lower) && upper == Seen(p, i, Upper)
      invariant digit == Seen(p, i, Digit) && special == Seen(p, i, Special)
    {
      if p[i] < '!' || p[i] > '~' {
        return false;
      }
      SpecialsAreTheRest(p[i]);
      lower := lower || 'a' <= p[i] <= 'z';
      upper := upper || 'A' <= p[i] <= 'Z';
      digit := digit || '0' <= p[i] <= '9';
      special := special || p[i] in SPECIALS;
    }
    ok := Flag(lower) + Flag(upper) + Flag(digit) + Flag(special) >= 2;
    TwoClasses(p, lower, upper, digit, special);
  }

  lemma TwoClasses(p: string, lower: bool, upper: bool, digit: bool, special: bool)
    requires lower == Seen(p, |p|, Lower) && upper == Seen(p, |p|, Upper)
    requires digit == Seen(p, |p|, Digit) && special == Seen(p, |p|, Special)
    ensures Flag(lower) + Flag(upper) + Flag(digit) + Flag(special) >= 2 <==>
            exists i, j :: 0 <= i < |p| && 0 <= j < |p| && ClassOf(p[i]) != ClassOf(p[j])
  {
    if i, j :| 0 <= i < |p| && 0 <= j < |p| && ClassOf(p[i]) != ClassOf(p[j]) {
      assert Seen(p, |p|, ClassOf(p[i])) && Seen(p, |p|, ClassOf(p[j]));
    }
  }

  method GetPassword(typed: Option<string>) returns (r: Result<string, Error>)
    ensures r == if typed.Some? && Acceptable(typed.value) then Ok(typed.value) else Err(PasswdFail)
  {
    if typed.None? {
      return Err(PasswdFail);
    }
    var ok := CheckPassword(typed.value);
    return if ok then Ok(typed.value) else Err(PasswdFail);
  }

  // ---------------------------------------------------------------------- word order

  /** How a machine lays out 32-bit words: reading, writing and the two in-place conversions. */
  datatype Order = Order(
    load: seq<byte> -> nat, store: nat -> seq<byte>, to: seq<byte> -> seq<byte>, from: seq<byte> -> seq<byte>)

  ghost predicate CoherentBytes(o: Order, b: seq<byte>) {
    |b| == 4 ==>
      |o.to(b)| == |o.from(b)| == 4 && o.to(o.from(b)) == b && o.from(o.to(b)) == b && o.load(o.from(b)) == Value(b)
  }

  ghost predicate CoherentWord(o: Order, v: nat) {
    v < TWO_32 ==> |o.store(v)| == 4 && o.load(o.store(v)) == v && o.to(o.store(v)) == BigEndian(v, 4)
  }

  /** The conversions undo each other and agree with the big-endian order. */
  ghost predicate Coherent(o: Order) {
    (forall b :: CoherentBytes(o, b)) && (forall v :: CoherentWord(o, v))
  }

  function OrderOf(host: Host): Order {
    Order(b => Load(host, b), v => Store(host, v, 4), b => ToNetwork(host, b), b => FromNetwork(host, b))
  }

  /** Both byte orders qualify. */
  lemma HostsAreCoherent(host: Host)
    ensures Coherent(OrderOf(host))
  {
    var o := OrderOf(host);
    forall b ensures CoherentBytes(o, b) {
      NetworkOrder(host, b);
    }
    forall v: nat ensures CoherentWord(o, v) {
      if v < TWO_32 {
        Widths();
        LoadStore(host, v, 4);
      }
    }
  }

  function Mapped(g: seq<byte> -> seq<byte>, w: Words): Words {
    Words(g(w.version), g(w.deriveMacId), g(w.integrityMacId), g(w.iter), g(w.saltLen), g(w.dKeyLen))
  }

  function Cvt(o: Order, toByte: bool): seq<byte> -> seq<byte> {
    if toByte then o.to else o.from
  }

  lemma MappedIsSized(o: Order, w: Words)
    requires Coherent(o) && WordSized(w)
    ensures WordSized(Mapped(o.to, w)) && WordSized(Mapped(o.from, w))
  {
    assert CoherentBytes(o, w.version) && CoherentBytes(o, w.deriveMacId) && CoherentBytes(o, w.integrityMacId);
    assert CoherentBytes(o, w.iter) && CoherentBytes(o, w.saltLen) && CoherentBytes(o, w.dKeyLen);
  }

  /** Converting twice changes nothing. */
  lemma MappedBack(o: Order, w: Words)
    requires Coherent(o) && WordSized(w)
    ensures Mapped(o.from, Mapped(o.to, w)) == w && Mapped(o.to, Mapped(o.from, w)) == w
  {
    assert CoherentBytes(o, w.version) && CoherentBytes(o, w.deriveMacId) && CoherentBytes(o, w.integrityMacId);
    assert CoherentBytes(o, w.iter) && CoherentBytes(o, w.saltLen) && CoherentBytes(o, w.dKeyLen);
  }

  /** The words of a file. */
  function FileWords(f: seq<byte>): (w: Words)
    requires |f| >= INFO_LEN
    ensures WordSized(w)
  {
    Words(f[0..4], f[4..8], f[8..12], f[12..16], f[80..84], f[116..120])
  }

  lemma FileParam(f: seq<byte>)
    requires |f| >= INFO_LEN
    ensures ParamBytes(FileWords(f), f[16..80], f[84..116]) == f[..PARAM_LEN]
  {
    assert f[0..4] + f[4..8] == f[..8] && f[..8] + f[8..12] == f[..12] && f[..12] + f[12..16] == f[..16];
    assert f[..16] + f[16..80] == f[..80] && f[..80] + f[80..84] == f[..84];
    assert f[..84] + f[84..116] == f[..116] && f[..116] + f[116..120] == f[..120];
  }

  /** The words of a new registration, in host order. */
  function FreshWords(o: Order): Words {
    Words(
      o.store(VERSION), o.store(HMAC_SM3), o.store(HMAC_SM3), o.store(ITER), o.store(SALT_LEN), o.store(DKEY_LEN))
  }

  lemma FreshWordsAre(o: Order)
    requires Coherent(o)
    ensures var w := FreshWords(o);
            WordSized(w) && o.load(w.deriveMacId) == HMAC_SM3 && o.load(w.integrityMacId) == HMAC_SM3 &&
            o.load(w.iter) == ITER && o.load(w.saltLen) == SALT_LEN
    ensures Mapped(o.to, FreshWords(o)) == NetworkWords()
  {
    assert CoherentWord(o, VERSION) && CoherentWord(o, HMAC_SM3) && CoherentWord(o, ITER);
    assert CoherentWord(o, SALT_LEN) && CoherentWord(o, DKEY_LEN);
  }

  // ------------------------------------------------------------------ the operations

  /** UserInfo: its words, in one order or the other, and its byte fields. */
  class UserInfo {
    var words: Words
    var salt: seq<byte>
    var dKey: seq<byte>
    var hmac: seq<byte>
    var hmacLen: seq<byte>

    ghost predicate Valid()
      reads this
    {
      WordSized(words) && |hmacLen| == 4 && |salt| == SALT_MAX_LEN && |dKey| == DKEY_LEN && |hmac| == HMAC_LEN
    }

    /** The bytes of the UserParam part. */
    function Param(): seq<byte>
      reads this
    {
      ParamBytes(words, salt, dKey)
    }

    function Image(): seq<byte>
      reads this
    {
      Param() + hmac + hmacLen
    }

    constructor ()
      ensures Valid() && salt == Zeros(SALT_MAX_LEN) && dKey == Zeros(DKEY_LEN) && hmac == Zeros(HMAC_LEN)
    {
      words := Words(Zeros(4), Zeros(4), Zeros(4), Zeros(4), Zeros(4), Zeros(4));
      salt, dKey, hmac, hmacLen := Zeros(SALT_MAX_LEN), Zeros(DKEY_LEN), Zeros(HMAC_LEN), Zeros(4);
    }

    /** UserParamOrderCvt: the words change order in place. */
    method ParamOrderCvt(o: Order, toByte: bool)
      requires Valid() && Coherent(o)
      modifies this`words
      ensures Valid() && words == Mapped(Cvt(o, toByte), old(words))
    {
      MappedIsSized(o, words);
      if toByte {
        words := words.(version := o.to(words.version), deriveMacId := o.to(words.deriveMacId));
        words := words.(integrityMacId := o.to(words.integrityMacId), iter := o.to(words.iter));
        words := words.(saltLen := o.to(words.saltLen), dKeyLen := o.to(words.dKeyLen));
      } else {
        words := words.(version := o.from(words.version), deriveMacId := o.from(words.deriveMacId));
        words := words.(integrityMacId := o.from(words.integrityMacId), iter := o.from(words.iter));
        words := words.(saltLen := o.from(words.saltLen), dKeyLen := o.from(words.dKeyLen));
      }
    }

    /** UserInfoOrderCvt. */
    method InfoOrderCvt(o: Order, toByte: bool)
      requires Valid() && Coherent(o)
      modifies this`words, this`hmacLen
      ensures Valid() && words == Mapped(Cvt(o, toByte), old(words)) && hmacLen == Cvt(o, toByte)(old(hmacLen))
    {
      assert CoherentBytes(o, hmacLen);
      ParamOrderCvt(o, toByte);
      hmacLen := Cvt(o, toByte)(hmacLen);
    }

    /** DeriveKeyFromPassword with the parameters in host order. */
    function DeriveKey(o: Order, c: Crypto, password: string): Option<seq<byte>>
      requires o.load(words.saltLen) <= |salt|
      reads this
    {
      c.kdf(o.load(words.deriveMacId), password, salt[..o.load(words.saltLen)], o.load(words.iter))
    }

    /** SetUserInfo, with the eight random bytes of the salt. */
    method Set(o: Order, c: Crypto, password: string, random: seq<byte>) returns (ok: bool)
      requires Valid() && Lawful(c) && Coherent(o) && |random| == SALT_LEN && salt == Zeros(SALT_MAX_LEN)
      modifies this`words, this`salt, this`dKey
      ensures Valid() && words == FreshWords(o) && salt == random + Zeros(SALT_MAX_LEN - SALT_LEN)
      ensures var key := c.kdf(HMAC_SM3, password, random, ITER);
              (ok <==> key.Some?) && (ok ==> dKey == key.value)
    {
      words := FreshWords(o);
      FreshWordsAre(o);
      salt := random + salt[SALT_LEN..];
      assert salt[..SALT_LEN] == random;
      var key := DeriveKey(o, c, password);
      if key.None? {
        return false;
      }
      dKey := key.value;
      return true;
    }
  }

  /** CalculateHMAC into a buffer of HMAC_LEN bytes. */
  function CalculateHmac(c: Crypto, macId: nat, data: seq<byte>): (r: Option<seq<byte>>)
    ensures r.Some? ==> |r.value| <= HMAC_LEN
  {
    var mac := c.hmac(macId, data);
    if mac.Some? && |mac.value| <= HMAC_LEN then mac else None
  }

  /** WriteUserFile: the struct in network order, if it can be written. */
  method WriteUserFile(info: UserInfo, o: Order, writable: bool) returns (r: Result<seq<byte>, Error>)
    requires info.Valid() && Coherent(o)
    modifies info
    ensures r == if writable
                 then Ok(ParamBytes(Mapped(o.to, old(info.words)), old(info.salt), old(info.dKey)) +
                         old(info.hmac) + o.to(old(info.hmacLen)))
                 else Err(UioFail)
  {
    if !writable {
      return Err(UioFail);
    }
    info.InfoOrderCvt(o, true);
    return Ok(info.Image());
  }

  /** The HMAC is taken over the parameters in network order, which are then converted back. */
  method Seal(info: UserInfo, o: Order, c: Crypto) returns (mac: Option<seq<byte>>)
    requires Coherent(o) && info.Valid() && info.words == FreshWords(o) && info.hmac == Zeros(HMAC_LEN)
    modifies info
    ensures mac == CalculateHmac(c, HMAC_SM3, ParamBytes(NetworkWords(), old(info.salt), old(info.dKey)))
    ensures mac.Some? ==>
              info.Valid() && info.words == FreshWords(o) && info.salt == old(info.salt) &&
              info.dKey == old(info.dKey) && info.hmac == mac.value + Zeros(HMAC_LEN - |mac.value|) &&
              info.hmacLen == o.store(|mac.value|)
  {
    FreshWordsAre(o);
    var macId := o.load(info.words.integrityMacId);
    info.ParamOrderCvt(o, true);
    mac := CalculateHmac(c, macId, info.Param());
    if mac.None? {
      return;
    }
    assert Zeros(HMAC_LEN)[|mac.value|..] == Zeros(HMAC_LEN - |mac.value|);
    info.hmac := mac.value + info.hmac[|mac.value|..];
    info.hmacLen := o.store(|mac.value|);
    assert CoherentWord(o, |mac.value|);
    MappedBack(o, FreshWords(o));
    info.ParamOrderCvt(o, false);
  }

  /**
   FirstTimeLogin: the file is the same on every machine.  `typed` is what the user types,
   `random` what the generator returns.
   */
  method FirstTimeLogin(o: Order, c: Crypto, typed: Option<string>, random: Option<seq<byte>>, writable: bool)
    returns (r: Result<seq<byte>, Error>)
    requires Coherent(o) && Lawful(c) && (random.Some? ==> |random.value| == SALT_LEN)
    ensures typed.None? || !Acceptable(typed.value) ==> r == Err(PasswdFail)
    ensures typed.Some? && Acceptable(typed.value) ==>
              if random.None? then r == Err(CryptoFail)
              else
                var file := Registered(c, typed.value, random.value);
                r == if file.Ok? && !writable then Err(UioFail) else file
  {
    var info := new UserInfo();
    var password := GetPassword(typed);
    if password.Err? {
      return Err(password.error);
    }
    if random.None? {
      return Err(CryptoFail);
    }
    var ok := info.Set(o, c, password.value, random.value);
    if !ok {
      return Err(CryptoFail);
    }
    var mac := Seal(info, o, c);
    if mac.None? {
      return Err(CryptoFail);
    }
    FreshWordsAre(o);
    assert CoherentWord(o, |mac.value|);
    r := WriteUserFile(info, o, writable);
  }

  /** The struct holds the file's fields, its words in host order. */
  ghost predicate Holds(o: Order, f: seq<byte>, info: UserInfo)
    requires |f| >= INFO_LEN
    reads info
  {
    info.Valid() && info.words == Mapped(o.from, FileWords(f)) && info.salt == f[16..80] &&
    info.dKey == f[84..116] && info.hmac == f[120..152] && info.hmacLen == o.from(f[152..156])
  }

  lemma LoadsWord(o: Order, b: seq<byte>)
    requires Coherent(o) && |b| == 4
    ensures o.load(o.from(b)) == Value(b)
  {
    assert CoherentBytes(o, b);
  }

  /** ReadUserFile: the struct is read whole, converted and checked. */
  method ReadUserFile(o: Order, f: seq<byte>) returns (r: Result<UserInfo, Error>)
    requires Coherent(o)
    ensures |f| < INFO_LEN ==> r == Err(UioFail)
    ensures |f| >= INFO_LEN && !HeaderOk(f) ==> r == Err(InfoCmpFail)
    ensures |f| >= INFO_LEN && HeaderOk(f) ==> r.Ok? && fresh(r.value) && Holds(o, f, r.value)
  {
    if |f| < INFO_LEN {
      return Err(UioFail);
    }
    var info := new UserInfo();
    info.words := FileWords(f);
    info.salt, info.dKey, info.hmac, info.hmacLen := f[16..80], f[84..116], f[120..152], f[152..156];
    info.InfoOrderCvt(o, false);
    LoadsWord(o, f[0..4]);
    LoadsWord(o, f[80..84]);
    LoadsWord(o, f[116..120]);
    LoadsWord(o, f[152..156]);
    if o.load(info.words.version) != VERSION || o.load(info.words.saltLen) > SALT_MAX_LEN ||
       o.load(info.words.dKeyLen) > DKEY_LEN || o.load(info.hmacLen) > HMAC_LEN {
      return Err(InfoCmpFail);
    }
    return Ok(info);
  }

  method VerifyHmac(c: Crypto, macId: nat, data: seq<byte>, hmac: seq<byte>, hmacLen: nat) returns (r: Option<Error>)
    requires hmacLen <= |hmac| == HMAC_LEN
    ensures r.None? <==> c.hmac(macId, data) == Some(hmac[..hmacLen])
    ensures r.Some? ==> r.value == if CalculateHmac(c, macId, data).None? then CryptoFail else IntegrityVerifyFail
  {
    var calculated := CalculateHmac(c, macId, data);
    if calculated.None? {
      return Some(CryptoFail);
    }
    if |calculated.value| != hmacLen {
      return Some(IntegrityVerifyFail);
    }
    var same := SameBytes(calculated.value, hmac, hmacLen);
    assert calculated.value[..hmacLen] == calculated.value;
    return if same then None else Some(IntegrityVerifyFail);
  }

  method VerifyPassword(o: Order, c: Crypto, info: UserInfo, password: string) returns (r: Option<Error>)
    requires info.Valid() && Lawful(c) && o.load(info.words.saltLen) <= SALT_MAX_LEN
    ensures var key := info.DeriveKey(o, c, password);
            r == if key.None? then Some(CryptoFail)
                 else if o.load(info.words.dKeyLen) != DKEY_LEN then Some(InfoCmpFail)
                 else if key.value != info.dKey then Some(PasswdFail)
                 else None
  {
    var derived := info.DeriveKey(o, c, password);
    if derived.None? {
      return Some(CryptoFail);
    }
    if o.load(info.words.dKeyLen) != DKEY_LEN {
      return Some(InfoCmpFail);
    }
    var same := SameBytes(derived.value, info.dKey, DKEY_LEN);
    assert derived.value[..DKEY_LEN] == derived.value && info.dKey[..DKEY_LEN] == info.dKey;
    return if same then None else Some(PasswdFail);
  }

  /** Every way a login on file f can fail, in the order they are met. */
  ghost function LoginFailure(c: Crypto, f: seq<byte>, typed: Option<string>): Option<Error> {
    if |f| < INFO_LEN then Some(UioFail)
    else if !HeaderOk(f) then Some(InfoCmpFail)
    else if CalculateHmac(c, Word(f, 8), f[..PARAM_LEN]).None? then Some(CryptoFail)
    else if !MacMatches(c, f) then Some(IntegrityVerifyFail)
    else if typed.None? || !Acceptable(typed.value) then Some(PasswdFail)
    else if Derived(c, f, typed.value).None? then Some(CryptoFail)
    else if Word(f, 116) != DKEY_LEN then Some(InfoCmpFail)
    else if !KeyMatches(c, f, typed.value) then Some(PasswdFail)
    else None
  }

  /** What the two checks of a login see of the file. */
  lemma ReadBack(o: Order, f: seq<byte>)
    requires Coherent(o) && |f| >= INFO_LEN
    ensures var w := Mapped(o.from, FileWords(f));
            Mapped(o.to, w) == FileWords(f) && Mapped(o.from, FileWords(f)) == w &&
            o.load(w.deriveMacId) == Word(f, 4) && o.load(w.integrityMacId) == Word(f, 8) &&
            o.load(w.iter) == Word(f, 12) && o.load(w.saltLen) == Word(f, 80) && o.load(w.dKeyLen) == Word(f, 116)
    ensures o.load(o.from(f[152..156])) == Word(f, 152)
  {
    MappedBack(o, FileWords(f));
    LoadsWord(o, f[4..8]);
    LoadsWord(o, f[8..12]);
    LoadsWord(o, f[12..16]);
    LoadsWord(o, f[80..84]);
    LoadsWord(o, f[116..120]);
    LoadsWord(o, f[152..156]);
  }

  lemma PrefixSlices(f: seq<byte>, n: nat, m: nat)
    requires |f| >= INFO_LEN && n <= HMAC_LEN && m <= SALT_MAX_LEN
    ensures f[120..152][..n] == f[120..120 + n] && f[16..80][..m] == f[16..16 + m]
  {
  }

  /** The HMAC of the parameters in network order, which are then converted back. */
  method CheckIntegrity(info: UserInfo, o: Order, c: Crypto, ghost f: seq<byte>) returns (r: Option<Error>)
    requires Coherent(o) && |f| >= INFO_LEN && HeaderOk(f) && Holds(o, f, info)
    modifies info
    ensures r == if CalculateHmac(c, Word(f, 8), f[..PARAM_LEN]).None? then Some(CryptoFail)
                 else if !MacMatches(c, f) then Some(IntegrityVerifyFail)
                 else None
    ensures r.None? ==> Holds(o, f, info)
  {
    ReadBack(o, f);
    FileParam(f);
    PrefixSlices(f, Word(f, 152), Word(f, 80));
    var macId := o.load(info.words.integrityMacId);
    info.ParamOrderCvt(o, true);
    r := VerifyHmac(c, macId, info.Param(), info.hmac, o.load(info.hmacLen));
    if r.None? {
      info.ParamOrderCvt(o, false);
    }
  }

  method CheckKey(info: UserInfo, o: Order, c: Crypto, ghost f: seq<byte>, password: string) returns (r: Option<Error>)
    requires Coherent(o) && Lawful(c) && |f| >= INFO_LEN && HeaderOk(f) && Holds(o, f, info)
    ensures r == if Derived(c, f, password).None? then Some(CryptoFail)
                 else if Word(f, 116) != DKEY_LEN then Some(InfoCmpFail)
                 else if !KeyMatches(c, f, password) then Some(PasswdFail)
                 else None
  {
    ReadBack(o, f);
    PrefixSlices(f, Word(f, 152), Word(f, 80));
    r := VerifyPassword(o, c, info, password);
  }

  /** ExistingUserLogin, on any machine. */
  method ExistingUserLogin(o: Order, c: Crypto, f: seq<byte>, typed: Option<string>) returns (r: Option<Error>)
    requires Coherent(o) && Lawful(c)
    ensures r == LoginFailure(c, f, typed)
  {
    var read := ReadUserFile(o, f);
    if read.Err? {
      return Some(read.error);
    }
    var info := read.value;
    r := CheckIntegrity(info, o, c, f);
    if r.Some? {
      return r;
    }
    var password := GetPassword(typed);
    if password.Err? {
      return Some(password.error);
    }
    r := CheckKey(info, o, c, f, password.value);
  }

  // -------------------------------------------------------------------- the theorems

  /** A struct cut into its fields. */
  lemma PartSlices(w: Words, salt: seq<byte>, dKey: seq<byte>, hmac: seq<byte>, hmacLen: seq<byte>)
    requires WordSized(w) && |salt| == SALT_MAX_LEN && |dKey| == DKEY_LEN && |hmac| == HMAC_LEN && |hmacLen| == 4
    ensures var param := ParamBytes(w, salt, dKey); var f := param + hmac + hmacLen;
            |f| == INFO_LEN && f[..PARAM_LEN] == param && FileWords(f) == w && f[16..80] == salt &&
            f[84..116] == dKey && f[120..152] == hmac && f[152..156] == hmacLen
  {
  }

  lemma NetworkWordsAre()
    ensures var w := NetworkWords();
            Value(w.version) == VERSION && Value(w.deriveMacId) == Value(w.integrityMacId) == HMAC_SM3 &&
            Value(w.iter) == ITER && Value(w.saltLen) == SALT_LEN && Value(w.dKeyLen) == DKEY_LEN
  {
    Widths();
    ValueOfBigEndian(VERSION, 4);
    ValueOfBigEndian(HMAC_SM3, 4);
    ValueOfBigEndian(ITER, 4);
    ValueOfBigEndian(SALT_LEN, 4);
    ValueOfBigEndian(DKEY_LEN, 4);
  }

  /** The fields of a registered file. */
  lemma ImageFields(w: Words, salt: seq<byte>, dKey: seq<byte>, mac: seq<byte>, macLen: seq<byte>, f: seq<byte>)
    requires WordSized(w) && |salt| == SALT_LEN && |dKey| == DKEY_LEN && |mac| <= HMAC_LEN && |macLen| == 4
    requires f == ParamBytes(w, salt + Zeros(SALT_MAX_LEN - SALT_LEN), dKey) + (mac + Zeros(HMAC_LEN - |mac|)) + macLen
    ensures |f| == INFO_LEN && FileWords(f) == w && f[84..116] == dKey && f[152..156] == macLen
    ensures f[..PARAM_LEN] == ParamBytes(w, salt + Zeros(SALT_MAX_LEN - SALT_LEN), dKey)
    ensures f[16..16 + SALT_LEN] == salt && f[120..120 + |mac|] == mac
  {
    PartSlices(w, salt + Zeros(SALT_MAX_LEN - SALT_LEN), dKey, mac + Zeros(HMAC_LEN - |mac|), macLen);
    assert f[16..24] == f[16..80][..8];
    assert f[120..120 + |mac|] == f[120..152][..|mac|];
  }

  /**
   On a registered file a later login succeeds exactly with an acceptable password that
   derives the same key; in particular with the one it was registered with.
   */
  lemma RegisterThenLogin(c: Crypto, password: string, salt: seq<byte>, other: string)
    requires Lawful(c) && |salt| == SALT_LEN && Registered(c, password, salt).Ok?
    ensures LoginFailure(c, Registered(c, password, salt).value, Some(other)).None? <==>
            Acceptable(other) && c.kdf(HMAC_SM3, other, salt, ITER) == c.kdf(HMAC_SM3, password, salt, ITER)
  {
    var f := Registered(c, password, salt).value;
    var dKey := c.kdf(HMAC_SM3, password, salt, ITER).value;
    var mac := c.hmac(HMAC_SM3, ParamImage(salt, dKey)).value;
    ImageFields(NetworkWords(), salt, dKey, mac, BigEndian(|mac|, 4), f);
    NetworkWordsAre();
    Widths();
    ValueOfBigEndian(|mac|, 4);
    assert HeaderOk(f);
    LoginIff(c, f, Some(other));
  }

  /** A login succeeds exactly when the file is well formed, its HMAC matches, and the password derives the stored key. */
  lemma LoginIff(c: Crypto, f: seq<byte>, typed: Option<string>)
    requires Lawful(c)
    ensures LoginFailure(c, f, typed).None? <==>
            |f| >= INFO_LEN && HeaderOk(f) && MacMatches(c, f) && typed.Some? && Acceptable(typed.value) &&
            KeyMatches(c, f, typed.value)
  {
    if |f| >= INFO_LEN && HeaderOk(f) && MacMatches(c, f) {
      assert |c.hmac(Word(f, 8), f[..PARAM_LEN]).value| <= HMAC_LEN;
    }
  }

  /** Register on one machine, log in on another with the same password: the login succeeds whenever there is a file. */
  method RegisterAndLogin(o1: Order, o2: Order, c: Crypto, password: string, salt: seq<byte>)
    returns (file: Result<seq<byte>, Error>, accepted: bool)
    requires Coherent(o1) && Coherent(o2) && Lawful(c) && |salt| == SALT_LEN
    ensures file.Ok? <==> Acceptable(password) && Registered(c, password, salt).Ok?
    ensures accepted <==> file.Ok?
  {
    file := FirstTimeLogin(o1, c, Some(password), Some(salt), true);
    if file.Err? {
      return file, false;
    }
    RegisterThenLogin(c, password, salt, password);
    var failure := ExistingUserLogin(o2, c, file.value, Some(password));
    return file, failure.None?;
  }
}
