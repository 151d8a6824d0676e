/** The user file by byte offsets: what registration writes, and which files a login accepts. */
module UserFileBytes {
  import opened Wrappers
  import opened Bytes
  import opened UserFile

  /** Eight or more characters with codes 33 to 126 that are not all lower case, all upper case, all digits or all others. */
  lemma AcceptableRule(p: string)
    ensures Acceptable(p) <==>
            |p| >= 8 && (forall i :: 0 <= i < |p| ==> 33 <= p[i] as int <= 126) &&
            !(forall i :: 0 <= i < |p| ==> 97 <= p[i] as int <= 122) &&
            !(forall i :: 0 <= i < |p| ==> 65 <= p[i] as int <= 90) &&
            !(forall i :: 0 <= i < |p| ==> 48 <= p[i] as int <= 57) &&
            !(forall i :: 0 <= i < |p| ==> !IsAlnum(p[i]))
  {
    if |p| >= 8 {
      var first := ClassOf(p[0]);
      if forall i :: 0 <= i < |p| ==> ClassOf(p[i]) == first {
        assert !Acceptable(p);
        assert p[0] == p[0];
      } else {
        var j :| 0 <= j < |p| && ClassOf(p[j]) != first;
        assert ClassOf(p[0]) != ClassOf(p[j]);
      }
    }
  }

  predicate IsAlnum(c: char) {
    97 <= c as int <= 122 || 65 <= c as int <= 90 || 48 <= c as int <= 57
  }

  // ------------------------------------------------------------------- registration

  /** Every byte of a registered file but the HMAC. */
  ghost predicate ParamsAt(c: Crypto, f: seq<byte>, password: string, salt: seq<byte>) {
    |f| == 156 && Value(f[0..4]) == 1 && Value(f[4..8]) == 291 && Value(f[8..12]) == 291 &&
    Value(f[12..16]) == 1024 && f[16..24] == salt && (forall i :: 24 <= i < 80 ==> f[i] == 0) &&
    Value(f[80..84]) == 8 && c.kdf(291, password, salt, 1024) == Some(f[84..116]) && Value(f[116..120]) == 32
  }

  /** The HMAC of the first 120 bytes, padded with zeros, and its length. */
  ghost predicate MacAt(c: Crypto, f: seq<byte>) {
    |f| == 156 && c.hmac(291, f[..120]).Some? &&
    var mac := c.hmac(291, f[..120]).value;
    |mac| <= 32 && f[120..120 + |mac|] == mac && (forall i :: 120 + |mac| <= i < 152 ==> f[i] == 0) &&
    Value(f[152..156]) == |mac|
  }

  lemma ImagePadding(w: Words, salt: seq<byte>, dKey: seq<byte>, mac: seq<byte>, macLen: seq<byte>, f: seq<byte>)
    requires WordSized(w) && |salt| == SALT_LEN && |dKey| == DKEY_LEN && |mac| <= HMAC_LEN && |macLen| == 4
    requires f == ParamBytes(w, salt + Zeros(SALT_MAX_LEN - SALT_LEN), dKey) + (mac + Zeros(HMAC_LEN - |mac|)) + macLen
    ensures |f| == 156 && (forall i :: 24 <= i < 80 ==> f[i] == 0)
    ensures forall i :: 120 + |mac| <= i < 152 ==> f[i] == 0
  {
    PartSlices(w, salt + Zeros(SALT_MAX_LEN - SALT_LEN), dKey, mac + Zeros(HMAC_LEN - |mac|), macLen);
    var s, h := f[16..80], f[120..152];
    assert forall i :: 16 <= i < 80 ==> f[i] == s[i - 16];
    assert forall i :: 120 <= i < 152 ==> f[i] == h[i - 120];
  }

  lemma FileFields(w: Words, salt: seq<byte>, dKey: seq<byte>, mac: seq<byte>, macLen: seq<byte>, f: seq<byte>)
    requires WordSized(w) && |salt| == SALT_LEN && |dKey| == DKEY_LEN && |mac| <= HMAC_LEN && |macLen| == 4
    requires f == ParamBytes(w, salt + Zeros(SALT_MAX_LEN - SALT_LEN), dKey) + (mac + Zeros(HMAC_LEN - |mac|)) + macLen
    ensures |f| == 156 && FileWords(f) == w && f[16..24] == salt && (forall i :: 24 <= i < 80 ==> f[i] == 0)
    ensures f[84..116] == dKey && f[120..120 + |mac|] == mac && (forall i :: 120 + |mac| <= i < 152 ==> f[i] == 0)
    ensures f[152..156] == macLen && f[..120] == ParamBytes(w, salt + Zeros(SALT_MAX_LEN - SALT_LEN), dKey)
  {
    ImageFields(w, salt, dKey, mac, macLen, f);
    ImagePadding(w, salt, dKey, mac, macLen, f);
  }

  lemma RegistrationFields(c: Crypto, password: string, salt: seq<byte>, dKey: seq<byte>, mac: seq<byte>)
    requires |salt| == 8 && |dKey| == 32 && |mac| <= 32 && c.kdf(291, password, salt, 1024) == Some(dKey)
    ensures var f := InfoImage(ParamImage(salt, dKey), mac);
            ParamsAt(c, f, password, salt) && f[..120] == ParamImage(salt, dKey) && Value(f[152..156]) == |mac| &&
            f[120..120 + |mac|] == mac && forall i :: 120 + |mac| <= i < 152 ==> f[i] == 0
  {
    var w, f := NetworkWords(), InfoImage(ParamImage(salt, dKey), mac);
    FileFields(w, salt, dKey, mac, BigEndian(|mac|, 4), f);
    NetworkWordsAre();
    Widths();
    ValueOfBigEndian(|mac|, 4);
    assert FileWords(f) == w;
  }

  /** Registration writes exactly this file, unless key derivation or the HMAC of these parameters fails. */
  lemma RegisteredBytes(c: Crypto, password: string, salt: seq<byte>)
    requires Lawful(c) && |salt| == 8
    ensures var r := Registered(c, password, salt);
            (r.Ok? ==> ParamsAt(c, r.value, password, salt) && MacAt(c, r.value)) &&
            (r.Err? ==> r.error == CryptoFail) &&
            (r.Err? && c.kdf(291, password, salt, 1024).Some? ==>
               exists f :: ParamsAt(c, f, password, salt) &&
                           (c.hmac(291, f[..120]).None? || |c.hmac(291, f[..120]).value| > 32))
  {
    var r, key := Registered(c, password, salt), c.kdf(291, password, salt, 1024);
    if key.Some? {
      var mac := c.hmac(291, ParamImage(salt, key.value));
      RegistrationFields(c, password, salt, key.value, if r.Ok? then mac.value else []);
      if r.Err? {
        var f := InfoImage(ParamImage(salt, key.value), []);
        assert ParamsAt(c, f, password, salt);
      }
    }
  }

  // -------------------------------------------------------------------------- login

  /** A file whose words are in range. */
  predicate WordsAt(f: seq<byte>) {
    |f| >= 156 && Value(f[0..4]) == 1 && Value(f[80..84]) <= 64 && Value(f[116..120]) <= 32 && Value(f[152..156]) <= 32
  }

  /** The stored HMAC, to its stored length, is that of the first 120 bytes under the stored algorithm. */
  predicate MacChecks(c: Crypto, f: seq<byte>)
    requires WordsAt(f)
  {
    c.hmac(Value(f[8..12]), f[..120]) == Some(f[120..120 + Value(f[152..156])])
  }

  /** The key derived under the stored algorithm, salt and iteration count. */
  function KeyFrom(c: Crypto, f: seq<byte>, password: string): Option<seq<byte>>
    requires WordsAt(f)
  {
    c.kdf(Value(f[4..8]), password, f[16..16 + Value(f[80..84])], Value(f[12..16]))
  }

  /** A login succeeds exactly when the stored HMAC and the stored key both match. */
  lemma LoginBytes(c: Crypto, f: seq<byte>, typed: Option<string>)
    requires Lawful(c)
    ensures LoginFailure(c, f, typed).None? <==>
            WordsAt(f) && MacChecks(c, f) && typed.Some? && Acceptable(typed.value) &&
            Value(f[116..120]) == 32 && KeyFrom(c, f, typed.value) == Some(f[84..116])
  {
    LoginIff(c, f, typed);
  }

  /** Why a login fails. */
  lemma LoginErrors(c: Crypto, f: seq<byte>, typed: Option<string>)
    requires Lawful(c)
    ensures LoginFailure(c, f, typed) == Some(UioFail) <==> |f| < 156
    ensures |f| >= 156 && !WordsAt(f) ==> LoginFailure(c, f, typed) == Some(InfoCmpFail)
    ensures WordsAt(f) && !MacChecks(c, f) ==>
              var mac := c.hmac(Value(f[8..12]), f[..120]);
              LoginFailure(c, f, typed) == Some(if mac.Some? && |mac.value| <= 32 then IntegrityVerifyFail else CryptoFail)
    ensures WordsAt(f) && MacChecks(c, f) && !(typed.Some? && Acceptable(typed.value)) ==>
              LoginFailure(c, f, typed) == Some(PasswdFail)
    ensures WordsAt(f) && MacChecks(c, f) && typed.Some? && Acceptable(typed.value) ==>
              var key := KeyFrom(c, f, typed.value);
              (key.None? ==> LoginFailure(c, f, typed) == Some(CryptoFail)) &&
              (key.Some? && Value(f[116..120]) < 32 ==> LoginFailure(c, f, typed) == Some(InfoCmpFail)) &&
              (key.Some? && Value(f[116..120]) == 32 && key.value != f[84..116] ==>
                 LoginFailure(c, f, typed) == Some(PasswdFail))
  {
    if WordsAt(f) && MacChecks(c, f) {
      assert |c.hmac(Word(f, 8), f[..PARAM_LEN]).value| <= HMAC_LEN;
    }
  }
}
