/**
 The file header of the `enc` tool, apps/src/app_enc.c: numbers as eight upper-case hex
 digits, salt and IV as lower-case hex, written to one stream and read back from another.
 */
module EncHeader {
  import opened Wrappers
  import opened Bytes
  import opened HexCodec
  import opened Strings

  const REC_SALT_LEN: nat := 8
  const REC_HEX_BUF_LENGTH: nat := 8
  const REC_MAX_IV_LENGTH: nat := 16

  // ------------------------------------------------------- numbers in the header

  function Pow16(n: nat): nat {
    if n == 0 then 1 else 16 * Pow16(n - 1)
  }

  function UpperChar(v: nat): (c: char)
    requires v < 16
    ensures IsHexDigit(c) && DigitValue(c) == v && !('a' <= c <= 'f')
  {
    if v < 10 then ('0' as int + v) as char else ('A' as int + v - 10) as char
  }

  /** The n low-order hex digits of v in upper case, as printed by "%0nX". */
  function UpperHex(v: nat, n: nat): (s: string)
    ensures |s| == n && AllHex(s) && forall i :: 0 <= i < n ==> !('a' <= s[i] <= 'f')
  {
    if n == 0 then [] else UpperHex(v / 16, n - 1) + [UpperChar(v % 16)]
  }

  lemma {:induction false} NumberOfUpperHex(v: nat, n: nat)
    requires v < Pow16(n)
    ensures Number(UpperHex(v, n)) == v
  {
    if n > 0 {
      NumberOfUpperHex(v / 16, n - 1);
      assert UpperHex(v, n)[..n - 1] == UpperHex(v / 16, n - 1);
    }
  }

  lemma Pow16Of8()
    ensures Pow16(8) == TWO_32
  {
  }

  /** The width of the C type long. */
  datatype Long = Bits32 | Bits64

  function LongMax(long: Long): nat {
    match long
    case Bits32 => 0x7fff_ffff
    case Bits64 => 0x7fff_ffff_ffff_ffff
  }

  function SkipSpaces(s: string): string {
    if s != [] && IsSpace(s[0]) then SkipSpaces(s[1..]) else s
  }

  function HexPrefix(s: string): (p: string)
    ensures AllHex(p)
  {
    if s != [] && IsHexDigit(s[0]) then [s[0]] + HexPrefix(s[1..]) else []
  }

  function Clamp(v: int, max: nat): int {
    if v > max then max else if v < -(max as int) - 1 then -(max as int) - 1 else v
  }

  /** strtol with base 16: spaces, a sign, an optional 0x, digits; out of range values are clamped. */
  function Strtol16(long: Long, s: string): int {
    var t := SkipSpaces(s);
    var negative := t != [] && t[0] == '-';
    var u := if t != [] && (t[0] == '-' || t[0] == '+') then t[1..] else t;
    var v := Magnitude(u);
    Clamp(if negative then 0 - (v as int) else v, LongMax(long))
  }

  /** The digits behind the sign, with or without 0x. */
  function Magnitude(u: string): nat {
    var prefixed := |u| >= 3 && u[0] == '0' && (u[1] == 'x' || u[1] == 'X') && IsHexDigit(u[2]);
    Number(HexPrefix(if prefixed then u[2..] else u))
  }

  /** The bit pattern of the 32-bit variable that receives the result. */
  function Hex2Int(long: Long, s: string): (v: nat)
    ensures v < TWO_32
  {
    Strtol16(long, s) % TWO_32
  }

  lemma {:induction false} HexPrefixOfHex(s: string)
    requires AllHex(s)
    ensures HexPrefix(s) == s
  {
    if s != [] {
      HexPrefixOfHex(s[1..]);
    }
  }

  /** A printed 32-bit number is read back exactly when it fits a long: always on 64 bits, below 2^31 on 32. */
  lemma NumberReadBack(long: Long, v: nat)
    requires v < TWO_32
    ensures Hex2Int(long, UpperHex(v, 8)) == v <==> v <= LongMax(long)
  {
    Pow16Of8();
    NumberOfUpperHex(v, 8);
    StrtolOfHex(long, UpperHex(v, 8));
    ClampIsExact(v, LongMax(long));
  }

  lemma ClampIsExact(v: nat, max: nat)
    requires v < TWO_32 && 0x7fff_ffff <= max
    ensures Clamp(v, max) % TWO_32 == v <==> v <= max
  {
  }

  lemma StrtolOfHex(long: Long, s: string)
    requires |s| >= 2 && AllHex(s)
    ensures Strtol16(long, s) == Clamp(Number(s), LongMax(long))
  {
    HexPrefixOfHex(s);
    assert IsHexDigit(s[0]) && IsHexDigit(s[1]);
    assert SkipSpaces(s) == s;
  }

  // ------------------------------------------------------------------ the header

  datatype Header = Header(version: nat, cipherId: nat, salt: seq<byte>, iter: nat, iv: seq<byte>)

  predicate ValidHeader(h: Header) {
    h.version < TWO_32 && h.cipherId < TWO_32 && |h.salt| == REC_SALT_LEN && h.iter < TWO_32 &&
    |h.iv| <= REC_MAX_IV_LENGTH
  }

  /** The fields every header has. */
  function FixedText(h: Header): string {
    UpperHex(h.version, 8) + UpperHex(h.cipherId, 8) + UpperHex(|h.salt|, 8) + Hex(h.salt) + UpperHex(h.iter, 8)
  }

  /** The IV, preceded by its length; nothing for ciphers without one. */
  function IvText(iv: seq<byte>): string {
    if iv == [] then [] else UpperHex(|iv|, 8) + Hex(iv)
  }

  function HeaderText(h: Header): string {
    FixedText(h) + IvText(h.iv)
  }

  datatype HeaderError = UioFail | InfoCmpFail | EncodeFail

  /** What the reader has been told on the command line, and the cipher's IV length. */
  datatype Expected = Expected(version: nat, cipherId: nat, ivLen: nat)

  lemma {:induction false} CStringOfHex(s: string)
    requires AllHex(s)
    ensures CString(s) == s
  {
    if s != [] {
      CStringOfHex(s[1..]);
    }
  }

  /** HexToBytes into a buffer of n bytes that was zero before. */
  function DecodeField(s: string, n: nat): (r: Option<seq<byte>>)
    ensures r.Some? ==> |r.value| == n
  {
    var t := CString(s);
    if t == [] || |t| % 2 != 0 || n < |t| / 2 || !AllHex(t) then None
    else Some(Unhex(t) + seq(n - |t| / 2, i => 0))
  }

  function OrEncodeFail(b: Option<seq<byte>>): Result<seq<byte>, HeaderError> {
    match b
    case None => Err(EncodeFail)
    case Some(bytes) => Ok(bytes)
  }

  /** The input stream with its read position. */
  class InStream {
    const text: string
    var pos: nat

    constructor (text: string)
      ensures this.text == text && pos == 0
    {
      this.text, this.pos := text, 0;
    }

    ghost predicate Valid()
      reads this
    {
      pos <= |text|
    }

    /** BSL_UIO_Read of exactly n characters; a short read is a failure. */
    method Read(n: nat) returns (r: Option<string>)
      requires Valid()
      modifies this
      ensures Valid()
      ensures old(pos) + n <= |text| ==> r == Some(text[old(pos)..old(pos) + n]) && pos == old(pos) + n
      ensures old(pos) + n > |text| ==> r == None
    {
      if pos + n > |text| {
        pos := |text|;
        return None;
      }
      r := Some(text[pos..pos + n]);
      pos := pos + n;
    }

    /** ReadAndDec. */
    method ReadNumber(long: Long) returns (r: Option<nat>)
      requires Valid()
      modifies this
      ensures Valid()
      ensures old(pos) + 8 <= |text| ==>
                r == Some(Hex2Int(long, text[old(pos)..old(pos) + 8])) && pos == old(pos) + 8
      ensures old(pos) + 8 > |text| ==> r == None
    {
      var s := Read(REC_HEX_BUF_LENGTH);
      if s.None? {
        return None;
      }
      return Some(Hex2Int(long, s.value));
    }

    /** Hex text for n bytes, decoded into a zeroed buffer of `room` bytes. */
    method ReadBytes(n: nat, room: nat) returns (r: Result<seq<byte>, HeaderError>)
      requires Valid()
      modifies this
      ensures Valid()
      ensures old(pos) + 2 * n > |text| ==> r == Err(UioFail)
      ensures old(pos) + 2 * n <= |text| ==> pos == old(pos) + 2 * n
      ensures old(pos) + 2 * n <= |text| ==>
                r == OrEncodeFail(DecodeField(text[old(pos)..old(pos) + 2 * n], room))
    {
      var s := Read(2 * n);
      if s.None? {
        return Err(UioFail);
      }
      var out := new byte[room](i => 0);
      var decoded := HexToBytes(CString(s.value), out);
      if decoded.Err? {
        return Err(EncodeFail);
      }
      assert out[..] == out[..decoded.value] + out[decoded.value..];
      assert out[decoded.value..] == seq(room - decoded.value, i => 0);
      return Ok(out[..]);
    }
  }

  // ------------------------------------------------------------- reading it all

  /** How a reader turns the text of a number, and hex text for a buffer, into values. */
  datatype Codec = Codec(number: string -> nat, bytes: (string, nat) -> Option<seq<byte>>)

  function Reader(long: Long): Codec {
    Codec(s => Hex2Int(long, s), (s, n) => DecodeField(s, n))
  }

  /** The IV length and the IV. */
  function ParseIv(c: Codec, ivLen: nat, text: string): (r: Result<seq<byte>, HeaderError>) {
    if |text| < 8 then Err(UioFail)
    else if c.number(text[..8]) != ivLen then Err(InfoCmpFail)
    else if |text| < 8 + 2 * ivLen then Err(UioFail)
    else OrEncodeFail(c.bytes(text[8..8 + 2 * ivLen], REC_MAX_IV_LENGTH))
  }

  /** The number at offset `at` is present and is the expected one. */
  function CheckNumber(c: Codec, text: string, at: nat, expected: nat): Option<HeaderError> {
    if |text| < at + 8 then Some(UioFail)
    else if c.number(text[at..at + 8]) != expected then Some(InfoCmpFail)
    else None
  }

  /** Version, cipher and salt length. */
  function CheckFixed(c: Codec, e: Expected, text: string): Option<HeaderError> {
    var version, cipher :=
      CheckNumber(c, text, 0, e.version), CheckNumber(c, text, 8, e.cipherId);
    if version.Some? then version
    else if cipher.Some? then cipher
    else CheckNumber(c, text, 16, REC_SALT_LEN)
  }

  /** Salt and iteration count. */
  function ParseSalt(c: Codec, text: string): (r: Result<(seq<byte>, nat), HeaderError>)
    ensures r.Ok? ==> |text| >= 48
  {
    if |text| < 40 then Err(UioFail)
    else
      match c.bytes(text[24..40], REC_SALT_LEN)
      case None => Err(EncodeFail)
      case Some(salt) => if |text| < 48 then Err(UioFail) else Ok((salt, c.number(text[40..48])))
  }

  function ParseFixed(c: Codec, e: Expected, text: string): (r: Result<(seq<byte>, nat), HeaderError>)
    ensures r.Ok? ==> |text| >= 48
  {
    match CheckFixed(c, e, text)
    case Some(error) => Err(error)
    case None => ParseSalt(c, text)
  }

  /** The header at the start of a text and where it ends. */
  function ParseHeader(c: Codec, e: Expected, text: string): Result<(Header, nat), HeaderError> {
    match ParseFixed(c, e, text)
    case Err(error) => Err(error)
    case Ok((salt, iter)) =>
      if e.ivLen == 0 then Ok((Header(e.version, e.cipherId, salt, iter, []), 48))
      else
        match ParseIv(c, e.ivLen, text[48..])
        case Err(error) => Err(error)
        case Ok(iv) => Ok((Header(e.version, e.cipherId, salt, iter, Front(iv, e.ivLen)), 56 + 2 * e.ivLen))
  }

  function Front(b: seq<byte>, n: nat): seq<byte> {
    if |b| < n then b else b[..n]
  }

  /** HandleDecFileIv. */
  method HandleDecFileIv(file: InStream, long: Long, ivLen: nat) returns (r: Result<seq<byte>, HeaderError>)
    requires file.Valid()
    modifies file
    ensures file.Valid() && r == ParseIv(Reader(long), ivLen, file.text[old(file.pos)..])
    ensures r.Ok? ==> file.pos == old(file.pos) + 8 + 2 * ivLen
  {
    ghost var rest := file.text[file.pos..];
    var tmpIvLen := file.ReadNumber(long);
    if tmpIvLen.None? {
      return Err(UioFail);
    }
    assert rest[..8] == file.text[old(file.pos)..old(file.pos) + 8];
    if tmpIvLen.value != ivLen {
      return Err(InfoCmpFail);
    }
    assert |rest| >= 8 + 2 * ivLen ==> rest[8..8 + 2 * ivLen] == file.text[file.pos..file.pos + 2 * ivLen];
    r := file.ReadBytes(ivLen, REC_MAX_IV_LENGTH);
  }

  /** Read a number and compare it with what is expected. */
  method ExpectNumber(file: InStream, long: Long, expected: nat) returns (r: Option<HeaderError>)
    requires file.Valid()
    modifies file
    ensures file.Valid()
    ensures r == CheckNumber(Reader(long), file.text, old(file.pos), expected)
    ensures r.None? ==> file.pos == old(file.pos) + 8
  {
    var v := file.ReadNumber(long);
    if v.None? {
      return Some(UioFail);
    }
    if v.value != expected {
      return Some(InfoCmpFail);
    }
    return None;
  }

  /** A slice of the rest of a text is a slice of the text. */
  lemma RestSlice(text: string, start: nat, at: nat, n: nat)
    requires start <= |text|
    ensures start + at + n <= |text| ==> text[start..][at..at + n] == text[start + at..start + at + n]
  {
  }

  lemma CheckInRest(c: Codec, text: string, start: nat, at: nat, expected: nat)
    requires start <= |text|
    ensures CheckNumber(c, text[start..], at, expected) == CheckNumber(c, text, start + at, expected)
  {
    RestSlice(text, start, at, 8);
  }

  method ExpectFixed(file: InStream, long: Long, e: Expected) returns (r: Option<HeaderError>)
    requires file.Valid()
    modifies file
    ensures file.Valid() && r == CheckFixed(Reader(long), e, file.text[old(file.pos)..])
    ensures r.None? ==> file.pos == old(file.pos) + 24
  {
    ghost var start := file.pos;
    CheckInRest(Reader(long), file.text, start, 0, e.version);
    CheckInRest(Reader(long), file.text, start, 8, e.cipherId);
    CheckInRest(Reader(long), file.text, start, 16, REC_SALT_LEN);
    r := ExpectNumber(file, long, e.version);
    if r.Some? {
      return;
    }
    r := ExpectNumber(file, long, e.cipherId);
    if r.Some? {
      return;
    }
    r := ExpectNumber(file, long, REC_SALT_LEN);
  }

  method ReadSalt(file: InStream, long: Long, ghost start: nat) returns (r: Result<(seq<byte>, nat), HeaderError>)
    requires file.Valid() && file.pos == start + 24
    modifies file
    ensures file.Valid() && r == ParseSalt(Reader(long), file.text[start..])
    ensures r.Ok? ==> file.pos == start + 48
  {
    RestSlice(file.text, start, 24, 16);
    RestSlice(file.text, start, 40, 8);
    var salt := file.ReadBytes(REC_SALT_LEN, REC_SALT_LEN);
    if salt.Err? {
      return Err(salt.error);
    }
    var iter := file.ReadNumber(long);
    if iter.None? {
      return Err(UioFail);
    }
    return Ok((salt.value, iter.value));
  }

  method ReadFixed(file: InStream, long: Long, e: Expected) returns (r: Result<(seq<byte>, nat), HeaderError>)
    requires file.Valid()
    modifies file
    ensures file.Valid() && r == ParseFixed(Reader(long), e, file.text[old(file.pos)..])
    ensures r.Ok? ==> file.pos == old(file.pos) + 48
  {
    ghost var start := file.pos;
    var failed := ExpectFixed(file, long, e);
    if failed.Some? {
      return Err(failed.value);
    }
    r := ReadSalt(file, long, start);
  }

  /** HandleDecFileHeader: on success the read position is at the first character of the ciphertext. */
  method HandleDecFileHeader(file: InStream, long: Long, e: Expected) returns (r: Result<Header, HeaderError>)
    requires file.Valid() && e.ivLen <= REC_MAX_IV_LENGTH
    modifies file
    ensures match ParseHeader(Reader(long), e, file.text[old(file.pos)..])
            case Ok((h, len)) => r == Ok(h) && file.pos == old(file.pos) + len
            case Err(error) => r == Err(error)
  {
    ghost var start := file.pos;
    var fixed := ReadFixed(file, long, e);
    if fixed.Err? {
      return Err(fixed.error);
    }
    var (salt, iter) := fixed.value;
    if e.ivLen == 0 {
      return Ok(Header(e.version, e.cipherId, salt, iter, []));
    }
    assert file.text[start..][48..] == file.text[start + 48..];
    var iv := HandleDecFileIv(file, long, e.ivLen);
    if iv.Err? {
      return Err(iv.error);
    }
    return Ok(Header(e.version, e.cipherId, salt, iter, Front(iv.value, e.ivLen)));
  }

  // -------------------------------------------------------------------- writing

  /** The output stream; write number k fails unless `writes(k)`, and leaves nothing behind. */
  class OutStream {
    const writes: nat -> bool
    var text: string
    var count: nat

    constructor (writes: nat -> bool)
      ensures this.writes == writes && text == "" && count == 0
    {
      this.writes, text, count := writes, "", 0;
    }

    method Write(s: string) returns (ok: bool)
      modifies this`text, this`count
      ensures ok == writes(old(count)) && count == old(count) + 1
      ensures text == old(text) + if ok then s else []
    {
      ok := writes(count);
      text, count := text + (if ok then s else []), count + 1;
    }

    /** HexAndWrite. */
    method WriteNumber(v: nat) returns (ok: bool)
      modifies this`text, this`count
      ensures ok == writes(old(count)) && count == old(count) + 1
      ensures text == old(text) + if ok then UpperHex(v, 8) else []
    {
      ok := Write(UpperHex(v, 8));
    }

    /** HITLS_APP_OptWriteUio in hex format; there must be something to write. */
    method WriteBytes(b: seq<byte>) returns (ok: bool)
      requires 0 < |b| <= REC_MAX_IV_LENGTH
      modifies this`text, this`count
      ensures ok == writes(old(count)) && count == old(count) + 1
      ensures text == old(text) + if ok then Hex(b) else []
    {
      var hexStr := new char[2 * |b| + 1];
      var encoded := BytesToHex(b, hexStr);
      ok := Write(hexStr[..2 * |b|]);
    }
  }

  /** The pieces a header is written in. */
  function Pieces(h: Header): seq<string> {
    [UpperHex(h.version, 8), UpperHex(h.cipherId, 8), UpperHex(|h.salt|, 8), Hex(h.salt), UpperHex(h.iter, 8)] +
    if h.iv == [] then [] else [UpperHex(|h.iv|, 8), Hex(h.iv)]
  }

  function Joined(pieces: seq<string>): string {
    if pieces == [] then [] else Joined(pieces[..|pieces| - 1]) + pieces[|pieces| - 1]
  }

  lemma {:induction false} JoinedNext(pieces: seq<string>, k: nat)
    requires k < |pieces|
    ensures Joined(pieces[..k + 1]) == Joined(pieces[..k]) + pieces[k]
  {
    assert pieces[..k + 1][..k] == pieces[..k];
  }

  lemma JoinedAll(pieces: seq<string>, a: string, b: string, c: string, d: string, e: string, f: string, g: string)
    ensures pieces == [a, b, c, d, e] ==> Joined(pieces) == a + b + c + d + e
    ensures pieces == [a, b, c, d, e, f, g] ==> Joined(pieces) == a + b + c + d + e + (f + g)
  {
    if pieces == [a, b, c, d, e] || pieces == [a, b, c, d, e, f, g] {
      assert pieces[..0] == [];
      JoinedNext(pieces, 0);
      JoinedNext(pieces, 1);
      JoinedNext(pieces, 2);
      JoinedNext(pieces, 3);
      JoinedNext(pieces, 4);
      assert [] + a == a && Joined(pieces[..5]) == a + b + c + d + e;
      if |pieces| == 5 {
        assert pieces[..5] == pieces;
      } else {
        JoinedNext(pieces, 5);
        JoinedNext(pieces, 6);
        assert pieces[..7] == pieces;
        assert a + b + c + d + e + f + g == a + b + c + d + e + (f + g);
      }
    }
  }

  lemma PiecesJoin(h: Header)
    ensures Joined(Pieces(h)) == HeaderText(h)
  {
    var a, b, c, d, e :=
      UpperHex(h.version, 8), UpperHex(h.cipherId, 8), UpperHex(|h.salt|, 8), Hex(h.salt), UpperHex(h.iter, 8);
    if h.iv == [] {
      assert Pieces(h) == [a, b, c, d, e];
      JoinedAll(Pieces(h), a, b, c, d, e, [], []);
      assert FixedText(h) + [] == FixedText(h);
    } else {
      assert Pieces(h) == [a, b, c, d, e, UpperHex(|h.iv|, 8), Hex(h.iv)];
      JoinedAll(Pieces(h), a, b, c, d, e, UpperHex(|h.iv|, 8), Hex(h.iv));
    }
  }

  /** The first k pieces have been written, and if that is not all, the next write has failed. */
  ghost predicate Written(file: OutStream, before: string, count: nat, pieces: seq<string>, k: nat, ok: bool)
    reads file
  {
    k <= |pieces| && file.text == before + Joined(pieces[..k]) && file.count == count + k + (if ok then 0 else 1) &&
    (!ok ==> k < |pieces| && !file.writes(count + k)) && forall j :: count <= j < count + k ==> file.writes(j)
  }

  lemma WrittenNext(file: OutStream, before: string, count: nat, pieces: seq<string>, k: nat)
    requires k < |pieces| && file.text == before + Joined(pieces[..k]) + pieces[k] && file.count == count + k + 1
    requires file.writes(count + k) && forall j :: count <= j < count + k ==> file.writes(j)
    ensures Written(file, before, count, pieces, k + 1, true)
  {
    JoinedNext(pieces, k);
    assert before + Joined(pieces[..k]) + pieces[k] == before + (Joined(pieces[..k]) + pieces[k]);
  }

  method WriteNumberPiece(
    file: OutStream, v: nat, ghost before: string, ghost count: nat, ghost pieces: seq<string>, ghost k: nat)
    returns (ok: bool)
    requires k < |pieces| && pieces[k] == UpperHex(v, 8) && Written(file, before, count, pieces, k, true)
    modifies file`text, file`count
    ensures Written(file, before, count, pieces, if ok then k + 1 else k, ok)
  {
    ok := file.WriteNumber(v);
    if ok {
      WrittenNext(file, before, count, pieces, k);
    }
  }

  method WriteBytesPiece(
    file: OutStream, b: seq<byte>, ghost before: string, ghost count: nat, ghost pieces: seq<string>, ghost k: nat)
    returns (ok: bool)
    requires 0 < |b| <= REC_MAX_IV_LENGTH
    requires k < |pieces| && pieces[k] == Hex(b) && Written(file, before, count, pieces, k, true)
    modifies file`text, file`count
    ensures Written(file, before, count, pieces, if ok then k + 1 else k, ok)
  {
    ok := file.WriteBytes(b);
    if ok {
      WrittenNext(file, before, count, pieces, k);
    }
  }

  method WriteFixed(file: OutStream, h: Header, ghost pieces: seq<string>) returns (ok: bool, ghost k: nat)
    requires ValidHeader(h) && pieces == Pieces(h)
    modifies file`text, file`count
    ensures Written(file, old(file.text), old(file.count), pieces, k, ok) && (ok ==> k == 5)
  {
    ghost var before, count := file.text, file.count;
    assert pieces[..0] == [];
    ok := WriteNumberPiece(file, h.version, before, count, pieces, 0);
    if !ok {
      return false, 0;
    }
    ok := WriteNumberPiece(file, h.cipherId, before, count, pieces, 1);
    if !ok {
      return false, 1;
    }
    ok := WriteNumberPiece(file, |h.salt|, before, count, pieces, 2);
    if !ok {
      return false, 2;
    }
    ok := WriteBytesPiece(file, h.salt, before, count, pieces, 3);
    if !ok {
      return false, 3;
    }
    ok := WriteNumberPiece(file, h.iter, before, count, pieces, 4);
    return ok, if ok then 5 else 4;
  }

  /**
   WriteEncFileHeader: the whole header, or the pieces before the first write that failed.
   */
  method WriteEncFileHeader(file: OutStream, h: Header) returns (ok: bool, ghost k: nat)
    requires ValidHeader(h)
    modifies file`text, file`count
    ensures Written(file, old(file.text), old(file.count), Pieces(h), k, ok) && (ok ==> k == |Pieces(h)|)
    ensures ok <==> forall j :: old(file.count) <= j < old(file.count) + |Pieces(h)| ==> file.writes(j)
    ensures ok ==> file.text == old(file.text) + HeaderText(h)
  {
    ghost var before, count, pieces := file.text, file.count, Pieces(h);
    PiecesJoin(h);
    assert pieces[..|pieces|] == pieces;
    ok, k := WriteFixed(file, h, pieces);
    if !ok || |h.iv| == 0 {
      return;
    }
    ok := WriteNumberPiece(file, |h.iv|, before, count, pieces, 5);
    if !ok {
      return false, 5;
    }
    ok := WriteBytesPiece(file, h.iv, before, count, pieces, 6);
    return ok, if ok then 7 else 6;
  }

  lemma DecodeHex(b: seq<byte>, room: nat)
    requires 0 < |b| <= room
    ensures DecodeField(Hex(b), room).Some? && |DecodeField(Hex(b), room).value| == room
    ensures DecodeField(Hex(b), room).value[..|b|] == b
  {
    UnhexHex(b);
    CStringOfHex(Hex(b));
  }

  lemma FixedFields(a: string, b: string, c: string, d: string, e: string, rest: string)
    requires |a| == |b| == |c| == |e| == 8 && |d| == 16
    ensures var t := a + b + c + d + e + rest;
            t[..8] == a && t[8..16] == b && t[16..24] == c && t[24..40] == d && t[40..48] == e && t[48..] == rest
  {
  }

  lemma FixedParses(
    c: Codec, e: Expected, version: string, cipher: string, saltLen: string, hex: string, iter: string, rest: string,
    salt: seq<byte>)
    requires |version| == |cipher| == |saltLen| == |iter| == 8 && |hex| == 16
    requires c.number(saltLen) == REC_SALT_LEN && c.bytes(hex, REC_SALT_LEN) == Some(salt)
    ensures var t := version + cipher + saltLen + hex + iter + rest;
            t[48..] == rest &&
            ParseFixed(c, e, t) ==
            if c.number(version) != e.version then Err(InfoCmpFail)
            else if c.number(cipher) != e.cipherId then Err(InfoCmpFail)
            else Ok((salt, c.number(iter)))
  {
    FixedFields(version, cipher, saltLen, hex, iter, rest);
    var t := version + cipher + saltLen + hex + iter + rest;
    assert t[0..8] == t[..8];
  }

  /**
   What reading a written header yields when the reader reads its salt and IV correctly but
   possibly misreads its numbers.
   */
  lemma WrittenHeaderParses(c: Codec, h: Header, ciphertext: string)
    requires ValidHeader(h)
    requires c.number(UpperHex(REC_SALT_LEN, 8)) == REC_SALT_LEN && c.bytes(Hex(h.salt), REC_SALT_LEN) == Some(h.salt)
    requires h.iv != [] ==>
               c.number(UpperHex(|h.iv|, 8)) == |h.iv| &&
               c.bytes(Hex(h.iv), REC_MAX_IV_LENGTH).Some? &&
               Front(c.bytes(Hex(h.iv), REC_MAX_IV_LENGTH).value, |h.iv|) == h.iv
    ensures ParseHeader(c, Expected(h.version, h.cipherId, |h.iv|), HeaderText(h) + ciphertext) ==
            if c.number(UpperHex(h.version, 8)) != h.version then Err(InfoCmpFail)
            else if c.number(UpperHex(h.cipherId, 8)) != h.cipherId then Err(InfoCmpFail)
            else Ok((h.(iter := c.number(UpperHex(h.iter, 8))), |HeaderText(h)|))
  {
    var e, rest := Expected(h.version, h.cipherId, |h.iv|), IvText(h.iv) + ciphertext;
    FixedTextParses(c, e, h, rest);
    if h.iv != [] {
      WrittenIvParses(c, h.iv, ciphertext);
    }
    HeaderLength(h);
    PartsParse(c, e, FixedText(h), IvText(h.iv), ciphertext, h.salt, c.number(UpperHex(h.iter, 8)), h.iv);
  }

  lemma FixedTextParses(c: Codec, e: Expected, h: Header, rest: string)
    requires ValidHeader(h)
    requires c.number(UpperHex(REC_SALT_LEN, 8)) == REC_SALT_LEN && c.bytes(Hex(h.salt), REC_SALT_LEN) == Some(h.salt)
    ensures |FixedText(h)| == 48 && (FixedText(h) + rest)[48..] == rest
    ensures ParseFixed(c, e, FixedText(h) + rest) ==
            if c.number(UpperHex(h.version, 8)) != e.version then Err(InfoCmpFail)
            else if c.number(UpperHex(h.cipherId, 8)) != e.cipherId then Err(InfoCmpFail)
            else Ok((h.salt, c.number(UpperHex(h.iter, 8))))
  {
    FixedParses(
      c, e, UpperHex(h.version, 8), UpperHex(h.cipherId, 8), UpperHex(|h.salt|, 8), Hex(h.salt), UpperHex(h.iter, 8),
      rest, h.salt);
  }

  lemma PartsParse(
    c: Codec, e: Expected, fixed: string, ivText: string, ciphertext: string, salt: seq<byte>, iter: nat, iv: seq<byte>)
    requires var r := ParseFixed(c, e, fixed + (ivText + ciphertext)); r.Err? || r.value == (salt, iter)
    requires |fixed| == 48 && |iv| == e.ivLen
    requires iv != [] ==>
               var r := ParseIv(c, e.ivLen, ivText + ciphertext); r.Ok? && Front(r.value, e.ivLen) == iv
    ensures ParseHeader(c, e, fixed + ivText + ciphertext) ==
            var r := ParseFixed(c, e, fixed + (ivText + ciphertext));
            if r.Err? then Err(r.error)
            else Ok((Header(e.version, e.cipherId, salt, iter, iv), if iv == [] then 48 else 56 + 2 * |iv|))
  {
    var t := fixed + ivText + ciphertext;
    assert t == fixed + (ivText + ciphertext) && t[48..] == ivText + ciphertext;
    if ParseFixed(c, e, t).Ok? {
      ParsesOn(c, e, t, salt, iter, iv);
    }
  }

  lemma HeaderLength(h: Header)
    requires ValidHeader(h)
    ensures |HeaderText(h)| == if h.iv == [] then 48 else 56 + 2 * |h.iv|
  {
  }

  lemma ParsesOn(c: Codec, e: Expected, t: string, salt: seq<byte>, iter: nat, iv: seq<byte>)
    requires ParseFixed(c, e, t) == Ok((salt, iter)) && |iv| == e.ivLen
    requires iv != [] ==> ParseIv(c, e.ivLen, t[48..]).Ok? && Front(ParseIv(c, e.ivLen, t[48..]).value, e.ivLen) == iv
    ensures ParseHeader(c, e, t) ==
            Ok((Header(e.version, e.cipherId, salt, iter, iv), if iv == [] then 48 else 56 + 2 * |iv|))
  {
  }

  lemma WrittenIvParses(c: Codec, iv: seq<byte>, ciphertext: string)
    requires 0 < |iv| && c.number(UpperHex(|iv|, 8)) == |iv|
    ensures ParseIv(c, |iv|, IvText(iv) + ciphertext) == OrEncodeFail(c.bytes(Hex(iv), REC_MAX_IV_LENGTH))
  {
    var t := IvText(iv) + ciphertext;
    assert t[..8] == UpperHex(|iv|, 8) && t[8..8 + 2 * |iv|] == Hex(iv);
  }

  /**
   Round trip.  Reading a written header under the same cipher returns it and stops at the
   ciphertext, for every header where long has 64 bits, and exactly for those whose version,
   cipher id and iteration count are below 2^31 where it has 32.
   */
  lemma HeaderRoundTrip(long: Long, h: Header, ciphertext: string)
    requires ValidHeader(h)
    ensures ParseHeader(Reader(long), Expected(h.version, h.cipherId, |h.iv|), HeaderText(h) + ciphertext)
            == Ok((h, |HeaderText(h)|)) <==>
            long == Bits64 || (h.version <= 0x7fff_ffff && h.cipherId <= 0x7fff_ffff && h.iter <= 0x7fff_ffff)
  {
    var c := Reader(long);
    NumberReadBack(long, REC_SALT_LEN);
    DecodeHex(h.salt, REC_SALT_LEN);
    assert c.bytes(Hex(h.salt), REC_SALT_LEN) == Some(h.salt) by {
      var salt := DecodeField(Hex(h.salt), REC_SALT_LEN).value;
      assert salt == salt[..REC_SALT_LEN];
    }
    if h.iv != [] {
      NumberReadBack(long, |h.iv|);
      DecodeHex(h.iv, REC_MAX_IV_LENGTH);
    }
    WrittenHeaderParses(c, h, ciphertext);
    NumberReadBack(long, h.version);
    NumberReadBack(long, h.cipherId);
    NumberReadBack(long, h.iter);
  }
}
