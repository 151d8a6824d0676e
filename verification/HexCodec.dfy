/**
 The hex codec of the command line tools: BytesToHex of apps/src/app_opt.c, HexToBytes
 and ParseHex of apps/src/app_utils.c (Base16, section 8 of RFC 4648, with lower case on
 output and both cases on input).
 */
module HexCodec {
  import opened Wrappers
  import opened Bytes

  predicate IsHexDigit(c: char) {
    '0' <= c <= '9' || 'a' <= c <= 'f' || 'A' <= c <= 'F'
  }

  /** The digits are those of the three ranges, and each has its place in them as value. */
  lemma HexDigits(c: char)
    ensures IsHexDigit(c) <==> c in "0123456789abcdefABCDEF"
    ensures forall v :: 0 <= v < 16 && (c == "0123456789abcdef"[v] || c == "0123456789ABCDEF"[v]) ==> DigitValue(c) == v
  {
  }

  /** The value of a digit, as everyone reads it; 0 for other characters. */
  function DigitValue(c: char): (v: nat)
    ensures v < 16
  {
    if '0' <= c <= '9' then c as int - '0' as int
    else if 'a' <= c <= 'f' then c as int - 'a' as int + 10
    else if 'A' <= c <= 'F' then c as int - 'A' as int + 10
    else 0
  }

  /** The value of a digit, as the code computes it for all three ranges at once. */
  function Folded(c: char): nat {
    (c as int % 32 + 9) % 25
  }

  lemma FoldedIsDigitValue(c: char)
    requires IsHexDigit(c)
    ensures Folded(c) == DigitValue(c)
  {
    var n := c as int;
    if c <= '9' {
      assert n % 32 == n - 32 && (n - 32 + 9) % 25 == n - 48;
    } else if c <= 'F' {
      assert n % 32 == n - 64 && (n - 64 + 9) % 25 == n - 55;
    } else {
      assert n % 32 == n - 96 && (n - 96 + 9) % 25 == n - 87;
    }
  }

  function HexChar(v: nat): (c: char)
    requires v < 16
    ensures IsHexDigit(c) && DigitValue(c) == v && !('A' <= c <= 'F')
  {
    if v < 10 then ('0' as int + v) as char else ('a' as int + v - 10) as char
  }

  /** The digits come from the table the code indexes. */
  lemma HexCharTable(v: nat)
    requires v < 16
    ensures HexChar(v) == "0123456789abcdef"[v]
  {
  }

  predicate AllHex(s: string) {
    forall i :: 0 <= i < |s| ==> IsHexDigit(s[i])
  }

  function DigitOf(bytes: seq<byte>, i: nat): char
    requires i < 2 * |bytes|
  {
    HexChar(if i % 2 == 0 then bytes[i / 2] / 16 else bytes[i / 2] % 16)
  }

  /** Two lower-case digits for each byte. */
  function Hex(bytes: seq<byte>): (s: string)
    ensures |s| == 2 * |bytes|
    ensures forall i :: 0 <= i < |s| ==> s[i] == DigitOf(bytes, i)
  {
    seq(2 * |bytes|, i requires 0 <= i < 2 * |bytes| => DigitOf(bytes, i))
  }

  function ByteOf(s: string, j: nat): byte
    requires 2 * j + 1 < |s|
  {
    16 * DigitValue(s[2 * j]) + DigitValue(s[2 * j + 1])
  }

  /** The bytes denoted by pairs of digits. */
  function Unhex(s: string): (bytes: seq<byte>)
    ensures |bytes| == |s| / 2
    ensures forall j :: 0 <= j < |bytes| ==> bytes[j] == ByteOf(s, j)
  {
    seq(|s| / 2, j requires 0 <= j < |s| / 2 => ByteOf(s, j))
  }

  /** Decoding undoes encoding. */
  lemma UnhexHex(bytes: seq<byte>)
    ensures AllHex(Hex(bytes)) && Unhex(Hex(bytes)) == bytes
  {
  }

  // -------------------------------------------------------------------- BytesToHex

  /** The room test of BytesToHex, on 32-bit unsigned integers. */
  predicate PassesRoomTest(n: nat, size: nat) {
    size >= (2 * n + 1) % TWO_32
  }

  /** The test keeps the digits inside every buffer it lets through exactly for inputs below 2^31 bytes. */
  lemma RoomTestIsSafe(n: nat)
    requires n < TWO_32
    ensures (forall size :: 0 <= size < TWO_32 && PassesRoomTest(n, size) ==> 2 * n + 1 <= size) <==>
            n < 0x8000_0000
  {
    if n >= 0x8000_0000 {
      assert PassesRoomTest(n, 2 * n + 1 - TWO_32);
    }
  }

  /** Writes the digits and a terminating NUL; refused when there is nothing to write or no room. */
  method BytesToHex(bytes: seq<byte>, hexStr: array<char>) returns (ok: bool)
    requires |bytes| < 0x8000_0000
    modifies hexStr
    ensures ok <==> bytes != [] && 2 * |bytes| + 1 <= hexStr.Length
    ensures ok ==> hexStr[..2 * |bytes|] == Hex(bytes) && hexStr[2 * |bytes|] == '\0'
    ensures ok ==> hexStr[2 * |bytes| + 1..] == old(hexStr[2 * |bytes| + 1..])
    ensures !ok ==> hexStr[..] == old(hexStr[..])
  {
    if bytes == [] || !PassesRoomTest(|bytes|, hexStr.Length) {
      return false;
    }
    var pos := 0;
    for i := 0 to |bytes|
      invariant pos == 2 * i && forall k :: 0 <= k < pos ==> hexStr[k] == DigitOf(bytes, k)
      invariant hexStr[2 * |bytes| + 1..] == old(hexStr[2 * |bytes| + 1..])
    {
      hexStr[pos] := HexChar(bytes[i] / 16 % 16);
      pos := pos + 1;
      hexStr[pos] := HexChar(bytes[i] % 16);
      pos := pos + 1;
    }
    hexStr[pos] := '\0';
    assert hexStr[..pos] == Hex(bytes);
    return true;
  }

  // -------------------------------------------------------------------- HexToBytes

  datatype HexError = InvalidArgument | InvalidDigit

  /** The byte stored for two digits. */
  function Pair(hi: char, lo: char): (b: byte)
    requires IsHexDigit(hi) && IsHexDigit(lo)
    ensures b == 16 * DigitValue(hi) + DigitValue(lo)
  {
    FoldedIsDigitValue(hi);
    FoldedIsDigitValue(lo);
    Folded(hi) * 16 + Folded(lo)
  }

  /** Decodes into a buffer of `bytes.Length` bytes and returns the number of bytes decoded. */
  method HexToBytes(hexStr: string, bytes: array<byte>) returns (r: Result<nat, HexError>)
    modifies bytes
    ensures r.Ok? <==> hexStr != [] && |hexStr| % 2 == 0 && |hexStr| / 2 <= bytes.Length && AllHex(hexStr)
    ensures r == Err(InvalidArgument) <==> hexStr == [] || |hexStr| % 2 != 0 || bytes.Length < |hexStr| / 2
    ensures r.Ok? ==> r.value == |hexStr| / 2 && bytes[..r.value] == Unhex(hexStr)
    ensures r.Ok? ==> bytes[r.value..] == old(bytes[r.value..])
  {
    var inLen := |hexStr|;
    if inLen == 0 || inLen % 2 != 0 || bytes.Length < inLen / 2 {
      return Err(InvalidArgument);
    }
    var i := 0;
    ghost var j := 0;
    while i < inLen
      invariant i == 2 * j <= inLen
      invariant forall k :: 0 <= k < i ==> IsHexDigit(hexStr[k])
      invariant forall k :: 0 <= k < j ==> bytes[k] == ByteOf(hexStr, k)
      invariant bytes[inLen / 2..] == old(bytes[inLen / 2..])
    {
      if !IsHexDigit(hexStr[i]) {
        return Err(InvalidDigit);
      }
      if !IsHexDigit(hexStr[i + 1]) {
        return Err(InvalidDigit);
      }
      bytes[i / 2] := Pair(hexStr[i], hexStr[i + 1]);
      i, j := i + 2, j + 1;
    }
    return Ok(inLen / 2);
  }

  function Chars(b: seq<byte>): (s: string)
    ensures |s| == |b| && forall i :: 0 <= i < |b| ==> s[i] == b[i] as char
  {
    seq(|b|, i requires 0 <= i < |b| => b[i] as char)
  }

  lemma NotAllHex(s: string, i: nat)
    requires i < |s| && !IsHexDigit(s[i])
    ensures !AllHex(s)
  {
  }

  /** The first j bytes are decoded; the digits of the text from 2j on are still in place. */
  ghost predicate HalfDecoded(bytes: seq<byte>, text: string, j: nat) {
    2 * j <= |text| <= |bytes| &&
    (forall k :: 0 <= k < 2 * j ==> IsHexDigit(text[k])) &&
    (forall k :: 0 <= k < j ==> bytes[k] == ByteOf(text, k)) &&
    (forall k :: 2 * j <= k < |text| ==> bytes[k] as char == text[k])
  }

  /** One turn of the in-place decode: digits i and i + 1 become byte i / 2. */
  method DecodePairInPlace(buf: array<byte>, i: nat, ghost text: string, ghost j: nat) returns (ok: bool)
    requires i == 2 * j && i + 1 < |text| && HalfDecoded(buf[..], text, j)
    modifies buf
    ensures if ok then HalfDecoded(buf[..], text, j + 1) else !AllHex(text)
    ensures buf[|text|..] == old(buf[|text|..])
  {
    var hi, lo := buf[i] as char, buf[i + 1] as char;
    assert hi == text[i] && lo == text[i + 1];
    if !IsHexDigit(hi) {
      NotAllHex(text, i);
      return false;
    }
    if !IsHexDigit(lo) {
      NotAllHex(text, i + 1);
      return false;
    }
    buf[i / 2] := Pair(hi, lo);
    return true;
  }

  /**
   HexToBytes called with the same buffer as input and output.  The bytes decoded
   so far never reach the digits still to be read, so the result is the same.
   */
  method HexToBytesInPlace(buf: array<byte>, inLen: nat) returns (r: Result<nat, HexError>)
    requires inLen <= buf.Length
    modifies buf
    ensures var text := Chars(old(buf[..inLen]));
            (r.Ok? <==> inLen > 0 && inLen % 2 == 0 && AllHex(text)) &&
            (r == Err(InvalidArgument) <==> inLen == 0 || inLen % 2 != 0) &&
            (r.Ok? ==> r.value == inLen / 2 && buf[..r.value] == Unhex(text))
    ensures buf[inLen..] == old(buf[inLen..])
  {
    ghost var text := Chars(buf[..inLen]);
    if inLen == 0 || inLen % 2 != 0 {
      return Err(InvalidArgument);
    }
    var i := 0;
    ghost var j := 0;
    while i < inLen
      invariant i == 2 * j && HalfDecoded(buf[..], text, j)
      invariant buf[inLen..] == old(buf[inLen..])
    {
      var ok := DecodePairInPlace(buf, i, text, j);
      if !ok {
        return Err(InvalidDigit);
      }
      i, j := i + 2, j + 1;
    }
    return Ok(inLen / 2);
  }

  // ---------------------------------------------------------------------- ParseHex

  /** The number denoted by a string of digits. */
  function Number(s: string): nat {
    if s == [] then 0 else 16 * Number(s[..|s| - 1]) + DigitValue(s[|s| - 1])
  }

  lemma UnhexFront(s: string)
    requires |s| % 2 == 0 && s != []
    ensures Unhex(s) == Unhex(s[..|s| - 2]) + [ByteOf(s, |s| / 2 - 1)]
  {
    var front := s[..|s| - 2];
    assert forall j :: 0 <= j < |front| / 2 ==> ByteOf(front, j) == ByteOf(s, j);
  }

  lemma {:induction false} NumberIsValue(s: string)
    requires |s| % 2 == 0
    ensures Value(Unhex(s)) == Number(s)
  {
    if s != [] {
      var front := s[..|s| - 2];
      NumberIsValue(front);
      UnhexFront(s);
      assert s[..|s| - 1][..|s| - 2] == front;
    }
  }

  lemma {:induction false} LeadingZeros(zeros: string, s: string)
    requires AllHex(s) && forall i :: 0 <= i < |zeros| ==> zeros[i] == '0'
    ensures AllHex(zeros + s) && Number(zeros + s) == Number(s)
    decreases |zeros| + |s|
  {
    if s != [] {
      LeadingZeros(zeros, s[..|s| - 1]);
      assert (zeros + s)[..|zeros + s| - 1] == zeros + s[..|s| - 1];
    } else if zeros != [] {
      LeadingZeros(zeros[..|zeros| - 1], s);
      assert zeros + s == zeros && zeros[..|zeros| - 1] + s == zeros[..|zeros| - 1];
    }
  }

  datatype ParseError = MissingPrefix | NoDigits | BadDigit

  /** The leading zeros that are dropped: all of them, but none when no other digit precedes the last one. */
  function Skipped(num: string): (skip: nat)
    ensures skip <= |num| && forall j :: 0 <= j < skip ==> num[j] == '0'
    ensures (forall j :: 0 <= j < |num| - 1 ==> num[j] == '0') ==> skip == 0
    ensures (exists j :: 0 <= j < |num| - 1 && num[j] != '0') ==> skip < |num| - 1 && num[skip] != '0'
  {
    if |num| <= 1 || num[0] != '0' then 0
    else if forall j :: 0 <= j < |num| - 1 ==> num[j] == '0' then 0
    else
      var rest := num[1..];
      assert exists j :: 0 <= j < |rest| - 1 && rest[j] != '0' by {
        var j :| 0 <= j < |num| - 1 && num[j] != '0';
        assert rest[j - 1] == num[j];
      }
      1 + Skipped(rest)
  }

  /** There is only one place to stop. */
  lemma SkippedIs(num: string, skip: nat)
    requires skip < |num| - 1 && num[skip] != '0' && forall j :: 0 <= j < skip ==> num[j] == '0'
    ensures Skipped(num) == skip
  {
    var k := Skipped(num);
    assert num[k] != '0' && forall j :: 0 <= j < k ==> num[j] == '0';
  }

  method SkipZeros(num: string) returns (skip: nat)
    ensures skip == Skipped(num)
  {
    for i := 0 to |num|
      invariant forall j :: 0 <= j < i ==> num[j] == '0' || j + 1 == |num|
    {
      if num[i] != '0' && i + 1 != |num| {
        SkippedIs(num, i);
        return i;
      }
    }
    return 0;
  }

  function Padded(num: string): string {
    if |num| % 2 == 1 then "0" + num else num
  }

  lemma PaddedNumber(num: string)
    ensures |Padded(num)| % 2 == 0 && |Padded(num)| / 2 == (|num| + 1) / 2
    ensures AllHex(Padded(num)) <==> AllHex(num)
    ensures AllHex(num) ==> Number(Padded(num)) == Number(num)
  {
    if |num| % 2 == 1 {
      if AllHex(num) {
        LeadingZeros("0", num);
      } else {
        var j :| 0 <= j < |num| && !IsHexDigit(num[j]);
        NotAllHex(Padded(num), j + 1);
      }
    }
  }

  /** Decodes a number of any length, with a zero in front of an odd one. */
  method DecodeNumber(num: string) returns (r: Result<seq<byte>, HexError>)
    ensures r.Ok? <==> num != [] && AllHex(num)
    ensures r == Err(InvalidArgument) <==> num == []
    ensures r.Ok? ==> |r.value| == (|num| + 1) / 2 && Value(r.value) == Number(num)
  {
    PaddedNumber(num);
    var text := Padded(num);
    var res := new byte[(|num| + 1) / 2];
    var decoded := HexToBytes(text, res);
    if decoded.Err? {
      return Err(decoded.error);
    }
    NumberIsValue(text);
    assert res[..] == res[..decoded.value];
    return Ok(res[..]);
  }

  lemma SkippedZeros(num: string, skip: nat)
    requires skip <= |num| && forall j :: 0 <= j < skip ==> num[j] == '0'
    ensures AllHex(num) <==> AllHex(num[skip..])
    ensures AllHex(num) ==> Number(num) == Number(num[skip..])
  {
    assert num == num[..skip] + num[skip..];
    if AllHex(num[skip..]) {
      LeadingZeros(num[..skip], num[skip..]);
    }
  }

  /**
   ParseHex: an optional "0x", leading zeros skipped, odd lengths padded.  The bytes denote
   the same number as the digits, whatever their count and however many zeros lead.
   */
  method ParseHex(hexStr: string, expectPrefix: bool) returns (r: Result<seq<byte>, ParseError>)
    ensures var prefixed := |hexStr| > 2 && hexStr[..2] == "0x";
            var digits := if expectPrefix && prefixed then hexStr[2..] else hexStr;
            (r == Err(MissingPrefix) <==> expectPrefix && !prefixed) &&
            (r.Ok? <==> (expectPrefix ==> prefixed) && digits != [] && AllHex(digits)) &&
            (r == Err(NoDigits) <==> (expectPrefix ==> prefixed) && digits == []) &&
            (r.Ok? ==> Value(r.value) == Number(digits) && |r.value| == (|digits| - Skipped(digits) + 1) / 2)
  {
    if expectPrefix && (|hexStr| <= 2 || hexStr[..2] != "0x") {
      return Err(MissingPrefix);
    }
    var num := if expectPrefix then hexStr[2..] else hexStr;
    var skip := SkipZeros(num);
    SkippedZeros(num, skip);
    var decoded := DecodeNumber(num[skip..]);
    if decoded.Err? {
      return Err(if decoded.error == InvalidArgument then NoDigits else BadDigit);
    }
    return Ok(decoded.value);
  }
}
