/** Which headers are accepted, by position, and how their numbers are read. */
module EncHeaderRules {
  import opened Wrappers
  import opened Bytes
  import opened Strings
  import opened HexCodec
  import opened EncHeader

  // ------------------------------------------------------------------------ strtol

  lemma {:induction false} SpacesAreSkipped(spaces: string, t: string)
    requires (forall i :: 0 <= i < |spaces| ==> IsSpace(spaces[i])) && (t != [] ==> !IsSpace(t[0]))
    ensures SkipSpaces(spaces + t) == t
    decreases |spaces|
  {
    if spaces == [] {
      assert spaces + t == t;
    } else {
      assert (spaces + t)[1..] == spaces[1..] + t;
      SpacesAreSkipped(spaces[1..], t);
    }
  }

  lemma {:induction false} DigitsAreTaken(digits: string, rest: string)
    requires AllHex(digits) && (rest != [] ==> !IsHexDigit(rest[0]))
    ensures HexPrefix(digits + rest) == digits
    decreases |digits|
  {
    if digits == [] {
      assert digits + rest == rest;
    } else {
      assert (digits + rest)[1..] == digits[1..] + rest;
      DigitsAreTaken(digits[1..], rest);
    }
  }

  /** A number as strtol takes it: an optional 0x and as many digits as there are. */
  predicate NumberText(prefix: string, digits: string, rest: string) {
    (prefix == "" || prefix == "0x" || prefix == "0X") && digits != [] && AllHex(digits) &&
    (rest != [] ==> !IsHexDigit(rest[0])) &&
    (prefix == "" && digits == "0" && |rest| >= 2 && (rest[0] == 'x' || rest[0] == 'X') ==> !IsHexDigit(rest[1]))
  }

  /** Spaces, a sign, a prefix and digits, whatever follows: the number, negated after a minus, held within a long. */
  lemma StrtolRule(long: Long, spaces: string, sign: string, prefix: string, digits: string, rest: string)
    requires (forall i :: 0 <= i < |spaces| ==> IsSpace(spaces[i])) && (sign == "" || sign == "+" || sign == "-")
    requires NumberText(prefix, digits, rest)
    ensures Strtol16(long, spaces + (sign + (prefix + (digits + rest)))) ==
            Clamp(if sign == "-" then -(Number(digits) as int) else Number(digits),
                  if long == Bits32 then 0x7fff_ffff else 0x7fff_ffff_ffff_ffff)
  {
    var body := prefix + (digits + rest);
    assert body[0] == if prefix == "" then digits[0] else '0';
    SignRule(spaces, sign, body);
    BodyRule(prefix, digits, rest);
  }

  /** Without a digit behind the sign the number is 0. */
  lemma NoNumber(long: Long, spaces: string, sign: string, rest: string)
    requires (forall i :: 0 <= i < |spaces| ==> IsSpace(spaces[i])) && (sign == "" || sign == "+" || sign == "-")
    requires rest != [] ==> !IsHexDigit(rest[0])
    requires sign == "" && rest != [] ==> !IsSpace(rest[0]) && rest[0] != '-' && rest[0] != '+'
    ensures Strtol16(long, spaces + (sign + rest)) == 0
  {
    SignRule(spaces, sign, rest);
  }

  /** The 32-bit variable holds the number modulo 2^32, negative ones included. */
  lemma WordOfNumber(long: Long, s: string)
    ensures 0 <= Hex2Int(long, s) < 0x1_0000_0000
    ensures exists k: int :: Strtol16(long, s) == Hex2Int(long, s) + k * 0x1_0000_0000
  {
    var v := Strtol16(long, s);
    assert v == Hex2Int(long, s) + (v / 0x1_0000_0000) * 0x1_0000_0000;
  }

  lemma SignRule(spaces: string, sign: string, body: string)
    requires (forall i :: 0 <= i < |spaces| ==> IsSpace(spaces[i])) && (sign == "" || sign == "+" || sign == "-")
    requires sign == "" && body != [] ==> !IsSpace(body[0]) && body[0] != '-' && body[0] != '+'
    ensures var t := SkipSpaces(spaces + (sign + body));
            (t != [] && t[0] == '-' <==> sign == "-") &&
            (if t != [] && (t[0] == '-' || t[0] == '+') then t[1..] else t) == body
  {
    var t := sign + body;
    assert t != [] ==> t[0] == if sign == "" then body[0] else sign[0];
    SpacesAreSkipped(spaces, t);
    assert if sign == "" then t == body else t[1..] == body;
  }

  lemma BodyRule(prefix: string, digits: string, rest: string)
    requires NumberText(prefix, digits, rest)
    ensures Magnitude(prefix + (digits + rest)) == Number(digits)
  {
    var u := prefix + (digits + rest);
    DigitsAreTaken(digits, rest);
    if prefix == "" {
      assert u == digits + rest;
      assert |digits| >= 2 ==> u[1] == digits[1];
      if |digits| == 1 && |rest| >= 2 {
        assert u[1] == rest[0] && u[2] == rest[1] && digits == [u[0]];
      }
    } else {
      assert u[2..] == digits + rest && u[2] == digits[0];
    }
  }

  /** Numbers that do not fit are held at the ends of the range. */
  lemma ClampRule(v: int, max: nat)
    ensures -(max as int) - 1 <= Clamp(v, max) <= max
    ensures -(max as int) - 1 <= v <= max ==> Clamp(v, max) == v
    ensures v > max ==> Clamp(v, max) == max
    ensures v < -(max as int) - 1 ==> Clamp(v, max) == -(max as int) - 1
  {
  }

  // ----------------------------------------------------------------------- headers

  /** A field of hex digits up to its first NUL, decoded to the front of a zeroed buffer. */
  lemma FieldRule(s: string, room: nat, n: nat)
    requires n <= |s| && (forall i :: 0 <= i < n ==> s[i] != '\0') && (n < |s| ==> s[n] == '\0')
    ensures DecodeField(s, room).Some? <==> n > 0 && n % 2 == 0 && n / 2 <= room && AllHex(s[..n])
    ensures DecodeField(s, room).Some? ==>
              var b := DecodeField(s, room).value;
              |b| == room && b[..n / 2] == Unhex(s[..n]) && forall i :: n / 2 <= i < room ==> b[i] == 0
  {
    CStringRule(s, n);
  }

  /** A text holds an acceptable header: the expected numbers, a salt, a count and, for ciphers that have one, an IV. */
  predicate HeaderAt(c: Codec, e: Expected, text: string, h: Header) {
    |text| >= 48 + (if e.ivLen == 0 then 0 else 8 + 2 * e.ivLen) &&
    c.number(text[0..8]) == e.version == h.version && c.number(text[8..16]) == e.cipherId == h.cipherId &&
    c.number(text[16..24]) == 8 && c.bytes(text[24..40], 8) == Some(h.salt) && c.number(text[40..48]) == h.iter &&
    if e.ivLen == 0 then h.iv == []
    else
      c.number(text[48..56]) == e.ivLen && c.bytes(text[56..56 + 2 * e.ivLen], 16).Some? &&
      h.iv == Front(c.bytes(text[56..56 + 2 * e.ivLen], 16).value, e.ivLen)
  }

  /** A header is accepted exactly when the text holds it, and it ends where its parts do. */
  lemma HeaderRule(c: Codec, e: Expected, text: string, h: Header, len: nat)
    ensures ParseHeader(c, e, text) == Ok((h, len)) <==>
            HeaderAt(c, e, text, h) && len == if e.ivLen == 0 then 48 else 56 + 2 * e.ivLen
  {
    if |text| >= 48 && e.ivLen > 0 {
      IvInText(text, e.ivLen);
    }
  }

  lemma IvInText(text: string, n: nat)
    requires |text| >= 48
    ensures |text[48..]| >= 8 ==> text[48..][..8] == text[48..56]
    ensures |text[48..]| >= 8 + 2 * n ==> text[48..][8..8 + 2 * n] == text[56..56 + 2 * n]
  {
  }

  /** Why a header is refused: the text is too short, a number is not the expected one, or the salt or IV is not hex. */
  lemma HeaderErrors(c: Codec, e: Expected, text: string)
    requires ParseHeader(c, e, text).Err?
    ensures match ParseHeader(c, e, text).error
            case UioFail => |text| < if e.ivLen == 0 then 48 else 56 + 2 * e.ivLen
            case InfoCmpFail =>
              (|text| >= 8 && c.number(text[0..8]) != e.version) ||
              (|text| >= 16 && c.number(text[8..16]) != e.cipherId) ||
              (|text| >= 24 && c.number(text[16..24]) != 8) ||
              (|text| >= 56 && e.ivLen > 0 && c.number(text[48..56]) != e.ivLen)
            case EncodeFail =>
              (|text| >= 40 && c.bytes(text[24..40], 8).None?) ||
              (|text| >= 56 + 2 * e.ivLen && e.ivLen > 0 && c.bytes(text[56..56 + 2 * e.ivLen], 16).None?)
  {
    if |text| >= 48 && e.ivLen > 0 {
      IvInText(text, e.ivLen);
    }
  }
}
