/**
 * Percent-encoding of a URI component, as `encodeURIComponent` and
 * `decodeURIComponent` do it (section 19.2.6 of ECMA-262): every character
 * other than an ASCII letter, a digit or one of `-_.!~*'()` becomes the
 * `%XY` escapes of its UTF-8 bytes. Characters are Unicode scalar values,
 * so no lone surrogate can make the encoder fail.
 */
module UriComponent {

  import opened Wrappers
  import opened JsStrings

  /** The characters `encodeURIComponent` leaves as they are. */
  predicate Unreserved(ch: char) {
    || ('A' <= ch <= 'Z') || ('a' <= ch <= 'z') || ('0' <= ch <= '9')
    || ch == '-' || ch == '_' || ch == '.' || ch == '!' || ch == '~'
    || ch == '*' || ch == '\'' || ch == '(' || ch == ')'
  }

  /** An upper-case hexadecimal digit, as the encoder writes them. */
  function HexDigit(d: nat): (ch: char)
    requires d < 16
    ensures ('0' <= ch <= '9') || ('A' <= ch <= 'F')
    ensures IsHexDigit(ch) && HexValue(ch) == d
  {
    if d < 10 then ('0' as int + d) as char else ('A' as int + d - 10) as char
  }

  /** A hexadecimal digit in either case, as the decoder accepts them. */
  predicate IsHexDigit(ch: char) {
    ('0' <= ch <= '9') || ('A' <= ch <= 'F') || ('a' <= ch <= 'f')
  }

  function HexValue(ch: char): (d: nat)
    requires IsHexDigit(ch)
    ensures d < 16
  {
    if '0' <= ch <= '9' then ch as int - '0' as int
    else if 'A' <= ch <= 'F' then ch as int - 'A' as int + 10
    else ch as int - 'a' as int + 10
  }

  /** The code points a `char` can hold: the Unicode scalar values. */
  predicate IsScalar(cp: nat) {
    cp < 0xD800 || (0xE000 <= cp < 0x11_0000)
  }

  /** The UTF-8 bytes of a scalar value, six payload bits per continuation byte. */
  function Utf8(cp: nat): (bytes: seq<nat>)
    requires IsScalar(cp)
    ensures 1 <= |bytes| <= 4
    ensures forall i :: 0 <= i < |bytes| ==> bytes[i] < 0x100
    ensures 0 < |bytes| ==> ((bytes[0] < 0x80) <==> |bytes| == 1)
  {
    var q1, r1 := cp / 64, cp % 64;
    var q2, r2 := q1 / 64, q1 % 64;
    var q3, r3 := q2 / 64, q2 % 64;
    if cp < 0x80 then [cp]
    else if cp < 0x800 then [0xC0 + q1, 0x80 + r1]
    else if cp < 0x1_0000 then [0xE0 + q2, 0x80 + r2, 0x80 + r1]
    else [0xF0 + q3, 0x80 + r3, 0x80 + r2, 0x80 + r1]
  }

  /** `%XY` for one byte. */
  function PercentByte(b: nat): (r: string)
    requires b < 0x100
  {
    ['%', HexDigit(b / 16), HexDigit(b % 16)]
  }

  /** The `%XY` escapes of a byte sequence, in order. */
  function PercentBytes(bytes: seq<nat>): (r: string)
    requires forall i :: 0 <= i < |bytes| ==> bytes[i] < 0x100
    ensures |r| == 3 * |bytes|
    ensures forall k :: 0 <= k < |r| ==> r[k] == '%' || Unreserved(r[k])
  {
    if bytes == [] then [] else PercentByte(bytes[0]) + PercentBytes(bytes[1..])
  }

  /** The escape of byte `i` starts at index `3 * i` of the encoding. */
  lemma {:induction false} EscapeAt(bytes: seq<nat>, i: nat)
    requires forall j :: 0 <= j < |bytes| ==> bytes[j] < 0x100
    requires i < |bytes|
    ensures var r := PercentBytes(bytes);
            r[3 * i] == '%' && r[3 * i + 1] == HexDigit(bytes[i] / 16) && r[3 * i + 2] == HexDigit(bytes[i] % 16)
  {
    if i > 0 {
      var rest := PercentBytes(bytes[1..]);
      EscapeAt(bytes[1..], i - 1);
      assert bytes[1..][i - 1] == bytes[i];
      var k := 3 * (i - 1);
      assert PercentBytes(bytes)[k + 3] == rest[k];
      assert PercentBytes(bytes)[k + 4] == rest[k + 1];
      assert PercentBytes(bytes)[k + 5] == rest[k + 2];
    }
  }

  /** One character as `encodeURIComponent` writes it. */
  function EncodeChar(ch: char): (r: string)
  {
    if Unreserved(ch) then [ch] else PercentBytes(Utf8(ch as nat))
  }

  /**
   * `encodeURIComponent(s)`. Its output holds only unreserved characters
   * and `%`, so no `&`, `=`, `#`, `?` or `+` that would end or split a
   * query parameter; a string of unreserved characters comes back as it is.
   */
  function EncodeURIComponent(s: string): (r: string)
    ensures forall k :: 0 <= k < |r| ==> r[k] == '%' || Unreserved(r[k])
    ensures (forall k :: 0 <= k < |s| ==> Unreserved(s[k])) ==> r == s
  {
    if s == [] then [] else EncodeChar(s[0]) + EncodeURIComponent(s[1..])
  }

  /** The byte escaped as `%XY` at index `k`, if there is one. */
  function ReadByte(s: string, k: nat): (r: Option<nat>)
    ensures r.Some? ==> r.value < 0x100 && k + 3 <= |s|
  {
    if k + 3 <= |s| && s[k] == '%' && IsHexDigit(s[k + 1]) && IsHexDigit(s[k + 2])
    then Some(16 * HexValue(s[k + 1]) + HexValue(s[k + 2]))
    else None
  }

  /**
   * Reads `count` escaped continuation bytes (`10xxxxxx`) from index `k` on,
   * appending their six payload bits to `acc`.
   */
  function ReadContinuations(s: string, k: nat, count: nat, acc: nat): (r: Option<nat>)
    decreases count
  {
    if count == 0 then Some(acc)
    else match ReadByte(s, k)
      case None => None
      case Some(b) =>
        if 0x80 <= b < 0xC0 then ReadContinuations(s, k + 3, count - 1, acc * 64 + (b - 0x80)) else None
  }

  /**
   * Decodes the escapes of one character at the start of `s`: its decoded
   * value and the number of characters the escapes take. None where
   * `decodeURIComponent` throws URIError: a malformed escape, a byte that
   * cannot start or continue a UTF-8 sequence, an over-long form, a
   * surrogate or a value beyond U+10FFFF.
   */
  function DecodeChar(s: string): (r: Option<(char, nat)>)
    ensures r.Some? ==> 3 <= r.value.1 <= |s|
  {
    match ReadByte(s, 0)
    case None => None
    case Some(b) =>
      if b < 0x80 then Some((b as char, 3))
      else
        var count: nat := if 0xC0 <= b < 0xE0 then 1 else if 0xE0 <= b < 0xF0 then 2 else if 0xF0 <= b < 0xF8 then 3 else 0;
        var lead: nat := if count == 1 then b - 0xC0 else if count == 2 then b - 0xE0 else if count == 3 then b - 0xF0 else 0;
        var least: nat := if count == 1 then 0x80 else if count == 2 then 0x800 else 0x1_0000;
        if count == 0 then None
        else match ReadContinuations(s, 3, count, lead)
          case None => None
          case Some(cp) =>
            if least <= cp && IsScalar(cp) then Some((cp as char, 3 * (count + 1))) else None
  }

  /** `decodeURIComponent(s)`; None where it throws URIError. */
  function DecodeURIComponent(s: string): (r: Option<string>)
    decreases |s|
  {
    if s == [] then Some([])
    else if s[0] != '%' then
      match DecodeURIComponent(s[1..])
      case None => None
      case Some(t) => Some([s[0]] + t)
    else
      match DecodeChar(s)
      case None => None
      case Some((ch, n)) =>
        match DecodeURIComponent(s[n..])
        case None => None
        case Some(t) => Some([ch] + t)
  }

  /** `%XY` as the encoder writes it reads back as its byte. */
  lemma ReadEscape(s: string, k: nat, b: nat)
    requires b < 0x100 && k + 3 <= |s|
    requires s[k] == '%' && s[k + 1] == HexDigit(b / 16) && s[k + 2] == HexDigit(b % 16)
    ensures ReadByte(s, k) == Some(b)
  {
  }

  /** The escape at index `3 * i` of an encoding reads back as byte `i`, whatever follows it. */
  lemma ReadEncodedByte(bytes: seq<nat>, rest: string, i: nat)
    requires forall j :: 0 <= j < |bytes| ==> bytes[j] < 0x100
    requires i < |bytes|
    ensures ReadByte(PercentBytes(bytes) + rest, 3 * i) == Some(bytes[i])
  {
    var e := PercentBytes(bytes);
    var s := e + rest;
    var k := 3 * i;
    EscapeAt(bytes, i);
    assert s[k] == e[k] && s[k + 1] == e[k + 1] && s[k + 2] == e[k + 2];
    ReadEscape(s, k, bytes[i]);
  }

  /** Reading one continuation byte `10xxxxxx` appends its six payload bits. */
  lemma ContinuationStep(s: string, k: nat, count: nat, acc: nat, r: nat)
    requires r < 64 && ReadByte(s, k) == Some(0x80 + r)
    ensures ReadContinuations(s, k, count + 1, acc) == ReadContinuations(s, k + 3, count, acc * 64 + r)
  {
  }

  /** The escaped UTF-8 bytes of a scalar value decode to that value. */
  lemma DecodeUtf8(cp: nat, rest: string)
    requires IsScalar(cp)
    ensures DecodeChar(PercentBytes(Utf8(cp)) + rest) == Some((cp as char, 3 * |Utf8(cp)|))
  {
    if cp < 0x80 {
      ReadEncodedByte(Utf8(cp), rest, 0);
    } else if cp < 0x800 {
      DecodeTwoBytes(cp, rest);
    } else if cp < 0x1_0000 {
      DecodeThreeBytes(cp, rest);
    } else {
      DecodeFourBytes(cp, rest);
    }
  }

  /** The two bytes of a value from U+0080 to U+07FF and its payload digits in base 64. */
  lemma Utf8Two(cp: nat) returns (q1: nat, r1: nat)
    requires 0x80 <= cp < 0x800
    ensures 2 <= q1 < 0x20 && r1 < 64 && cp == q1 * 64 + r1
    ensures Utf8(cp) == [0xC0 + q1, 0x80 + r1]
  {
    q1, r1 := cp / 64, cp % 64;
  }

  lemma DecodeTwoBytes(cp: nat, rest: string)
    requires 0x80 <= cp < 0x800
    ensures DecodeChar(PercentBytes(Utf8(cp)) + rest) == Some((cp as char, 6))
  {
    var q1, r1 := Utf8Two(cp);
    var bytes := Utf8(cp);
    var s := PercentBytes(bytes) + rest;
    ReadEncodedByte(bytes, rest, 0);
    ReadEncodedByte(bytes, rest, 1);
    ContinuationStep(s, 3, 0, q1, r1);
  }

  /** The three bytes of a value from U+0800 to U+FFFF and its payload digits in base 64. */
  lemma Utf8Three(cp: nat) returns (q2: nat, r2: nat, r1: nat)
    requires 0x800 <= cp < 0x1_0000 && IsScalar(cp)
    ensures q2 < 0x10 && r2 < 64 && r1 < 64 && cp == (q2 * 64 + r2) * 64 + r1
    ensures Utf8(cp) == [0xE0 + q2, 0x80 + r2, 0x80 + r1]
  {
    var q1: nat;
    q1, r1 := cp / 64, cp % 64;
    q2, r2 := q1 / 64, q1 % 64;
  }

  lemma DecodeThreeBytes(cp: nat, rest: string)
    requires 0x800 <= cp < 0x1_0000 && IsScalar(cp)
    ensures DecodeChar(PercentBytes(Utf8(cp)) + rest) == Some((cp as char, 9))
  {
    var q2, r2, r1 := Utf8Three(cp);
    var bytes := Utf8(cp);
    var s := PercentBytes(bytes) + rest;
    ReadEncodedByte(bytes, rest, 0);
    ReadEncodedByte(bytes, rest, 1);
    ReadEncodedByte(bytes, rest, 2);
    ContinuationStep(s, 3, 1, q2, r2);
    ContinuationStep(s, 6, 0, q2 * 64 + r2, r1);
  }

  /** The four bytes of a supplementary-plane value and its payload digits in base 64. */
  lemma Utf8Four(cp: nat) returns (q3: nat, r3: nat, r2: nat, r1: nat)
    requires 0x1_0000 <= cp < 0x11_0000
    ensures q3 < 5 && r3 < 64 && r2 < 64 && r1 < 64
    ensures cp == ((q3 * 64 + r3) * 64 + r2) * 64 + r1
    ensures Utf8(cp) == [0xF0 + q3, 0x80 + r3, 0x80 + r2, 0x80 + r1]
  {
    var q1, q2: nat;
    q1, r1 := cp / 64, cp % 64;
    q2, r2 := q1 / 64, q1 % 64;
    q3, r3 := q2 / 64, q2 % 64;
  }

  lemma DecodeFourBytes(cp: nat, rest: string)
    requires 0x1_0000 <= cp < 0x11_0000
    ensures DecodeChar(PercentBytes(Utf8(cp)) + rest) == Some((cp as char, 12))
  {
    var q3, r3, r2, r1 := Utf8Four(cp);
    var bytes := Utf8(cp);
    var s := PercentBytes(bytes) + rest;
    ReadEncodedByte(bytes, rest, 0);
    ReadEncodedByte(bytes, rest, 1);
    ReadEncodedByte(bytes, rest, 2);
    ReadEncodedByte(bytes, rest, 3);
    ContinuationStep(s, 3, 2, q3, r3);
    ContinuationStep(s, 6, 1, q3 * 64 + r3, r2);
    ContinuationStep(s, 9, 0, (q3 * 64 + r3) * 64 + r2, r1);
  }

  /** `decodeURIComponent(encodeURIComponent(s)) === s`, for every string of scalar values. */
  lemma {:induction false} DecodeEncode(s: string)
    ensures DecodeURIComponent(EncodeURIComponent(s)) == Some(s)
  {
    if s != [] {
      assert s == [s[0]] + s[1..];
      var e := EncodeURIComponent(s);
      var rest := EncodeURIComponent(s[1..]);
      DecodeEncode(s[1..]);
      assert e == EncodeChar(s[0]) + rest;
      if Unreserved(s[0]) {
        assert e[1..] == rest;
      } else {
        var bytes := Utf8(s[0] as nat);
        assert e[0] == '%';
        DecodeUtf8(s[0] as nat, rest);
        assert e[|EncodeChar(s[0])|..] == rest;
      }
    }
  }

  /**
   * `s` cut at every `sep`, as `s.split(sep)` does: there is at least one
   * piece, and no piece holds a separator.
   */
  function Split(s: string, sep: char): (r: seq<string>)
    ensures |r| >= 1
    ensures forall k :: 0 <= k < |r| ==> sep !in r[k]
  {
    if s == [] then [""]
    else
      var rest := Split(s[1..], sep);
      if s[0] == sep then [""] + rest else [[s[0]] + rest[0]] + rest[1..]
  }

  /** A piece free of the separator is not cut. */
  lemma {:induction false} SplitNone(s: string, sep: char)
    requires sep !in s
    ensures Split(s, sep) == [s]
  {
    if s != [] {
      SplitNone(s[1..], sep);
      assert [s[0]] + s[1..] == s;
    }
  }

  /** Cutting at the first separator. */
  lemma {:induction false} SplitFirst(a: string, sep: char, b: string)
    requires sep !in a
    ensures Split(a + [sep] + b, sep) == [a] + Split(b, sep)
  {
    var s := a + [sep] + b;
    if a == [] {
      assert s[0] == sep && s[1..] == b;
    } else {
      assert s[0] == a[0] && s[1..] == a[1..] + [sep] + b;
      SplitFirst(a[1..], sep, b);
      assert [a[0]] + a[1..] == a;
    }
  }

  /**
   * The value of the first `name=value` pair among `pairs`, as it stands
   * (not percent-decoded).
   */
  function ParamValue(pairs: seq<string>, name: string): (r: Option<string>)
  {
    if pairs == [] then None
    else if |name| + 1 <= |pairs[0]| && pairs[0][..|name| + 1] == name + "=" then Some(pairs[0][|name| + 1..])
    else ParamValue(pairs[1..], name)
  }

  /** The query of a URL: what follows its first `?` (empty without one). */
  function QueryOf(url: string): string
  {
    match IndexOf(url, "?")
    case None => ""
    case Some(i) => url[i + 1..]
  }

  /** The raw value of parameter `name` in the query of `url`. */
  function QueryParam(url: string, name: string): Option<string>
  {
    ParamValue(Split(QueryOf(url), '&'), name)
  }
}
