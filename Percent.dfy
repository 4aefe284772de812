// XAuth.encode: the OAuth percent-encoding of section 3.6 of RFC 5849.
// Unreserved characters pass through; every other character goes through
// StringUtil.urlEncode, whose source is not part of this model. It is taken
// to write each UTF-8 byte of the character as '%' and two upper-case
// hexadecimal digits, as section 2.1 of RFC 3986 prescribes.
module Percent {
  import opened Wrappers
  import opened JavaString

  /** n consecutive characters starting at first. */
  function Span(first: char, n: nat): (r: string)
    requires first as int + n <= 0xD800
    ensures |r| == n && forall k :: 0 <= k < n ==> r[k] as int == first as int + k
  {
    seq(n, k requires 0 <= k < n => (first as int + k) as char)
  }

  /** The table XAuth.encode looks characters up in: a-z, A-Z, 0-9, then "-._~". */
  const UnreservedCharacters: string := Span('a', 26) + Span('A', 26) + Span('0', 10) + "-._~"

  const HexDigits: string := "0123456789ABCDEF"

  predicate Unreserved(c: char) {
    ('a' <= c <= 'z') || ('A' <= c <= 'Z') || ('0' <= c <= '9') || c == '-' || c == '.' || c == '_' || c == '~'
  }

  /** The table holds exactly the unreserved characters. */
  lemma UnreservedTable(c: char)
    ensures c in UnreservedCharacters <==> Unreserved(c)
  {
    if Unreserved(c) {
      var i: int;
      if 'a' <= c <= 'z' {
        i := c as int - 'a' as int;
      } else if 'A' <= c <= 'Z' {
        i := 26 + c as int - 'A' as int;
      } else if '0' <= c <= '9' {
        i := 52 + c as int - '0' as int;
      } else if c == '-' {
        i := 62;
      } else if c == '.' {
        i := 63;
      } else if c == '_' {
        i := 64;
      } else {
        i := 65;
      }
      assert UnreservedCharacters[i] == c;
    }
  }

  /** The UTF-8 bytes of a character. */
  function Utf8(c: char): (bytes: seq<nat>)
    ensures 1 <= |bytes| <= 4
    ensures forall k :: 0 <= k < |bytes| ==> bytes[k] < 0x100
  {
    var cp := c as int;
    if cp < 0x80 then [cp]
    else if cp < 0x800 then [0xC0 + cp / 0x40, 0x80 + cp % 0x40]
    else if cp < 0x1_0000 then [0xE0 + cp / 0x1000, 0x80 + cp / 0x40 % 0x40, 0x80 + cp % 0x40]
    else [0xF0 + cp / 0x4_0000, 0x80 + cp / 0x1000 % 0x40, 0x80 + cp / 0x40 % 0x40, 0x80 + cp % 0x40]
  }

  /** Each byte as '%' and two upper-case hexadecimal digits. */
  function PercentBytes(bytes: seq<nat>): (r: string)
    requires forall k :: 0 <= k < |bytes| ==> bytes[k] < 0x100
    ensures |r| == 3 * |bytes|
  {
    if bytes == [] then ""
    else ['%', HexDigits[bytes[0] / 16], HexDigits[bytes[0] % 16]] + PercentBytes(bytes[1..])
  }

  /** StringUtil.urlEncode applied to a one-character string (an assumption, see above). */
  function Escape(c: char): string {
    PercentBytes(Utf8(c))
  }

  function EncodeChar(c: char): string {
    if Unreserved(c) then [c] else Escape(c)
  }

  /** What XAuth.encode returns for a non-null string, one character at a time. */
  function Encoded(s: string): string {
    if s == [] then "" else Encoded(s[..|s| - 1]) + EncodeChar(s[|s| - 1])
  }

  /** XAuth.encode: null and "" give "", every other character is encoded in turn. */
  method Encode(s: Option<string>) returns (r: string)
    ensures r == Encoded(s.GetOr(""))
  {
    if s.None? || s.value == "" {
      return "";
    }
    var str := s.value;
    var sb := "";
    for i := 0 to |str|
      invariant sb == Encoded(str[..i])
    {
      assert str[..i + 1][..i] == str[..i];
      UnreservedTable(str[i]);
      if IndexOf(UnreservedCharacters, str[i]) == -1 {
        sb := sb + Escape(str[i]);
      } else {
        sb := sb + [str[i]];
      }
    }
    assert str[..|str|] == str;
    return sb;
  }

  /** Encoding works character by character: it distributes over concatenation. */
  lemma {:induction false} EncodedAppend(a: string, b: string)
    ensures Encoded(a + b) == Encoded(a) + Encoded(b)
    decreases |b|
  {
    if b != [] {
      var b' := b[..|b| - 1];
      assert (a + b)[..|a + b| - 1] == a + b';
      EncodedAppend(a, b');
    } else {
      assert a + b == a;
    }
  }

  lemma EncodedCons(s: string)
    requires s != []
    ensures Encoded(s) == EncodeChar(s[0]) + Encoded(s[1..])
  {
    assert s == [s[0]] + s[1..];
    EncodedAppend([s[0]], s[1..]);
    assert Encoded([s[0]]) == EncodeChar(s[0]) by {
      assert [s[0]][..0] == [];
    }
  }

  lemma {:induction false} PercentBytesAlphabet(bytes: seq<nat>)
    requires forall k :: 0 <= k < |bytes| ==> bytes[k] < 0x100
    ensures forall k :: 0 <= k < |PercentBytes(bytes)| ==>
      PercentBytes(bytes)[k] == '%' || Unreserved(PercentBytes(bytes)[k])
    ensures PercentBytes(bytes) != [] ==> PercentBytes(bytes)[0] == '%'
  {
    if bytes != [] {
      PercentBytesAlphabet(bytes[1..]);
    }
  }

  /** The output holds only unreserved characters and '%': never '&', '=' or '?'. */
  lemma {:induction false} EncodedAlphabet(s: string)
    ensures forall k :: 0 <= k < |Encoded(s)| ==> Encoded(s)[k] == '%' || Unreserved(Encoded(s)[k])
    decreases |s|
  {
    if s != [] {
      EncodedAlphabet(s[..|s| - 1]);
      PercentBytesAlphabet(Utf8(s[|s| - 1]));
    }
  }

  lemma EncodedHasNo(s: string, c: char)
    requires c == '&' || c == '=' || c == '?'
    ensures c !in Encoded(s)
  {
    EncodedAlphabet(s);
  }

  lemma {:induction false} EncodedLength(s: string)
    ensures |Encoded(s)| >= |s|
    ensures (exists k :: 0 <= k < |s| && !Unreserved(s[k])) ==> |Encoded(s)| > |s|
    decreases |s|
  {
    if s != [] {
      var init := s[..|s| - 1];
      EncodedLength(init);
      if exists k :: 0 <= k < |s| && !Unreserved(s[k]) {
        var k :| 0 <= k < |s| && !Unreserved(s[k]);
        if k < |s| - 1 {
          assert init[k] == s[k];
        }
      }
    }
  }

  /** Encoding leaves a string unchanged exactly when all of it is unreserved. */
  lemma {:induction false} EncodedUnchanged(s: string)
    ensures Encoded(s) == s <==> forall k :: 0 <= k < |s| ==> Unreserved(s[k])
    decreases |s|
  {
    EncodedLength(s);
    if s != [] && forall k :: 0 <= k < |s| ==> Unreserved(s[k]) {
      var init := s[..|s| - 1];
      EncodedUnchanged(init);
      assert s == init + [s[|s| - 1]];
    }
  }

  // ---------------------------------------------------------------------
  // A decoder, as the server would apply it, and the round trip.

  function HexValue(c: char): Option<nat> {
    if '0' <= c <= '9' then Some(c as int - '0' as int)
    else if 'A' <= c <= 'F' then Some(c as int - 'A' as int + 10)
    else None
  }

  /** The byte written as '%XY' at index i of t. */
  function ByteAt(t: string, i: nat): (r: Option<nat>)
    ensures r.Some? ==> r.value < 0x100
  {
    if i + 3 <= |t| && t[i] == '%' then
      var hi :- HexValue(t[i + 1]);
      var lo :- HexValue(t[i + 2]);
      Some(16 * hi + lo)
    else None
  }

  /** The n bytes written as '%XY' groups at the start of t. */
  function EscapedBytes(t: string, n: nat): (r: Option<seq<nat>>)
    ensures r.Some? ==> |r.value| == n && 3 * n <= |t|
    ensures r.Some? ==> forall k :: 0 <= k < n ==> r.value[k] < 0x100
  {
    if n == 0 then Some([])
    else
      var b :- ByteAt(t, 0);
      var rest :- EscapedBytes(t[3..], n - 1);
      Some([b] + rest)
  }

  /** How many bytes a UTF-8 sequence with this first byte has (0: not a first byte). */
  function SequenceLength(lead: nat): nat {
    if lead < 0x80 then 1
    else if 0xC0 <= lead < 0xE0 then 2
    else if 0xE0 <= lead < 0xF0 then 3
    else if 0xF0 <= lead < 0xF8 then 4
    else 0
  }

  predicate Continuation(b: nat) {
    0x80 <= b < 0xC0
  }

  function CodePoint(n: int): Option<char> {
    if 0 <= n < 0xD800 || 0xE000 <= n < 0x11_0000 then Some(n as char) else None
  }

  function Utf8Decode(bytes: seq<nat>): Option<char> {
    if |bytes| == 1 && bytes[0] < 0x80 then
      CodePoint(bytes[0])
    else if |bytes| == 2 && 0xC0 <= bytes[0] < 0xE0 && Continuation(bytes[1]) then
      CodePoint((bytes[0] - 0xC0) * 0x40 + (bytes[1] - 0x80))
    else if |bytes| == 3 && 0xE0 <= bytes[0] < 0xF0 && Continuation(bytes[1]) && Continuation(bytes[2]) then
      CodePoint((bytes[0] - 0xE0) * 0x1000 + (bytes[1] - 0x80) * 0x40 + (bytes[2] - 0x80))
    else if |bytes| == 4 && 0xF0 <= bytes[0] < 0xF8 && Continuation(bytes[1]) && Continuation(bytes[2])
            && Continuation(bytes[3]) then
      CodePoint((bytes[0] - 0xF0) * 0x4_0000 + (bytes[1] - 0x80) * 0x1000 + (bytes[2] - 0x80) * 0x40 + (bytes[3] - 0x80))
    else None
  }

  /** The character escaped at the start of t, and how many characters the escape takes. */
  function DecodeEscape(t: string): (r: Option<(char, nat)>)
    ensures r.Some? ==> 3 <= r.value.1 <= |t|
  {
    var lead :- ByteAt(t, 0);
    var n := SequenceLength(lead);
    if n == 0 then None
    else
      var bytes :- EscapedBytes(t, n);
      var c :- Utf8Decode(bytes);
      Some((c, 3 * n))
  }

  /** Percent-decoding of an encoded string. */
  function PercentDecode(t: string): Option<string>
    decreases |t|
  {
    if t == [] then Some([])
    else if t[0] != '%' then
      if Unreserved(t[0]) then
        var rest :- PercentDecode(t[1..]);
        Some([t[0]] + rest)
      else None
    else
      var (c, len) :- DecodeEscape(t);
      var rest :- PercentDecode(t[len..]);
      Some([c] + rest)
  }

  lemma Utf8RoundTrip(c: char)
    ensures SequenceLength(Utf8(c)[0]) == |Utf8(c)|
    ensures forall k :: 1 <= k < |Utf8(c)| ==> Continuation(Utf8(c)[k])
    ensures Utf8Decode(Utf8(c)) == Some(c)
  {
    var cp := c as int;
    var q1, r1 := cp / 0x40, cp % 0x40;
    var q2, r2 := q1 / 0x40, q1 % 0x40;
    var q3, r3 := q2 / 0x40, q2 % 0x40;
    assert cp == q1 * 0x40 + r1;
    assert q1 == q2 * 0x40 + r2;
    assert q2 == q3 * 0x40 + r3;
    assert cp / 0x1000 == q2;
    assert cp / 0x4_0000 == q3;
    if cp < 0x800 {
    } else if cp < 0x1_0000 {
      assert cp == q2 * 0x1000 + r2 * 0x40 + r1;
    } else {
      assert cp == q3 * 0x4_0000 + r3 * 0x1000 + r2 * 0x40 + r1;
    }
  }

  lemma HexDigitValue(d: nat)
    requires d < 16
    ensures HexValue(HexDigits[d]) == Some(d)
  {
  }

  lemma {:induction false} EscapedBytesOfPercentBytes(bytes: seq<nat>, rest: string)
    requires forall k :: 0 <= k < |bytes| ==> bytes[k] < 0x100
    ensures EscapedBytes(PercentBytes(bytes) + rest, |bytes|) == Some(bytes)
  {
    if bytes != [] {
      var b := bytes[0];
      var head := ['%', HexDigits[b / 16], HexDigits[b % 16]];
      var tail := PercentBytes(bytes[1..]) + rest;
      var t := PercentBytes(bytes) + rest;
      assert t == head + tail;
      ByteAtPercent(b, tail);
      assert t[3..] == tail;
      EscapedBytesOfPercentBytes(bytes[1..], rest);
      assert bytes == [b] + bytes[1..];
    }
  }

  /** One '%XY' group reads back as its byte. */
  lemma ByteAtPercent(b: nat, rest: string)
    requires b < 0x100
    ensures ByteAt(['%', HexDigits[b / 16], HexDigits[b % 16]] + rest, 0) == Some(b)
  {
    var t := ['%', HexDigits[b / 16], HexDigits[b % 16]] + rest;
    HexDigitValue(b / 16);
    HexDigitValue(b % 16);
    assert t[1] == HexDigits[b / 16] && t[2] == HexDigits[b % 16];
    assert 16 * (b / 16) + b % 16 == b;
  }

  lemma DecodeEscapeOf(c: char, rest: string)
    ensures DecodeEscape(Escape(c) + rest) == Some((c, |Escape(c)|))
  {
    Utf8RoundTrip(c);
    DecodeEscapeOfBytes(Utf8(c), c, rest);
  }

  /** A well-formed UTF-8 sequence of c, percent-escaped, decodes to c. */
  lemma DecodeEscapeOfBytes(bytes: seq<nat>, c: char, rest: string)
    requires 1 <= |bytes| && forall k :: 0 <= k < |bytes| ==> bytes[k] < 0x100
    requires SequenceLength(bytes[0]) == |bytes| && Utf8Decode(bytes) == Some(c)
    ensures DecodeEscape(PercentBytes(bytes) + rest) == Some((c, 3 * |bytes|))
  {
    EscapedBytesOfPercentBytes(bytes, rest);
    LeadByte(bytes, rest);
  }

  /** The first '%XY' group of escaped bytes reads back as the first byte. */
  lemma LeadByte(bytes: seq<nat>, rest: string)
    requires 1 <= |bytes| && forall k :: 0 <= k < |bytes| ==> bytes[k] < 0x100
    ensures ByteAt(PercentBytes(bytes) + rest, 0) == Some(bytes[0])
  {
    var b := bytes[0];
    var escaped := PercentBytes(bytes);
    assert escaped[0] == '%' && escaped[1] == HexDigits[b / 16] && escaped[2] == HexDigits[b % 16];
    ByteAtPercent(b, escaped[3..] + rest);
    FirstThree(escaped, rest);
  }

  lemma FirstThree(s: string, rest: string)
    requires |s| >= 3
    ensures s + rest == [s[0], s[1], s[2]] + (s[3..] + rest)
  {
    assert s == [s[0], s[1], s[2]] + s[3..];
  }

  /** The server recovers exactly the string that was encoded. */
  lemma {:induction false} DecodeEncoded(s: string)
    ensures PercentDecode(Encoded(s)) == Some(s)
    decreases |s|
  {
    if s != [] {
      DecodeFirst(s);
      DecodeEncoded(s[1..]);
      assert [s[0]] + s[1..] == s;
    }
  }

  /** Decoding an encoded string gives back its first character, then decodes the rest. */
  lemma DecodeFirst(s: string)
    requires s != []
    ensures PercentDecode(Encoded(s)) == (var r :- PercentDecode(Encoded(s[1..])); Some([s[0]] + r))
  {
    EncodedCons(s);
    DecodeChar(s[0], Encoded(s[1..]));
  }

  /** Decoding the encoding of one character gives it back and goes on with the rest. */
  lemma DecodeChar(c: char, rest: string)
    ensures PercentDecode(EncodeChar(c) + rest) == (var r :- PercentDecode(rest); Some([c] + r))
  {
    if Unreserved(c) {
      DecodeUnreserved(c, rest);
    } else {
      DecodeEscaped(c, rest);
    }
  }

  lemma DecodeUnreserved(c: char, rest: string)
    requires Unreserved(c)
    ensures PercentDecode([c] + rest) == (var r :- PercentDecode(rest); Some([c] + r))
  {
    assert ([c] + rest)[1..] == rest;
  }

  lemma DecodeEscaped(c: char, rest: string)
    ensures PercentDecode(Escape(c) + rest) == (var r :- PercentDecode(rest); Some([c] + r))
  {
    DecodeEscapeOf(c, rest);
    PercentBytesAlphabet(Utf8(c));
    assert (Escape(c) + rest)[|Escape(c)|..] == rest;
  }

  /** Distinct strings never encode alike. */
  lemma EncodedInjective(a: string, b: string)
    requires Encoded(a) == Encoded(b)
    ensures a == b
  {
    DecodeEncoded(a);
    DecodeEncoded(b);
  }
}
