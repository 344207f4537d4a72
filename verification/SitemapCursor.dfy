/**
 Cursors in sitemap addresses: the sixteen bytes of an id in the URL-safe alphabet of section 5 of
 RFC 4648, without padding, and strict about unused bits when read back.
 */
module SitemapCursor {
  import opened Prelude

  type Byte = b: int | 0 <= b < 256
  type Digit = d: int | 0 <= d < 64

  // ---------------------------------------------------------------- digits

  /** Three bytes as four digits: the six highest bits first. */
  function D0(a: Byte): Digit { a / 4 }
  function D1(a: Byte, b: Byte): Digit { a % 4 * 16 + b / 16 }
  function D2(b: Byte, c: Byte): Digit { b % 16 * 4 + c / 64 }
  function D3(c: Byte): Digit { c % 64 }

  /** Four digits as three bytes. */
  function B0(d: Digit, e: Digit): Byte { (d as int) * 4 + e / 16 }
  function B1(e: Digit, f: Digit): Byte { (e as int) % 16 * 16 + f / 4 }
  function B2(f: Digit, g: Digit): Byte { (f as int) % 4 * 64 + g }

  lemma Regroup(a: Byte, b: Byte, c: Byte)
    ensures B0(D0(a), D1(a, b)) == a && B1(D1(a, b), D2(b, c)) == b && B2(D2(b, c), D3(c)) == c
  {
  }

  lemma RegroupFirst(d: Digit, e: Digit, f: Digit)
    ensures D0(B0(d, e)) == d && D1(B0(d, e), B1(e, f)) == e
  {
    assert B0(d, e) / 4 == d && B0(d, e) % 4 == e / 16;
    assert B1(e, f) / 16 == e % 16;
  }

  lemma RegroupLast(e: Digit, f: Digit, g: Digit)
    ensures D2(B1(e, f), B2(f, g)) == f && D3(B2(f, g)) == g
  {
    assert B1(e, f) % 16 == f / 4;
    assert B2(f, g) / 64 == f % 4 && B2(f, g) % 64 == g;
  }

  /** Groups of three bytes; missing bytes of the last group count as zero and their digits are dropped. */
  function Digits(bytes: seq<Byte>): seq<Digit> {
    if |bytes| == 0 then []
    else if |bytes| == 1 then [D0(bytes[0]), D1(bytes[0], 0)]
    else if |bytes| == 2 then [D0(bytes[0]), D1(bytes[0], bytes[1]), D2(bytes[1], 0)]
    else [D0(bytes[0]), D1(bytes[0], bytes[1]), D2(bytes[1], bytes[2]), D3(bytes[2])] + Digits(bytes[3..])
  }

  /** A last group must have at least two digits and no bits set beyond its bytes. */
  function Bytes(digits: seq<Digit>): Option<seq<Byte>> {
    if |digits| == 0 then Some([])
    else if |digits| == 1 then None
    else if |digits| == 2 then
      if B1(digits[1], 0) == 0 then Some([B0(digits[0], digits[1])]) else None
    else if |digits| == 3 then
      if B2(digits[2], 0) == 0 then Some([B0(digits[0], digits[1]), B1(digits[1], digits[2])]) else None
    else
      var rest := Bytes(digits[4..]);
      if rest.None? then None else Some([B0(digits[0], digits[1]), B1(digits[1], digits[2]), B2(digits[2], digits[3])]
          + rest.value)
  }

  lemma NextGroup(d: Digit, e: Digit, f: Digit, g: Digit, rest: seq<Digit>)
    requires Bytes(rest).Some?
    ensures Bytes([d, e, f, g] + rest) == Some([B0(d, e), B1(e, f), B2(f, g)] + Bytes(rest).value)
  {
    assert ([d, e, f, g] + rest)[4..] == rest;
  }

  lemma LastTwo(d: Digit, e: Digit)
    requires B1(e, 0) == 0
    ensures Bytes([d, e]) == Some([B0(d, e)])
  {
  }

  lemma LastThree(d: Digit, e: Digit, f: Digit)
    requires B2(f, 0) == 0
    ensures Bytes([d, e, f]) == Some([B0(d, e), B1(e, f)])
  {
  }

  lemma UnusedBits(a: Byte)
    ensures B1(D1(a, 0), 0) == 0 && B2(D2(a, 0), 0) == 0
  {
    assert D1(a, 0) == a % 4 * 16 && (a % 4 * 16) % 16 == 0;
    assert D2(a, 0) == a % 16 * 4 && (a % 16 * 4) % 4 == 0;
  }

  lemma OneByte(bytes: seq<Byte>)
    requires |bytes| == 1
    ensures Bytes(Digits(bytes)) == Some(bytes)
  {
    var a := bytes[0];
    var d, e := D0(a), D1(a, 0);
    assert Digits(bytes) == [d, e];
    assert B1(e, 0) == 0 by { UnusedBits(a); }
    LastTwo(d, e);
    assert B0(d, e) == a by { Regroup(a, 0, 0); }
    assert bytes == [a];
  }

  lemma TwoBytes(bytes: seq<Byte>)
    requires |bytes| == 2
    ensures Bytes(Digits(bytes)) == Some(bytes)
  {
    var a, b := bytes[0], bytes[1];
    var d, e, f := D0(a), D1(a, b), D2(b, 0);
    assert Digits(bytes) == [d, e, f];
    assert B2(f, 0) == 0 by { UnusedBits(b); }
    LastThree(d, e, f);
    assert B0(d, e) == a && B1(e, f) == b by { Regroup(a, b, 0); }
    assert bytes == [a, b];
  }

  lemma {:induction false} BytesOfDigits(bytes: seq<Byte>)
    ensures Bytes(Digits(bytes)) == Some(bytes)
    decreases |bytes|
  {
    if |bytes| == 1 {
      OneByte(bytes);
    } else if |bytes| == 2 {
      TwoBytes(bytes);
    } else if |bytes| >= 3 {
      var a, b, c, rest := bytes[0], bytes[1], bytes[2], bytes[3..];
      BytesOfDigits(rest);
      NextGroup(D0(a), D1(a, b), D2(b, c), D3(c), Digits(rest));
      Regroup(a, b, c);
      assert bytes == [a, b, c] + rest;
    }
  }

  lemma {:induction false} DigitsOfBytes(digits: seq<Digit>)
    ensures Bytes(digits).Some? ==> Digits(Bytes(digits).value) == digits
    decreases |digits|
  {
    if |digits| == 2 {
      RegroupFirst(digits[0], digits[1], 0);
    } else if |digits| == 3 {
      RegroupFirst(digits[0], digits[1], digits[2]);
      RegroupLast(digits[1], digits[2], 0);
    } else if |digits| >= 4 && Bytes(digits).Some? {
      var triple := [B0(digits[0], digits[1]), B1(digits[1], digits[2]), B2(digits[2], digits[3])];
      var rest := Bytes(digits[4..]).value;
      DigitsOfBytes(digits[4..]);
      assert (triple + rest)[3..] == rest;
      RegroupFirst(digits[0], digits[1], digits[2]);
      RegroupLast(digits[1], digits[2], digits[3]);
      assert digits == [digits[0], digits[1], digits[2], digits[3]] + digits[4..];
    }
  }

  // ---------------------------------------------------------------- letters

  function Letter(d: Digit): char {
    if d < 26 then 'A' + d as char
    else if d < 52 then 'a' + (d - 26) as char
    else if d < 62 then '0' + (d - 52) as char
    else if d == 62 then '-'
    else '_'
  }

  function DigitFor(c: char): Option<Digit> {
    if 'A' <= c <= 'Z' then Some((c - 'A') as int)
    else if 'a' <= c <= 'z' then Some((c - 'a') as int + 26)
    else if '0' <= c <= '9' then Some((c - '0') as int + 52)
    else if c == '-' then Some(62)
    else if c == '_' then Some(63)
    else None
  }

  lemma LetterIff(d: Digit, c: char)
    ensures DigitFor(c) == Some(d) <==> c == Letter(d)
  {
  }

  function Letters(digits: seq<Digit>): (r: string)
    ensures |r| == |digits|
  {
    seq(|digits|, i requires 0 <= i < |digits| => Letter(digits[i]))
  }

  function ParseLetters(s: string): Option<seq<Digit>> {
    if s == [] then Some([])
    else
      var first, rest := DigitFor(s[0]), ParseLetters(s[1..]);
      if first.None? || rest.None? then None else Some([first.value] + rest.value)
  }

  lemma {:induction false} LettersIff(s: string, digits: seq<Digit>)
    ensures ParseLetters(s) == Some(digits) <==> s == Letters(digits)
    decreases |s| + |digits|
  {
    if s != [] && digits != [] {
      LetterIff(digits[0], s[0]);
      LettersIff(s[1..], digits[1..]);
      assert s == [s[0]] + s[1..] && digits == [digits[0]] + digits[1..];
      assert Letters(digits) == [Letter(digits[0])] + Letters(digits[1..]);
      if ParseLetters(s) == Some(digits) {
        assert ParseLetters(s[1..]).value == digits[1..];
      }
    }
  }

  // ---------------------------------------------------------------- cursors

  predicate IsUuid(bytes: seq<Byte>) {
    |bytes| == 16
  }

  function EncodeCursor(id: seq<Byte>): string {
    Letters(Digits(id))
  }

  const SUFFIX: string := ".xml"

  /** The last path segment of a page's address, or nothing when it is not one this server wrote. */
  function DecodeCursor(value: string): Option<seq<Byte>> {
    if |value| < |SUFFIX| || value[|value| - |SUFFIX|..] != SUFFIX then None
    else
      var digits := ParseLetters(value[..|value| - |SUFFIX|]);
      if digits.None? then None
      else
        var bytes := Bytes(digits.value);
        if bytes.Some? && IsUuid(bytes.value) then bytes else None
  }

  /** An address leads to an id exactly when it is the address advertised for that id. */
  lemma CursorIff(value: string, id: seq<Byte>)
    requires IsUuid(id)
    ensures DecodeCursor(value) == Some(id) <==> value == EncodeCursor(id) + SUFFIX
  {
    if value == EncodeCursor(id) + SUFFIX {
      assert value[..|value| - |SUFFIX|] == EncodeCursor(id);
      LettersIff(EncodeCursor(id), Digits(id));
      BytesOfDigits(id);
    }
    if DecodeCursor(value) == Some(id) {
      var front := value[..|value| - |SUFFIX|];
      var digits := ParseLetters(front).value;
      LettersIff(front, digits);
      DigitsOfBytes(digits);
      assert value == front + SUFFIX;
    }
  }
}
