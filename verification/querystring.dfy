/**
 * Node's `querystring.escape` and `querystring.unescape`, at the level of
 * UTF-8 bytes: percent-encoding as in section 2.1 of RFC 3986, with the
 * unreserved set of ECMAScript `encodeURIComponent`.
 */
module Querystring {
  import opened ByteStrings

  /** Bytes written as themselves: `A-Z a-z 0-9 - _ . ! ~ * ' ( )`. */
  predicate Unreserved(b: byte) {
    ('A' <= b <= 'Z') || ('a' <= b <= 'z') || ('0' <= b <= '9') || b in "-_.!~*'()"
  }

  /** Upper-case hexadecimal digit for a value below 16. */
  function HexDigit(n: int): (d: byte)
    requires 0 <= n < 16
  {
    "0123456789ABCDEF"[n]
  }

  /** Hexadecimal digit in either case, as the unescaper accepts it. */
  predicate IsHexDigit(b: byte) {
    ('0' <= b <= '9') || ('a' <= b <= 'f') || ('A' <= b <= 'F')
  }

  function HexValue(b: byte): (n: int)
    requires IsHexDigit(b)
    ensures 0 <= n < 16
  {
    if '0' <= b <= '9' then b as int - '0' as int
    else if 'a' <= b <= 'f' then b as int - 'a' as int + 10
    else b as int - 'A' as int + 10
  }

  /** Reading back a digit gives its value. */
  lemma HexValueOfDigit(n: int)
    requires 0 <= n < 16
    ensures IsHexDigit(HexDigit(n)) && HexValue(HexDigit(n)) == n
  {
  }

  /** An upper-case hexadecimal digit, the only kind the escaper writes. */
  predicate IsUpperHexDigit(b: byte) {
    ('0' <= b <= '9') || ('A' <= b <= 'F')
  }

  /** Upper-case digits are digits, and each denotes its own value. */
  lemma HexDigitIsUpper(n: int)
    requires 0 <= n < 16
    ensures IsUpperHexDigit(HexDigit(n)) && IsHexDigit(HexDigit(n)) && HexValue(HexDigit(n)) == n
  {
    HexValueOfDigit(n);
  }

  /**
   * One byte: itself when unreserved, otherwise `%` and two upper-case
   * hexadecimal digits that denote the byte.
   */
  function EscapeByte(b: byte): (r: Bytes)
    ensures Unreserved(b) ==> r == [b]
    ensures !Unreserved(b) ==>
      && |r| == 3 && r[0] == '%'
      && IsUpperHexDigit(r[1]) && IsUpperHexDigit(r[2])
      && IsHexDigit(r[1]) && IsHexDigit(r[2])
      && 16 * HexValue(r[1]) + HexValue(r[2]) == b as int
  {
    if Unreserved(b) then [b]
    else
      HexDigitIsUpper(b as int / 16);
      HexDigitIsUpper(b as int % 16);
      ['%', HexDigit(b as int / 16), HexDigit(b as int % 16)]
  }

  /**
   * `querystring.escape(s)`. Every byte of the result is unreserved or `%`;
   * in particular the result holds no `/`.
   */
  function Escape(s: Bytes): (r: Bytes)
    ensures |r| >= |s|
    ensures forall i :: 0 <= i < |r| ==> Unreserved(r[i]) || r[i] == '%'
  {
    if |s| == 0 then []
    else EscapeByte(s[0]) + Escape(s[1..])
  }

  /**
   * `querystring.unescape(s)`: a `%` followed by two hexadecimal digits
   * (either case) is the byte they denote; every other byte, including a
   * `%` that does not start such a triple, stands for itself.
   */
  function Unescape(s: Bytes): (r: Bytes)
    ensures |r| <= |s|
  {
    if |s| == 0 then []
    else if s[0] == '%' && |s| >= 3 && IsHexDigit(s[1]) && IsHexDigit(s[2]) then
      [(16 * HexValue(s[1]) + HexValue(s[2])) as char] + Unescape(s[3..])
    else [s[0]] + Unescape(s[1..])
  }

  /** A string of one byte is escaped as that byte. */
  lemma EscapeSingle(b: byte)
    ensures Escape([b]) == EscapeByte(b)
  {
    assert [b][1..] == [];
  }

  /**
   * Escaping works byte by byte: the escape of a concatenation is the
   * concatenation of the escapes, so an unreserved byte stays as itself
   * whatever surrounds it.
   */
  lemma {:induction false} EscapeConcat(a: Bytes, b: Bytes)
    ensures Escape(a + b) == Escape(a) + Escape(b)
    decreases |a|
  {
    if |a| == 0 {
      assert a + b == b;
    } else {
      assert (a + b)[0] == a[0];
      assert (a + b)[1..] == a[1..] + b;
      EscapeConcat(a[1..], b);
    }
  }

  /** `%` and two hexadecimal digits of either case decode to the byte they denote. */
  lemma UnescapeHexTriple(h1: byte, h2: byte, rest: Bytes)
    requires IsHexDigit(h1) && IsHexDigit(h2)
    ensures Unescape(['%', h1, h2] + rest)
            == [(16 * HexValue(h1) + HexValue(h2)) as char] + Unescape(rest)
  {
    assert (['%', h1, h2] + rest)[3..] == rest;
  }

  /**
   * A byte other than `%`, or a `%` that is not followed by two hexadecimal
   * digits, stands for itself.
   */
  lemma UnescapeLiteral(c: byte, rest: Bytes)
    requires c != '%' || !(|rest| >= 2 && IsHexDigit(rest[0]) && IsHexDigit(rest[1]))
    ensures Unescape([c] + rest) == [c] + Unescape(rest)
  {
    assert ([c] + rest)[1..] == rest;
  }

  /** A string without `%` decodes to itself. */
  lemma {:induction false} UnescapeNoPercent(s: Bytes)
    requires forall i :: 0 <= i < |s| ==> s[i] != '%'
    ensures Unescape(s) == s
    decreases |s|
  {
    if |s| > 0 {
      UnescapeNoPercent(s[1..]);
      assert [s[0]] + s[1..] == s;
    }
  }

  /** Unescaping an escaped byte followed by anything yields that byte first. */
  lemma UnescapeEscapeByte(b: byte, rest: Bytes)
    ensures Unescape(EscapeByte(b) + rest) == [b] + Unescape(rest)
  {
    var e := EscapeByte(b) + rest;
    if Unreserved(b) {
      assert e[1..] == rest;
    } else {
      assert e[3..] == rest;
    }
  }

  /** Decoding undoes encoding: `unescape(escape(s)) == s`. */
  lemma {:induction false} UnescapeEscape(s: Bytes)
    ensures Unescape(Escape(s)) == s
    decreases |s|
  {
    if |s| > 0 {
      UnescapeEscapeByte(s[0], Escape(s[1..]));
      UnescapeEscape(s[1..]);
      assert [s[0]] + s[1..] == s;
    }
  }

  /** Encoding is injective, so distinct inputs never share an encoding. */
  lemma EscapeInjective(s: Bytes, t: Bytes)
    ensures Escape(s) == Escape(t) <==> s == t
  {
    if Escape(s) == Escape(t) {
      UnescapeEscape(s);
      UnescapeEscape(t);
    }
  }

  /** Encoding leaves a string alone exactly when all its bytes are unreserved. */
  lemma {:induction false} EscapeIdentity(s: Bytes)
    ensures Escape(s) == s <==> forall i :: 0 <= i < |s| ==> Unreserved(s[i])
    decreases |s|
  {
    if |s| > 0 {
      EscapeIdentity(s[1..]);
      if Unreserved(s[0]) {
        assert [s[0]] + s[1..] == s;
        assert forall i :: 1 <= i < |s| ==> s[i] == s[1..][i - 1];
      } else {
        assert |Escape(s)| >= 3 + |s[1..]| > |s|;
      }
    }
  }
}
