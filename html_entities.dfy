/** The HTML entity encoder (pages/tools/html-entities.tsx): one global replacement that
    writes every character of U+00A0..U+9999, and each of < > & " ' and the backquote, as
    the decimal numeric character reference "&#" + code + ";". The pattern has no `u`
    flag, so it looks at UTF-16 code units. A character above U+FFFF is two surrogate
    units, both outside the range, so it passes through unchanged. The page's decoder
    is the browser's HTML parser and is not part of this model. In its place,
    `DecodeNumeric` reads the numeric references back, and serves as the encoder's inverse. */
module HtmlEntities {
  import opened JsString
  import opened JsNumber

  /** The characters the pattern matches. */
  predicate Matched(c: char) {
    (0xA0 <= c as int <= 0x9999) || c == '<' || c == '>' || c == '&' || c == '"' || c == '\'' || c == '`'
  }

  /** `&#${char.charCodeAt(0)};`. */
  function Reference(c: char): string {
    "&#" + NatToString(c as int, 10) + ";"
  }

  /** `encodeHtmlEntities`. */
  function EncodeHtmlEntities(s: string): string {
    if s == [] then [] else (if Matched(s[0]) then Reference(s[0]) else [s[0]]) + EncodeHtmlEntities(s[1..])
  }

  predicate IsScalar(v: nat) {
    v < 0xD800 || (0xE000 <= v < 0x11_0000)
  }

  /** Reads back every "&#" + decimal digits + ";" whose value is a character; any other
      character stands for itself. */
  function DecodeNumeric(s: string): string
    decreases |s|
  {
    if s == [] then []
    else if |s| >= 2 && s[0] == '&' && s[1] == '#' then
      var t := s[2..];
      var n := DigitPrefixLength(t, 10);
      if 0 < n < |t| && t[n] == ';' && IsScalar(DigitsValue(t[..n], 10)) then
        [DigitsValue(t[..n], 10) as char] + DecodeNumeric(t[n + 1..])
      else [s[0]] + DecodeNumeric(s[1..])
    else [s[0]] + DecodeNumeric(s[1..])
  }

  // ---------------------------------------------------------------------------------
  // Round trip

  lemma DecodeReference(c: char, rest: string)
    ensures DecodeNumeric(Reference(c) + rest) == [c] + DecodeNumeric(rest)
  {
    var d := NatToString(c as int, 10);
    NatToStringValue(c as int, 10);
    var s := Reference(c) + rest;
    var t := s[2..];
    assert t == d + ([';'] + rest);
    assert t[|d|] == ';';
    assert DigitPrefixLength(t, 10) == |d|;
    assert t[..|d|] == d;
    assert t[|d| + 1..] == rest;
  }

  lemma DecodePlain(c: char, rest: string)
    requires c != '&'
    ensures DecodeNumeric([c] + rest) == [c] + DecodeNumeric(rest)
  {
    assert ([c] + rest)[1..] == rest;
  }

  /** Reading the references back gives the original text. */
  lemma {:induction false} DecodeEncode(s: string)
    ensures DecodeNumeric(EncodeHtmlEntities(s)) == s
  {
    if s != [] {
      DecodeEncode(s[1..]);
      if Matched(s[0]) {
        DecodeReference(s[0], EncodeHtmlEntities(s[1..]));
      } else {
        DecodePlain(s[0], EncodeHtmlEntities(s[1..]));
      }
      assert [s[0]] + s[1..] == s;
    }
  }

  // ---------------------------------------------------------------------------------
  // Shape of the output

  /** The text of a reference: "&#", decimal digits, ";". */
  lemma ReferenceShape(c: char)
    ensures |Reference(c)| >= 4
    ensures forall i :: 0 <= i < |Reference(c)| ==>
      var x := Reference(c)[i]; x == '&' || x == '#' || x == ';' || '0' <= x <= '9'
    ensures Reference(c)[0] == '&' && Reference(c)[1] == '#'
    ensures forall i :: 1 <= i < |Reference(c)| ==> !Matched(Reference(c)[i])
  {
  }

  /** One or more decimal digits, then ";". */
  predicate DigitsThenSemicolon(u: string)
    decreases |u|
  {
    |u| >= 2 && '0' <= u[0] <= '9' && (u[1] == ';' || DigitsThenSemicolon(u[1..]))
  }

  /** The text starts with a numeric reference: "&#", decimal digits, ";". */
  predicate StartsReference(t: string) {
    |t| >= 4 && t[0] == '&' && t[1] == '#' && DigitsThenSemicolon(t[2..])
  }

  /** No < > " ' or backquote and no character of U+00A0..U+9999, and each ampersand
      starts a numeric reference. */
  predicate IsSafe(e: string) {
    forall i :: 0 <= i < |e| ==>
      (Matched(e[i]) ==> e[i] == '&') && (e[i] == '&' ==> StartsReference(e[i..]))
  }

  /** The encoded text is safe. */
  lemma {:induction false} EncodedIsSafe(s: string)
    ensures IsSafe(EncodeHtmlEntities(s))
  {
    if s != [] {
      EncodedIsSafe(s[1..]);
      var h := if Matched(s[0]) then Reference(s[0]) else [s[0]];
      HeadIsSafe(s[0]);
      SafeAppend(h, EncodeHtmlEntities(s[1..]));
    }
  }

  lemma {:induction false} DigitsSemicolon(d: string, r: string)
    requires d != [] && forall i :: 0 <= i < |d| ==> IsDigitIn(d[i], 10)
    ensures DigitsThenSemicolon(d + ";" + r)
  {
    if |d| > 1 {
      DigitsSemicolon(d[1..], r);
      assert (d + ";" + r)[1..] == d[1..] + ";" + r;
    }
  }

  lemma {:induction false} DigitsExtend(u: string, r: string)
    requires DigitsThenSemicolon(u)
    ensures DigitsThenSemicolon(u + r)
    decreases |u|
  {
    if u[1] != ';' {
      DigitsExtend(u[1..], r);
      assert (u + r)[1..] == u[1..] + r;
    }
  }

  lemma StartsExtend(t: string, r: string)
    requires StartsReference(t)
    ensures StartsReference(t + r)
  {
    DigitsExtend(t[2..], r);
    assert (t + r)[2..] == t[2..] + r;
  }

  /** What the encoder writes for one character is safe. */
  lemma HeadIsSafe(c: char)
    ensures var h := if Matched(c) then Reference(c) else [c]; IsSafe(h)
  {
    if Matched(c) {
      var h := Reference(c);
      var d := NatToString(c as int, 10);
      ReferenceShape(c);
      DigitsSemicolon(d, []);
      assert h[2..] == d + ";" + [];
      assert h[0..] == h;
    }
  }

  /** Safe text followed by safe text is safe. */
  lemma SafeAppend(h: string, r: string)
    requires IsSafe(h) && IsSafe(r)
    ensures IsSafe(h + r)
  {
    var e := h + r;
    forall i | 0 <= i < |e|
      ensures (Matched(e[i]) ==> e[i] == '&') && (e[i] == '&' ==> StartsReference(e[i..]))
    {
      if i < |h| {
        assert e[i] == h[i];
        if h[i] == '&' {
          assert e[i..] == h[i..] + r;
          StartsExtend(h[i..], r);
        }
      } else {
        var k := i - |h|;
        assert e[i] == r[k];
        assert e[i..] == r[k..];
      }
    }
  }

  /** Text with no matched character is left exactly as it is. */
  lemma {:induction false} EncodeUnchanged(s: string)
    requires forall i :: 0 <= i < |s| ==> !Matched(s[i])
    ensures EncodeHtmlEntities(s) == s
  {
    if s != [] {
      EncodeUnchanged(s[1..]);
      assert [s[0]] + s[1..] == s;
    }
  }

  /** The encoder works character by character, so it distributes over concatenation:
      everything not matched stays in place and in order. */
  lemma {:induction false} EncodeAppend(a: string, b: string)
    ensures EncodeHtmlEntities(a + b) == EncodeHtmlEntities(a) + EncodeHtmlEntities(b)
  {
    if a == [] {
      assert a + b == b;
    } else {
      assert (a + b)[0] == a[0];
      assert (a + b)[1..] == a[1..] + b;
      EncodeAppend(a[1..], b);
    }
  }

  /** The encoded text is never shorter, in UTF-16 code units, and has the same length
      exactly when no character matched. */
  lemma {:induction false} EncodeLength(s: string)
    ensures Utf16Length(EncodeHtmlEntities(s)) >= Utf16Length(s)
    ensures Utf16Length(EncodeHtmlEntities(s)) == Utf16Length(s) <==>
      forall i :: 0 <= i < |s| ==> !Matched(s[i])
  {
    if s != [] {
      EncodeLength(s[1..]);
      var h := if Matched(s[0]) then Reference(s[0]) else [s[0]];
      Utf16LengthAppend(h, EncodeHtmlEntities(s[1..]));
      assert Utf16Length([s[0]]) == Utf16Width(s[0]);
      if Matched(s[0]) {
        ReferenceShape(s[0]);
        Utf16UnitsBmp(h);
      }
      assert forall i :: 1 <= i < |s| ==> s[i] == s[1..][i - 1];
    }
  }
}
