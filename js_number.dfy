/** `parseInt(string, radix)` (section 19.2.5 of ECMA-262) and
    `Number.prototype.toString(radix)` (section 21.1.3.6 of ECMA-262) on integers.
    Integers are unbounded here: the rounding of large values to a double is not modelled. */
module JsNumber {
  import opened JsString
  import opened Options

  /** The value of a digit character in radices up to 36, case-insensitively;
      36 for a character that is a digit in no radix. */
  function DigitValue(c: char): (v: nat)
    ensures v <= 36
  {
    if '0' <= c <= '9' then c as int - '0' as int
    else if 'a' <= c <= 'z' then c as int - 'a' as int + 10
    else if 'A' <= c <= 'Z' then c as int - 'A' as int + 10
    else 36
  }

  /** The lower-case digit `toString` writes for a value below 36. */
  function DigitChar(d: nat): (c: char)
    requires d < 36
    ensures DigitValue(c) == d
  {
    if d < 10 then ('0' as int + d) as char else ('a' as int + d - 10) as char
  }

  predicate IsDigitIn(c: char, radix: int) {
    DigitValue(c) < radix
  }

  /** The length of the longest prefix of `s` made of digits of `radix`. */
  function DigitPrefixLength(s: string, radix: int): (n: nat)
    ensures n <= |s|
    ensures forall i :: 0 <= i < n ==> IsDigitIn(s[i], radix)
    ensures n == |s| || !IsDigitIn(s[n], radix)
  {
    if s != [] && IsDigitIn(s[0], radix) then 1 + DigitPrefixLength(s[1..], radix) else 0
  }

  /** The value of a digit string, most significant digit first. */
  function DigitsValue(s: string, radix: nat): nat
    requires forall i :: 0 <= i < |s| ==> IsDigitIn(s[i], radix)
  {
    if s == [] then 0
    else
      ProductNat(DigitsValue(s[..|s| - 1], radix), radix);
      DigitsValue(s[..|s| - 1], radix) * radix + DigitValue(s[|s| - 1])
  }

  lemma ProductNat(a: nat, b: nat)
    ensures a * b >= 0
  {
  }

  /** The value of the longest prefix of digits of `radix`; `None` when there is none. */
  function LeadingDigits(v: string, radix: nat): Option<nat> {
    var n := DigitPrefixLength(v, radix);
    if n == 0 then None else Some(DigitsValue(v[..n], radix))
  }

  function Signed(negative: bool, m: nat): int {
    if negative then -(m as int) else m
  }

  /** The text after one optional sign character. */
  function AfterSign(t: string): string {
    if t != [] && (t[0] == '+' || t[0] == '-') then t[1..] else t
  }

  predicate HasHexPrefix(u: string) {
    |u| >= 2 && u[0] == '0' && (u[1] == 'x' || u[1] == 'X')
  }

  /** `parseInt(s, radix)`: `None` stands for NaN. Leading white space is skipped, then
      one optional sign; radix 0 means 10; radix 16 (or 0) also drops a "0x" or "0X"
      prefix; the longest prefix of digits is read and anything after it is ignored. */
  function ParseInt(s: string, radix: int): Option<int> {
    ParseSigned(TrimStart(s), radix)
  }

  function ParseSigned(t: string, radix: int): Option<int> {
    match ParseMagnitude(AfterSign(t), radix)
    case None => None
    case Some(m) => Some(Signed(t != [] && t[0] == '-', m))
  }

  function ParseMagnitude(u: string, radix: int): Option<nat> {
    var r := if radix == 0 then 10 else radix;
    if r < 2 || r > 36 then None
    else if (radix == 0 || radix == 16) && HasHexPrefix(u) then LeadingDigits(u[2..], 16)
    else LeadingDigits(u, r)
  }

  /** The digits of a natural number in `radix`, lower case. */
  function NatToString(n: nat, radix: nat): (s: string)
    requires 2 <= radix <= 36
    ensures |s| >= 1 && (forall i :: 0 <= i < |s| ==> IsDigitIn(s[i], radix))
  {
    if n < radix then [DigitChar(n)]
    else
      DivLess(n, radix);
      NatToString(n / radix, radix) + [DigitChar(n % radix)]
  }

  /** The digits denote the number, and there is no leading zero. */
  lemma NatToStringValue(n: nat, radix: nat)
    requires 2 <= radix <= 36
    ensures DigitsValue(NatToString(n, radix), radix) == n
    ensures n > 0 ==> DigitValue(NatToString(n, radix)[0]) != 0
  {
    NatToStringDigits(n, radix);
    if n > 0 {
      NatToStringLead(n, radix);
    }
  }

  lemma {:induction false} NatToStringDigits(n: nat, radix: nat)
    requires 2 <= radix <= 36
    ensures DigitsValue(NatToString(n, radix), radix) == n
  {
    if n >= radix {
      DivLess(n, radix);
      NatToStringDigits(n / radix, radix);
      NatToStringStep(n, radix);
      DivMod(n, radix);
    }
  }

  lemma {:induction false} NatToStringLead(n: nat, radix: nat)
    requires 2 <= radix <= 36 && n > 0
    ensures DigitValue(NatToString(n, radix)[0]) != 0
  {
    if n >= radix {
      DivMod(n, radix);
      DivLess(n, radix);
      NatToStringLead(n / radix, radix);
      NatToStringStep(n, radix);
    }
  }

  /** The digits of `n` are those of `n / radix` and then the digit of `n % radix`. */
  lemma NatToStringStep(n: nat, radix: nat)
    requires 2 <= radix <= 36 && n >= radix
    ensures DigitsValue(NatToString(n, radix), radix) ==
      DigitsValue(NatToString(n / radix, radix), radix) * radix + n % radix
    ensures NatToString(n, radix)[0] == NatToString(n / radix, radix)[0]
  {
    var d := NatToString(n / radix, radix);
    AppendDigit(d, DigitChar(n % radix), radix);
    assert NatToString(n, radix) == d + [DigitChar(n % radix)];
  }

  lemma AppendDigit(d: string, c: char, radix: nat)
    requires forall i :: 0 <= i < |d| ==> IsDigitIn(d[i], radix)
    requires IsDigitIn(c, radix)
    ensures forall i :: 0 <= i < |d + [c]| ==> IsDigitIn((d + [c])[i], radix)
    ensures DigitsValue(d + [c], radix) == DigitsValue(d, radix) * radix + DigitValue(c)
  {
    assert (d + [c])[..|d|] == d;
  }

  /** Dividing by a radix shrinks every number at least as large as the radix. */
  lemma DivLess(n: nat, d: nat)
    requires 2 <= d <= n
    ensures 1 <= n / d < n
  {
    var q := n / d;
    DivMod(n, d);
    ProductNat(q, d - 2);
    assert q * d == q * 2 + q * (d - 2);
  }

  lemma DivMod(n: nat, d: nat)
    requires d > 0
    ensures (n / d) * d + n % d == n && 0 <= n % d < d
    ensures n >= d ==> n / d >= 1
  {
  }

  /** `n.toString(radix)` for an integer `n`: "-" before the digits of a negative number. */
  function NumberToString(n: int, radix: nat): string
    requires 2 <= radix <= 36
  {
    if n < 0 then "-" + NatToString(-n, radix) else NatToString(n, radix)
  }

  lemma UpperKeepsDigits(s: string, radix: nat)
    requires forall i :: 0 <= i < |s| ==> IsDigitIn(s[i], radix)
    ensures forall i :: 0 <= i < |Upper(s)| ==> IsDigitIn(Upper(s)[i], radix)
    ensures DigitsValue(Upper(s), radix) == DigitsValue(s, radix)
  {
    if s != [] {
      var p := s[..|s| - 1];
      UpperKeepsDigits(p, radix);
      assert Upper(s)[..|s| - 1] == Upper(p);
    }
  }

  /** Printing an integer in a radix and parsing it back in the same radix gives the
      integer again. */
  lemma {:induction false} ParseIntNumberToString(n: int, radix: nat)
    requires 2 <= radix <= 36
    ensures ParseInt(NumberToString(n, radix), radix) == Some(n)
  {
    var m: nat := if n < 0 then -n else n;
    NatToStringValue(m, radix);
    ParseIntOfDigits(n < 0, NatToString(m, radix), radix);
  }

  /** The same holds after upper-casing the printed digits, since digits are read
      case-insensitively. */
  lemma {:induction false} ParseIntUpperNumberToString(n: int, radix: nat)
    requires 2 <= radix <= 36
    ensures ParseInt(Upper(NumberToString(n, radix)), radix) == Some(n)
  {
    var m: nat := if n < 0 then -n else n;
    var d := NatToString(m, radix);
    NatToStringValue(m, radix);
    UpperKeepsDigits(d, radix);
    var sign := if n < 0 then "-" else "";
    assert NumberToString(n, radix) == sign + d;
    UpperAppend(sign, d);
    assert Upper(sign) == sign;
    assert Upper(NumberToString(n, radix)) == sign + Upper(d);
    ParseIntOfDigits(n < 0, Upper(d), radix);
    assert Signed(n < 0, DigitsValue(Upper(d), radix)) == n;
  }

  lemma UpperAppend(a: string, b: string)
    ensures Upper(a + b) == Upper(a) + Upper(b)
  {
  }

  /** A digit string with an optional minus sign parses to its value. */
  lemma ParseIntOfDigits(negative: bool, e: string, radix: nat)
    requires 2 <= radix <= 36 && e != []
    requires forall i :: 0 <= i < |e| ==> IsDigitIn(e[i], radix)
    ensures ParseInt((if negative then "-" else "") + e, radix) == Some(Signed(negative, DigitsValue(e, radix)))
  {
    var s := (if negative then "-" else "") + e;
    DigitIsPlain(e[0], radix);
    assert s[0] == (if negative then '-' else e[0]);
    assert TrimStart(s) == s;
    assert AfterSign(s) == e by {
      if negative { assert s[1..] == e; }
    }
    ParseMagnitudeOfDigits(e, radix);
    assert ParseSigned(s, radix) == Some(Signed(negative, DigitsValue(e, radix)));
  }

  lemma ParseMagnitudeOfDigits(e: string, radix: nat)
    requires 2 <= radix <= 36 && e != []
    requires forall i :: 0 <= i < |e| ==> IsDigitIn(e[i], radix)
    ensures ParseMagnitude(e, radix) == Some(DigitsValue(e, radix))
  {
    assert radix == 16 ==> !HasHexPrefix(e) by {
      if |e| >= 2 { DigitIsPlain(e[1], radix); }
    }
    DigitPrefixAll(e, radix);
    assert e[..|e|] == e;
  }

  lemma DigitIsPlain(c: char, radix: nat)
    requires radix <= 36 && IsDigitIn(c, radix)
    ensures !IsWhiteSpace(c) && c != '-' && c != '+'
    ensures radix <= 16 ==> c != 'x' && c != 'X'
  {
  }

  lemma {:induction false} DigitPrefixAll(s: string, radix: int)
    requires forall i :: 0 <= i < |s| ==> IsDigitIn(s[i], radix)
    ensures DigitPrefixLength(s, radix) == |s|
  {
    if s != [] {
      DigitPrefixAll(s[1..], radix);
    }
  }
}
