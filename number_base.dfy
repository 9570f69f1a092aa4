/** The number base converter (pages/tools/number-base-converter.tsx). The input is read
    with `parseInt(input, fromBase)`; NaN is the error "❌ Invalid input for selected
    base"; otherwise the page shows `parsed.toString(toBase).toUpperCase()`, and an
    exception from `toString` is "❌ Conversion error". The selects offer the bases 2, 8,
    10 and 16 only. */
module NumberBase {
  import opened Options
  import opened JsString
  import opened JsNumber

  /** The values of `baseOptions`. */
  predicate IsOfferedBase(b: int) {
    b == 2 || b == 8 || b == 10 || b == 16
  }

  const InvalidText: string := "\U{274C} Invalid input for selected base"
  const ConversionErrorText: string := "\U{274C} Conversion error"

  /** What `handleConvert` shows. `toString` throws a RangeError for a radix outside
      2..36. */
  function Converted(input: string, fromBase: int, toBase: int): string {
    match ParseInt(input, fromBase)
    case None => InvalidText
    case Some(n) =>
      if 2 <= toBase <= 36 then Upper(NumberToString(n, toBase)) else ConversionErrorText
  }

  /** The integer a text shows in a base: a minus sign for a negative number, then the
      upper-case digits of its magnitude without leading zero. */
  predicate IsCanonical(r: string, n: int, radix: nat)
    requires 2 <= radix <= 36
  {
    |r| >= 1 && (r[0] == '-' <==> n < 0) &&
    var d := if n < 0 then r[1..] else r;
    d != [] && IsUpperDigits(d, radix) &&
    DigitsValue(d, radix) == (if n < 0 then -n else n) &&
    (|d| > 1 ==> DigitValue(d[0]) != 0)
  }

  /** Digits of the base, none of them a lower-case letter. */
  predicate IsUpperDigits(d: string, radix: nat) {
    forall i :: 0 <= i < |d| ==> IsDigitIn(d[i], radix) && !('a' <= d[i] <= 'z')
  }

  // ---------------------------------------------------------------------------------
  // Properties

  lemma {:induction false} NatToStringZero(radix: nat)
    requires 2 <= radix <= 36
    ensures NatToString(0, radix) == "0"
  {
  }

  /** Upper-casing digits keeps each digit's value and leaves no lower-case letter. */
  lemma UpperDigits(d: string, radix: nat)
    requires forall i :: 0 <= i < |d| ==> IsDigitIn(d[i], radix)
    ensures |Upper(d)| == |d| && IsUpperDigits(Upper(d), radix)
    ensures DigitsValue(Upper(d), radix) == DigitsValue(d, radix)
    ensures forall i :: 0 <= i < |d| ==> DigitValue(Upper(d)[i]) == DigitValue(d[i])
  {
    UpperKeepsDigits(d, radix);
  }

  /** The upper-case text of a negative number is a minus sign and the upper-case digits
      of its magnitude. */
  lemma UpperSigned(n: int, radix: nat)
    requires 2 <= radix <= 36
    ensures var m: nat := if n < 0 then -n else n;
      Upper(NumberToString(n, radix)) == (if n < 0 then "-" else "") + Upper(NatToString(m, radix))
  {
    var m: nat := if n < 0 then -n else n;
    var sign := if n < 0 then "-" else "";
    assert NumberToString(n, radix) == sign + NatToString(m, radix);
    UpperAppend(sign, NatToString(m, radix));
    assert Upper(sign) == sign;
  }

  lemma CanonicalOf(r: string, u: string, n: int, radix: nat)
    requires 2 <= radix <= 36
    requires r == (if n < 0 then "-" else "") + u
    requires u != [] && IsUpperDigits(u, radix)
    requires DigitsValue(u, radix) == (if n < 0 then -n else n)
    requires |u| > 1 ==> DigitValue(u[0]) != 0
    ensures IsCanonical(r, n, radix)
  {
    if n < 0 {
      assert r[1..] == u;
    } else {
      assert r == u;
      assert IsDigitIn(u[0], radix);
    }
  }

  /** The printed digits in upper case spell the integer in the base. */
  lemma CanonicalResult(n: int, radix: nat)
    requires 2 <= radix <= 36
    ensures IsCanonical(Upper(NumberToString(n, radix)), n, radix)
  {
    var m: nat := if n < 0 then -n else n;
    var d := NatToString(m, radix);
    NatToStringValue(m, radix);
    UpperDigits(d, radix);
    UpperSigned(n, radix);
    if m == 0 {
      NatToStringZero(radix);
    }
    CanonicalOf(Upper(NumberToString(n, radix)), Upper(d), n, radix);
  }

  /** The error text shows exactly when `parseInt` gives NaN, and a base on offer never
      gives the conversion error. */
  lemma ErrorIffNaN(input: string, fromBase: int, toBase: int)
    requires IsOfferedBase(toBase)
    ensures Converted(input, fromBase, toBase) == InvalidText <==> ParseInt(input, fromBase).None?
    ensures Converted(input, fromBase, toBase) != ConversionErrorText
  {
    if ParseInt(input, fromBase).Some? {
      var n := ParseInt(input, fromBase).value;
      CanonicalResult(n, toBase);
      var r := Converted(input, fromBase, toBase);
      var d := if n < 0 then r[1..] else r;
      assert r[0] == '-' || r[0] == d[0];
      assert InvalidText[0] == '\U{274C}' && ConversionErrorText[0] == '\U{274C}';
    }
  }

  /** A result is canonical for the parsed value. */
  lemma ResultCanonical(input: string, fromBase: int, toBase: int)
    requires IsOfferedBase(toBase) && ParseInt(input, fromBase).Some?
    ensures IsCanonical(Converted(input, fromBase, toBase), ParseInt(input, fromBase).value, toBase)
  {
    CanonicalResult(ParseInt(input, fromBase).value, toBase);
  }

  /** Converting from a to b and the result back from b to a gives the canonical form
      of the number in a. */
  lemma RoundTrip(input: string, a: int, b: int)
    requires IsOfferedBase(a) && IsOfferedBase(b) && ParseInt(input, a).Some?
    ensures Converted(Converted(input, a, b), b, a) == Converted(input, a, a)
  {
    ParseIntUpperNumberToString(ParseInt(input, a).value, b);
  }

  /** Leading white space is skipped. */
  lemma {:induction false} LeadingWhiteSpaceAppend(w: string, t: string)
    requires AllWhiteSpace(w) && (t == [] || !IsWhiteSpace(t[0]))
    ensures LeadingWhiteSpace(w + t) == |w|
  {
    if w != [] {
      assert (w + t)[1..] == w[1..] + t;
      LeadingWhiteSpaceAppend(w[1..], t);
    } else {
      assert w + t == t;
    }
  }

  lemma {:induction false} DigitPrefixStops(e: string, rest: string, radix: int)
    requires forall i :: 0 <= i < |e| ==> IsDigitIn(e[i], radix)
    requires rest == [] || !IsDigitIn(rest[0], radix)
    ensures DigitPrefixLength(e + rest, radix) == |e|
  {
    if e != [] {
      assert (e + rest)[1..] == e[1..] + rest;
      DigitPrefixStops(e[1..], rest, radix);
    } else {
      assert e + rest == rest;
    }
  }

  /** The digits are read up to the first character that is not one. */
  lemma MagnitudeOfLeadingDigits(e: string, rest: string, radix: int)
    requires IsOfferedBase(radix)
    requires e != [] && forall i :: 0 <= i < |e| ==> IsDigitIn(e[i], radix)
    requires rest == [] || !IsDigitIn(rest[0], radix)
    requires !(radix == 16 && HasHexPrefix(e + rest))
    ensures ParseMagnitude(e + rest, radix) == Some(DigitsValue(e, radix))
  {
    DigitPrefixStops(e, rest, radix);
    assert (e + rest)[..|e|] == e;
  }

  lemma TrimStartAppend(w: string, t: string)
    requires AllWhiteSpace(w) && (t == [] || !IsWhiteSpace(t[0]))
    ensures TrimStart(w + t) == t
  {
    LeadingWhiteSpaceAppend(w, t);
    assert (w + t)[|w|..] == t;
  }

  lemma SignedLeadingDigits(sign: string, e: string, rest: string, radix: int)
    requires IsOfferedBase(radix) && (sign == "" || sign == "+" || sign == "-")
    requires e != [] && forall i :: 0 <= i < |e| ==> IsDigitIn(e[i], radix)
    requires rest == [] || !IsDigitIn(rest[0], radix)
    requires !(radix == 16 && HasHexPrefix(e + rest))
    ensures ParseSigned(sign + (e + rest), radix) == Some(Signed(sign == "-", DigitsValue(e, radix)))
    ensures !IsWhiteSpace((sign + (e + rest))[0])
  {
    var t := sign + (e + rest);
    DigitIsPlain(e[0], radix);
    assert t[0] == (if sign == "" then e[0] else sign[0]);
    assert AfterSign(t) == e + rest by {
      if sign != "" { assert t[1..] == e + rest; }
    }
    MagnitudeOfLeadingDigits(e, rest, radix);
  }

  /** `parseInt` skips white space, reads one optional "+" or "-" sign and the longest run
      of digits of the base, and ignores what follows. */
  lemma ParseReadsLeadingDigits(w: string, sign: string, e: string, rest: string, radix: int)
    requires IsOfferedBase(radix) && AllWhiteSpace(w) && (sign == "" || sign == "+" || sign == "-")
    requires e != [] && forall i :: 0 <= i < |e| ==> IsDigitIn(e[i], radix)
    requires rest == [] || !IsDigitIn(rest[0], radix)
    requires !(radix == 16 && HasHexPrefix(e + rest))
    ensures ParseInt(w + (sign + (e + rest)), radix) == Some(Signed(sign == "-", DigitsValue(e, radix)))
  {
    var t := sign + (e + rest);
    SignedLeadingDigits(sign, e, rest, radix);
    TrimStartAppend(w, t);
  }

  // ---------------------------------------------------------------------------------
  // The page

  /** The page state: the input, the two selected bases and the result line. */
  class Page {
    var inputValue: string
    var fromBase: int
    var toBase: int
    var result: string

    /** Both selects hold one of the offered bases. */
    predicate Valid()
      reads this
    {
      IsOfferedBase(fromBase) && IsOfferedBase(toBase)
    }

    constructor()
      ensures Valid()
      ensures inputValue == "" && fromBase == 10 && toBase == 2 && result == ""
    {
      inputValue, fromBase, toBase, result := "", 10, 2, "";
    }

    /** The "From Base" select. */
    method SelectFromBase(b: int)
      requires Valid() && IsOfferedBase(b)
      modifies this
      ensures Valid()
      ensures fromBase == b && toBase == old(toBase)
      ensures inputValue == old(inputValue) && result == old(result)
    {
      fromBase := b;
    }

    /** The "To Base" select. */
    method SelectToBase(b: int)
      requires Valid() && IsOfferedBase(b)
      modifies this
      ensures Valid()
      ensures toBase == b && fromBase == old(fromBase)
      ensures inputValue == old(inputValue) && result == old(result)
    {
      toBase := b;
    }

    /** `handleConvert`: the bases are kept, so `Valid()` is too, and since both bases
        are offered the conversion error never shows. */
    method Convert()
      requires Valid()
      modifies this
      ensures Valid()
      ensures result != ConversionErrorText
      ensures inputValue == old(inputValue) && fromBase == old(fromBase) && toBase == old(toBase)
      ensures result == Converted(inputValue, fromBase, toBase)
    {
      ErrorIffNaN(inputValue, fromBase, toBase);
      var parsed := ParseInt(inputValue, fromBase);
      if parsed.None? {
        result := InvalidText;
        return;
      }
      if !(2 <= toBase <= 36) {
        // The `catch` that sets `ConversionErrorText`: `toString` throws only for a radix
        // outside 2..36, and no offered base is.
        assert false;
      }
      result := Upper(NumberToString(parsed.value, toBase));
    }

    /** `handleReset`. */
    method Reset()
      modifies this
      ensures Valid()
      ensures inputValue == "" && fromBase == 10 && toBase == 2 && result == ""
    {
      inputValue, fromBase, toBase, result := "", 10, 2, "";
    }
  }
}
