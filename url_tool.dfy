/** The URL encoder page (pages/tools/url-encoder-decoder.tsx). Encoding applies
    `encodeURIComponent` to the input, decoding applies `decodeURIComponent`, and an
    exception during decoding puts "❌ Invalid input for decoding." in the output. The
    toggle flips between the two modes and clears the output. */
module UrlTool {
  import opened Options
  import opened JsString
  import Utf8
  import opened UriCodec

  datatype Mode = EncodeMode | DecodeMode

  function Toggled(mode: Mode): Mode {
    if mode == EncodeMode then DecodeMode else EncodeMode
  }

  /** The output text of a failed decode. */
  const InvalidText: string := "\U{274C} Invalid input for decoding."

  /** What `handleConvert` writes into the output. */
  function Converted(mode: Mode, input: string): string {
    match mode
    case EncodeMode => EncodeURIComponent(input)
    case DecodeMode =>
      match DecodeURIComponent(input)
      case Some(s) => s
      case None => InvalidText
  }

  /** The text `handleExample` loads for a mode. */
  function ExampleText(mode: Mode): string {
    if mode == EncodeMode then "Hello world! Encode this URL safely."
    else "Hello%20world!%20Encode%20this%20URL%20safely."
  }

  // ---------------------------------------------------------------------------------
  // Properties of the conversion

  /** Decoding the encoded text gives the text back. */
  lemma RoundTrip(s: string)
    ensures Converted(DecodeMode, Converted(EncodeMode, s)) == s
  {
    DecodeURIComponentEncode(s);
  }

  /** Each unreserved character is one character of the output, and each other character
      is at least one three-character escape, so the output is never shorter than the
      input and has the same length exactly when every character is unreserved. */
  lemma {:induction false} EncodeLength(s: string)
    ensures |EncodeURIComponent(s)| >= |s|
    ensures |EncodeURIComponent(s)| == |s| <==> forall i :: 0 <= i < |s| ==> IsUnreserved(s[i])
  {
    if s != [] {
      EncodeLength(s[1..]);
      if !IsUnreserved(s[0]) {
        var bs := Utf8.EncodeChar(s[0]);
        assert PercentBytes(bs) == PercentByte(bs[0]) + PercentBytes(bs[1..]);
      }
      assert forall i :: 1 <= i < |s| ==> s[i] == s[1..][i - 1];
    }
  }

  /** The encoding leaves a text alone exactly when all its characters are unreserved. */
  lemma {:induction false} EncodeUnchanged(s: string)
    ensures EncodeURIComponent(s) == s <==> forall i :: 0 <= i < |s| ==> IsUnreserved(s[i])
  {
    EncodeLength(s);
    if forall i :: 0 <= i < |s| ==> IsUnreserved(s[i]) {
      if s != [] {
        assert forall i :: 0 <= i < |s[1..]| ==> IsUnreserved(s[1..][i]) by {
          assert forall i :: 0 <= i < |s[1..]| ==> s[1..][i] == s[i + 1];
        }
        EncodeUnchanged(s[1..]);
        assert [s[0]] + s[1..] == s;
      }
    }
  }

  /** A text of unreserved characters and spaces is encoded by writing each space as
      "%20". */
  lemma {:induction false} EncodeSpaces(s: string)
    requires forall i :: 0 <= i < |s| ==> IsUnreserved(s[i]) || s[i] == ' '
    ensures EncodeURIComponent(s) == ReplaceAll(s, ' ', "%20")
  {
    if s != [] {
      assert forall i :: 0 <= i < |s[1..]| ==> s[1..][i] == s[i + 1];
      EncodeSpaces(s[1..]);
    }
  }

  /** The output uses only unreserved characters, "%" and hexadecimal digits. */
  lemma EncodeAlphabet(s: string)
    ensures forall i :: 0 <= i < |Converted(EncodeMode, s)| ==>
      var c := Converted(EncodeMode, s)[i]; IsUnreserved(c) || c == '%' || HexValue(c) >= 0
  {
    EncodeURIComponentAlphabet(s);
  }

  /** Every "%" of a text starts an escape with two hexadecimal digits. */
  predicate WellEscaped(s: string) {
    forall i :: 0 <= i < |s| && s[i] == '%' ==> i + 2 < |s| && HexValue(s[i + 1]) >= 0 && HexValue(s[i + 2]) >= 0
  }

  /** The text cuts into tokens exactly when it is well escaped. */
  lemma {:induction false} TokenizeWellEscaped(s: string)
    ensures Tokenize(s).Some? <==> WellEscaped(s)
    decreases |s|
  {
    if s != [] {
      if s[0] == '%' {
        if |s| >= 3 && HexValue(s[1]) >= 0 && HexValue(s[2]) >= 0 {
          var t := s[3..];
          TokenizeWellEscaped(t);
          assert forall i :: 3 <= i < |s| ==> s[i] == t[i - 3];
        }
      } else {
        var t := s[1..];
        TokenizeWellEscaped(t);
        assert forall i :: 1 <= i < |s| ==> s[i] == t[i - 1];
        if WellEscaped(t) {
          forall i | 0 <= i < |s| && s[i] == '%'
            ensures i + 2 < |s| && HexValue(s[i + 1]) >= 0 && HexValue(s[i + 2]) >= 0
          {
            assert t[i - 1] == '%';
          }
        }
      }
    }
  }

  /** A "%" that does not start an escape makes decoding fail, and the output shows the
      error text. */
  lemma MalformedEscape(s: string)
    requires !WellEscaped(s)
    ensures Converted(DecodeMode, s) == InvalidText
  {
    TokenizeWellEscaped(s);
  }

  // ---------------------------------------------------------------------------------
  // The page

  /** The page state: the mode and the two text areas. */
  class Page {
    var mode: Mode
    var input: string
    var output: string

    constructor()
      ensures mode == EncodeMode && input == "" && output == ""
    {
      mode, input, output := EncodeMode, "", "";
    }

    /** `handleToggle`: the other mode, the output cleared, the input kept. */
    method Toggle()
      modifies this
      ensures mode == Toggled(old(mode)) && mode != old(mode)
      ensures input == old(input) && output == ""
    {
      mode := if mode == EncodeMode then DecodeMode else EncodeMode;
      output := "";
    }

    /** `handleConvert`: the output is the converted input; a decode that fails shows
        the error text. */
    method Convert()
      modifies this
      ensures mode == old(mode) && input == old(input)
      ensures output == Converted(mode, input)
      ensures mode == DecodeMode && DecodeURIComponent(input).None? ==> output == InvalidText
    {
      if mode == EncodeMode {
        output := EncodeURIComponent(input);
      } else {
        var r := DecodeURIComponent(input);
        if r.Some? {
          output := r.value;
        } else {
          output := InvalidText;
        }
      }
    }

    /** `handleReset`. */
    method Reset()
      modifies this
      ensures mode == old(mode) && input == "" && output == ""
    {
      input, output := "", "";
    }

    /** `handleExample`: the example for the current mode, with the output cleared. */
    method LoadExample()
      modifies this
      ensures mode == old(mode) && input == ExampleText(mode) && output == ""
    {
      input := ExampleText(mode);
      output := "";
    }
  }

}
