/** The Base64 page (pages/tools/base64-encoder-decoder.tsx). Encoding is
    `btoa(unescape(encodeURIComponent(input)))` and decoding is
    `decodeURIComponent(escape(atob(input)))`; an exception from any step becomes the
    error "⚠️ Invalid input for Base64 " followed by the mode, with the output cleared.
    Composed this way, the page encodes the UTF-8 bytes of the text in Base64 and decodes
    Base64 to bytes that must be UTF-8. */
module Base64Tool {
  import opened Options
  import opened JsString
  import Utf8
  import Base64
  import UriCodec

  datatype Mode = EncodeMode | DecodeMode

  function ModeName(mode: Mode): string {
    if mode == EncodeMode then "encode" else "decode"
  }

  /** The error text for a mode. */
  function ErrorText(mode: Mode): string {
    "\U{26A0}\U{FE0F} Invalid input for Base64 " + ModeName(mode)
  }

  /** Code units below 256 read as bytes. */
  function Narrow(units: seq<CodeUnit>): (bs: seq<Utf8.byte>)
    requires forall i :: 0 <= i < |units| ==> units[i] < 256
    ensures |bs| == |units| && forall i :: 0 <= i < |units| ==> bs[i] == units[i]
  {
    seq(|units|, i requires 0 <= i < |units| => units[i] as Utf8.byte)
  }

  /** `btoa`: a code unit above U+00FF is the InvalidCharacterError (`None`). */
  function Btoa(units: seq<CodeUnit>): Option<string> {
    if forall i :: 0 <= i < |units| ==> units[i] < 256 then Some(Base64.Encode(Narrow(units)))
    else None
  }

  /** The `try` block of `handleConvert`; `None` stands for an exception. */
  function Convert(mode: Mode, input: string): Option<string> {
    match mode
    case EncodeMode => Btoa(UriCodec.Unescape(UriCodec.EncodeURIComponent(input)))
    case DecodeMode =>
      match Base64.Decode(input)
      case None => None
      case Some(bs) => UriCodec.DecodeURIComponent(UriCodec.Escape(bs))
  }

  /** `handleConvert`: the new output and error. */
  function HandleConvert(mode: Mode, input: string): (r: (string, string))
    ensures r.1 == "" || r == ("", ErrorText(mode))
    ensures r.1 == "" <==> Convert(mode, input).Some?
    ensures Convert(mode, input).Some? ==> r == (Convert(mode, input).value, "")
  {
    match Convert(mode, input)
    case Some(out) => (out, "")
    case None => ("", ErrorText(mode))
  }

  // ---------------------------------------------------------------------------------

  /** Encoding is Base64 of the UTF-8 bytes of the text, and cannot fail. */
  lemma EncodeIsBase64OfUtf8(input: string)
    ensures Convert(EncodeMode, input) == Some(Base64.Encode(Utf8.Encode(input)))
    ensures HandleConvert(EncodeMode, input) == (Base64.Encode(Utf8.Encode(input)), "")
  {
    var bs := Utf8.Encode(input);
    UriCodec.UnescapeEncodeURIComponent(input);
    assert Narrow(UriCodec.Widen(bs)) == bs;
  }

  /** Decoding is Base64 decoding followed by UTF-8 decoding; it fails exactly when either
      step fails. */
  lemma DecodeIsUtf8OfBase64(input: string)
    ensures Convert(DecodeMode, input) ==
      match Base64.Decode(input)
      case None => None
      case Some(bs) => Utf8.Decode(bs)
  {
    if Base64.Decode(input).Some? {
      UriCodec.DecodeURIComponentEscape(Base64.Decode(input).value);
    }
  }

  /** Decoding the encoded text gives the text back, without error. */
  lemma RoundTrip(input: string)
    ensures HandleConvert(DecodeMode, HandleConvert(EncodeMode, input).0) == (input, "")
  {
    var bs := Utf8.Encode(input);
    EncodeIsBase64OfUtf8(input);
    Base64.DecodeEncode(bs);
    DecodeIsUtf8OfBase64(Base64.Encode(bs));
    Utf8.DecodeEncode(input);
  }

  /** The encoded text has 4 * ceil(n / 3) characters for n UTF-8 bytes, all of the
      alphabet A-Z a-z 0-9 + / except a final "=" or "==". */
  lemma EncodedShape(input: string)
    ensures var out := HandleConvert(EncodeMode, input).0;
      |out| == 4 * ((|Utf8.Encode(input)| + 2) / 3) &&
      forall i :: 0 <= i < |out| ==> Base64.InAlphabet(out[i]) || (out[i] == '=' && i >= |out| - 2)
  {
    EncodeIsBase64OfUtf8(input);
    Base64.EncodeShape(Utf8.Encode(input));
  }

  /** A decode error clears the output and names the mode. */
  lemma DecodeError(input: string)
    ensures HandleConvert(DecodeMode, input) == ("", ErrorText(DecodeMode)) <==>
      (Base64.Decode(input).None? || Utf8.Decode(Base64.Decode(input).value).None?)
  {
    DecodeIsUtf8OfBase64(input);
  }
}
