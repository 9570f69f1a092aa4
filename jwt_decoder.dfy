/** The JWT decoder page (pages/tools/jwt-decoder.tsx). The token is split on "."; unless
    there are exactly three parts the page reports "Invalid JWT format". The first part
    is decoded as the header and the second as the payload; the third, the signature, is
    never looked at. Each of the two is turned from Base64 into a binary string (one
    character per byte) and given to `JSON.parse`, and the page shows the result of
    `JSON.stringify(value, null, 2)`. Any exception clears both panes and shows its
    message, or "Error decoding JWT" when the message is empty.

    `JSON.parse`, `JSON.stringify` and the message of the error `atob` throws are
    parameters. The page decodes the segments with `atob`, which knows only the standard
    alphabet, while a JWT writes them in the URL-safe alphabet. The page model decodes
    with `atob` (`SegmentBytesAsWritten`); `SegmentBytes` is the URL-safe decoder the page
    evidently needs, and `SegmentRoundTrip` is proved about it. */
module JwtDecoder {
  import opened JsString
  import opened Options
  import opened Json
  import Utf8
  import Base64

  /** The outcome of a step that can throw, with the exception's message. */
  datatype Outcome<T> = Ok(value: T) | Failed(message: string)

  const FormatError: string := "Invalid JWT format"
  const FallbackError: string := "Error decoding JWT"

  /** `e.message || "Error decoding JWT"`. */
  function ErrorText(message: string): (t: string)
    ensures t != ""
    ensures message != "" ==> t == message
  {
    if message == "" then FallbackError else message
  }

  /** A binary string: one character per byte. */
  function Latin1(bs: seq<Utf8.byte>): (s: string)
    ensures |s| == |bs| && forall i :: 0 <= i < |bs| ==> s[i] as int == bs[i]
  {
    seq(|bs|, i requires 0 <= i < |bs| => bs[i] as char)
  }

  // ---------------------------------------------------------------------------------
  // Segment decoding

  /** `atob(segment)`, as the page decodes a segment. */
  function SegmentBytesAsWritten(segment: string): Option<seq<Utf8.byte>> {
    Base64.Decode(segment)
  }

  /** The URL-safe alphabet of section 5 of RFC 4648 written back in the standard one. */
  function FromUrlAlphabet(s: string): string {
    if s == [] then []
    else [if s[0] == '-' then '+' else if s[0] == '_' then '/' else s[0]] + FromUrlAlphabet(s[1..])
  }

  /** The standard alphabet written in the URL-safe one. */
  function ToUrlAlphabet(s: string): string {
    if s == [] then []
    else [if s[0] == '+' then '-' else if s[0] == '/' then '_' else s[0]] + ToUrlAlphabet(s[1..])
  }

  /** A segment decoded as section 2 of RFC 7515 writes it: Base64 in the URL-safe
      alphabet, without padding. */
  function SegmentBytes(segment: string): Option<seq<Utf8.byte>> {
    Base64.Decode(FromUrlAlphabet(segment))
  }

  /** How section 2 of RFC 7515 writes bytes as a segment. */
  function UrlEncode(bs: seq<Utf8.byte>): string {
    ToUrlAlphabet(Base64.EncodeGroups(bs))
  }

  /** The page's decoder rejects every segment that uses one of the two characters the
      URL-safe alphabet has in place of "+" and "/". */
  lemma {:induction false} UrlCharacterRejectedAsWritten(segment: string, i: nat)
    requires i < |segment| && (segment[i] == '-' || segment[i] == '_')
    ensures SegmentBytesAsWritten(segment) == None
  {
    Base64.DecodeRejects(segment, i);
  }

  /** The bytes 0xFB 0xFF are written "-_8" in a token: the page cannot read them, the
      URL-safe decoder can. */
  lemma UrlSegmentExample()
    ensures SegmentBytesAsWritten(UrlEncode([0xFB, 0xFF])) == None
    ensures SegmentBytes(UrlEncode([0xFB, 0xFF])) == Some([0xFB, 0xFF])
  {
    var g := Base64.EncodeGroups([0xFB, 0xFF]);
    assert g == "+/8";
    assert UrlEncode([0xFB, 0xFF]) == "-_8";
    UrlCharacterRejectedAsWritten("-_8", 0);
    SegmentRoundTrip([0xFB, 0xFF]);
  }

  lemma StandardHasNoUrlCharacter(g: string)
    requires forall i :: 0 <= i < |g| ==> Base64.InAlphabet(g[i])
    ensures '-' !in g && '_' !in g
  {
  }

  lemma {:induction false} UrlAlphabetRoundTrip(s: string)
    requires '-' !in s && '_' !in s
    ensures FromUrlAlphabet(ToUrlAlphabet(s)) == s
  {
    if s != [] {
      UrlAlphabetRoundTrip(s[1..]);
      assert [s[0]] + s[1..] == s;
    }
  }

  /** Every byte sequence written as a segment is read back by the URL-safe decoder. */
  lemma SegmentRoundTrip(bs: seq<Utf8.byte>)
    ensures SegmentBytes(UrlEncode(bs)) == Some(bs)
  {
    var g := Base64.EncodeGroups(bs);
    Base64.EncodeGroupsUnpadded(bs);
    StandardHasNoUrlCharacter(g);
    UrlAlphabetRoundTrip(g);
    Base64.DecodeUnpadded(g);
    Base64.DecodeGroupsEncodeGroups(bs);
  }

  // ---------------------------------------------------------------------------------
  // The decode step

  /** `JSON.parse` of a decoded segment; a segment that does not decode is the error
      `atob` throws. */
  function ParseSegment(segment: string, parse: string -> Outcome<Json>, atobMessage: string): Outcome<Json> {
    match SegmentBytesAsWritten(segment)
    case None => Failed(atobMessage)
    case Some(bs) => parse(Latin1(bs))
  }

  /** The header and payload of the first two segments; the first failure wins. */
  function DecodeSegments(header: string, payload: string, parse: string -> Outcome<Json>, atobMessage: string):
    Outcome<(Json, Json)>
  {
    if SegmentBytesAsWritten(header).None? then Failed(atobMessage)
    else if SegmentBytesAsWritten(payload).None? then Failed(atobMessage)
    else match parse(Latin1(SegmentBytesAsWritten(header).value))
      case Failed(m) => Failed(m)
      case Ok(h) =>
        match parse(Latin1(SegmentBytesAsWritten(payload).value))
        case Failed(m) => Failed(m)
        case Ok(p) => Ok((h, p))
  }

  /** The `try` block of `decodeJwt`. */
  function Decode(jwt: string, parse: string -> Outcome<Json>, atobMessage: string): Outcome<(Json, Json)> {
    var parts := SplitOn(jwt, '.');
    if |parts| != 3 then Failed(FormatError)
    else DecodeSegments(parts[0], parts[1], parse, atobMessage)
  }

  /** A token without exactly two dots is the format error, whatever its parts hold. */
  lemma FormatChecked(jwt: string, parse: string -> Outcome<Json>, atobMessage: string)
    ensures Occurrences(jwt, '.') != 2 <==> |SplitOn(jwt, '.')| != 3
    ensures Occurrences(jwt, '.') != 2 ==> Decode(jwt, parse, atobMessage) == Failed(FormatError)
  {
    SplitOnPieces(jwt, '.');
  }

  /** Only the first two segments are read: the signature can be anything. */
  lemma SignatureIgnored(header: string, payload: string, signature: string,
                         parse: string -> Outcome<Json>, atobMessage: string)
    requires '.' !in header && '.' !in payload && '.' !in signature
    ensures Decode(Join([header, payload, signature], "."), parse, atobMessage) ==
            DecodeSegments(header, payload, parse, atobMessage)
  {
    var parts := [header, payload, signature];
    SplitOnJoin(parts, '.');
  }

  /** On success the header is the value `JSON.parse` reads from the first segment and the
      payload the value it reads from the second. */
  lemma SuccessReadsSegments(header: string, payload: string, parse: string -> Outcome<Json>,
                             atobMessage: string, h: Json, p: Json)
    requires DecodeSegments(header, payload, parse, atobMessage) == Ok((h, p))
    ensures ParseSegment(header, parse, atobMessage) == Ok(h)
    ensures ParseSegment(payload, parse, atobMessage) == Ok(p)
  {
  }

  /** A failure is the first failing step's error, in the order: header bytes, payload
      bytes, header text, payload text. */
  lemma FirstFailureWins(header: string, payload: string, parse: string -> Outcome<Json>, atobMessage: string)
    ensures ParseSegment(header, parse, atobMessage).Failed? ==>
      DecodeSegments(header, payload, parse, atobMessage) ==
        Failed(if SegmentBytesAsWritten(payload).None? then atobMessage else ParseSegment(header, parse, atobMessage).message)
    ensures ParseSegment(header, parse, atobMessage).Ok? && ParseSegment(payload, parse, atobMessage).Failed? ==>
      DecodeSegments(header, payload, parse, atobMessage) == Failed(ParseSegment(payload, parse, atobMessage).message)
  {
  }

  /** A header segment that uses a URL-safe character makes the page report the error of
      `atob`, whatever the payload. */
  lemma UrlHeaderRejected(header: string, payload: string, parse: string -> Outcome<Json>,
                          atobMessage: string, i: nat)
    requires i < |header| && (header[i] == '-' || header[i] == '_')
    ensures DecodeSegments(header, payload, parse, atobMessage) == Failed(atobMessage)
  {
    UrlCharacterRejectedAsWritten(header, i);
  }

  /** So does a payload segment that uses one. */
  lemma UrlPayloadRejected(header: string, payload: string, parse: string -> Outcome<Json>,
                           atobMessage: string, i: nat)
    requires i < |payload| && (payload[i] == '-' || payload[i] == '_')
    ensures DecodeSegments(header, payload, parse, atobMessage) == Failed(atobMessage)
  {
    UrlCharacterRejectedAsWritten(payload, i);
  }

  // ---------------------------------------------------------------------------------
  // The page

  /** The token of `handleLoadExampleJwt`. */
  const ExampleJwt: string :=
    "eyJhbGciOiJIUzI1NiIsInR5cCI6IkpXVCJ9." +
    "eyJ1c2VySWQiOiIxMjM0NTYiLCJ1c2VybmFtZSI6InRlc3RVc2VyIiwiZXhwIjoxNjg3NzY4MDB9." +
    "SflKxwRJSMeKKF2QT4fwpMeJf36POk6yJV_adQssw5c"

  /** The page state: the token, the two panes and the error line. */
  class Page {
    var jwt: string
    var header: string
    var payload: string
    var error: string

    constructor()
      ensures jwt == "" && header == "" && payload == "" && error == ""
    {
      jwt, header, payload, error := "", "", "", "";
    }

    /** The `catch` block. */
    method Fail(message: string)
      modifies this
      ensures jwt == old(jwt)
      ensures error == ErrorText(message) && header == "" && payload == ""
    {
      error := ErrorText(message);
      header := "";
      payload := "";
    }

    /** `decodeJwt`. */
    method DecodeJwt(parse: string -> Outcome<Json>, stringify: Json -> string, atobMessage: string)
      modifies this
      ensures jwt == old(jwt)
      ensures match Decode(jwt, parse, atobMessage)
        case Ok((h, p)) => header == stringify(h) && payload == stringify(p) && error == ""
        case Failed(m) => error == ErrorText(m) && header == "" && payload == ""
      ensures error == "" <==> Decode(jwt, parse, atobMessage).Ok?
    {
      var parts := SplitOn(jwt, '.');
      if |parts| != 3 {
        Fail(FormatError);
        return;
      }
      var headerBytes := SegmentBytesAsWritten(parts[0]);
      if headerBytes.None? {
        Fail(atobMessage);
        return;
      }
      var payloadBytes := SegmentBytesAsWritten(parts[1]);
      if payloadBytes.None? {
        Fail(atobMessage);
        return;
      }
      var h := parse(Latin1(headerBytes.value));
      if h.Failed? {
        Fail(h.message);
        return;
      }
      header := stringify(h.value);
      var p := parse(Latin1(payloadBytes.value));
      if p.Failed? {
        Fail(p.message);
        return;
      }
      payload := stringify(p.value);
      error := "";
    }

    /** `reset`. */
    method Reset()
      modifies this
      ensures jwt == "" && header == "" && payload == "" && error == ""
    {
      jwt, header, payload, error := "", "", "", "";
    }

    /** `handleLoadExampleJwt`: the panes are left as they are. */
    method LoadExample()
      modifies this
      ensures jwt == ExampleJwt
      ensures header == old(header) && payload == old(payload) && error == old(error)
    {
      jwt := ExampleJwt;
    }
  }
}
