/** The percent-encodings the URL and Base64 pages rely on: `encodeURIComponent` and
    `decodeURIComponent` (sections 19.2.6.4 and 19.2.6.2 of ECMA-262, through the
    Encode and Decode operations of 19.2.6.5 and 19.2.6.6), and the legacy `escape` and
    `unescape` of section B.2.1 of ECMA-262.

    `decodeURIComponent` is written in two phases: the text is cut into tokens (a plain
    character or one `%XX` octet), and the octets are then grouped into UTF-8 sequences.
    Any malformed escape anywhere is an error, as is a malformed sequence; `None` stands
    for the URIError either raises. */
module UriCodec {
  import opened Options
  import opened Utf8
  import opened JsString

  /** The characters `encodeURIComponent` leaves alone: letters, digits and
      - _ . ! ~ * ' ( ). */
  predicate IsUnreserved(c: char) {
    ('A' <= c <= 'Z') || ('a' <= c <= 'z') || ('0' <= c <= '9') ||
    c == '-' || c == '_' || c == '.' || c == '!' || c == '~' || c == '*' || c == '\'' ||
    c == '(' || c == ')'
  }

  /** An upper-case hexadecimal digit. */
  function HexDigit(d: nat): char
    requires d < 16
  {
    if d < 10 then ('0' as int + d) as char else ('A' as int + d - 10) as char
  }

  /** The value of a hexadecimal digit of either case; -1 for any other character. */
  function HexValue(c: char): (v: int)
    ensures -1 <= v < 16
  {
    if '0' <= c <= '9' then c as int - '0' as int
    else if 'A' <= c <= 'F' then c as int - 'A' as int + 10
    else if 'a' <= c <= 'f' then c as int - 'a' as int + 10
    else -1
  }

  lemma HexValueHexDigit(d: nat)
    requires d < 16
    ensures HexValue(HexDigit(d)) == d
  {
  }

  /** `%XX` with two upper-case hexadecimal digits. */
  function PercentByte(b: byte): (s: string)
    ensures |s| == 3
  {
    ['%', HexDigit(b / 16), HexDigit(b % 16)]
  }

  function PercentBytes(bs: seq<byte>): string {
    if bs == [] then [] else PercentByte(bs[0]) + PercentBytes(bs[1..])
  }

  /** `encodeURIComponent`: every character that is not unreserved becomes the `%XX` of
      each byte of its UTF-8 encoding. */
  function EncodeURIComponent(s: string): string {
    if s == [] then []
    else EncodeURIChar(s[0]) + EncodeURIComponent(s[1..])
  }

  function EncodeURIChar(c: char): string {
    if IsUnreserved(c) then [c] else PercentBytes(EncodeChar(c))
  }

  /** One token of a percent-encoded text. */
  datatype Token = Plain(c: char) | Octet(b: byte)

  function Cons<T>(x: T, r: Option<seq<T>>): Option<seq<T>> {
    match r
    case None => None
    case Some(xs) => Some([x] + xs)
  }

  /** Cuts the text into tokens; a `%` that is not followed by two hexadecimal digits is
      an error. */
  function Tokenize(s: string): Option<seq<Token>> {
    if s == [] then Some([])
    else if s[0] == '%' then
      if |s| < 3 || HexValue(s[1]) < 0 || HexValue(s[2]) < 0 then None
      else Cons(Octet(HexValue(s[1]) * 16 + HexValue(s[2])), Tokenize(s[3..]))
    else Cons(Plain(s[0]), Tokenize(s[1..]))
  }

  /** The bytes of a run of octet tokens; `None` when one of them is a plain character. */
  function OctetsOf(ts: seq<Token>): Option<seq<byte>> {
    if ts == [] then Some([])
    else match ts[0]
      case Plain(_) => None
      case Octet(b) => Cons(b, OctetsOf(ts[1..]))
  }

  /** Joins the tokens into text: a plain character stands for itself, and an octet starts
      a UTF-8 sequence whose continuation bytes must be the next octets. */
  function Assemble(ts: seq<Token>): Option<string>
    decreases |ts|
  {
    if ts == [] then Some([])
    else match ts[0]
      case Plain(c) => Cons(c, Assemble(ts[1..]))
      case Octet(b) =>
        var n := SequenceLength(b);
        if n == 0 || |ts| < n then None
        else match OctetsOf(ts[..n])
          case None => None
          case Some(bs) =>
            if !IsSequenceShape(bs) then None
            else match DecodeSequence(bs)
              case None => None
              case Some(c) => Cons(c, Assemble(ts[n..]))
  }

  /** `decodeURIComponent`. */
  function DecodeURIComponent(s: string): Option<string> {
    match Tokenize(s)
    case None => None
    case Some(ts) => Assemble(ts)
  }

  /** The characters `escape` leaves alone: letters, digits and @ * _ + - . / */
  predicate IsEscapeSafe(b: byte) {
    var c := b as char;
    ('A' <= c <= 'Z') || ('a' <= c <= 'z') || ('0' <= c <= '9') ||
    c == '@' || c == '*' || c == '_' || c == '+' || c == '-' || c == '.' || c == '/'
  }

  /** `escape` of a binary string (one whose characters are all below U+0100): every
      character outside the safe set becomes `%XX`. */
  function Escape(bs: seq<byte>): string {
    if bs == [] then []
    else (if IsEscapeSafe(bs[0]) then [bs[0] as char] else PercentByte(bs[0])) + Escape(bs[1..])
  }

  /** `unescape`: `%uXXXX` and `%XX` become the code unit they name; any other character,
      including a `%` that starts neither form, stands for its own code units. */
  function Unescape(s: string): seq<CodeUnit> {
    if s == [] then []
    else if s[0] == '%' && |s| >= 6 && s[1] == 'u' && HexValue(s[2]) >= 0 &&
            HexValue(s[3]) >= 0 && HexValue(s[4]) >= 0 && HexValue(s[5]) >= 0 then
      [((HexValue(s[2]) * 16 + HexValue(s[3])) * 16 + HexValue(s[4])) * 16 + HexValue(s[5])]
      + Unescape(s[6..])
    else if s[0] == '%' && |s| >= 3 && HexValue(s[1]) >= 0 && HexValue(s[2]) >= 0 then
      [HexValue(s[1]) * 16 + HexValue(s[2])] + Unescape(s[3..])
    else Utf16Units([s[0]]) + Unescape(s[1..])
  }

  /** Bytes read as code units. */
  function Widen(bs: seq<byte>): (units: seq<CodeUnit>)
    ensures |units| == |bs| && forall i :: 0 <= i < |bs| ==> units[i] == bs[i]
  {
    seq(|bs|, i requires 0 <= i < |bs| => bs[i] as CodeUnit)
  }

  // ---------------------------------------------------------------------------------
  // encodeURIComponent and decodeURIComponent are inverse

  /** The output is made of unreserved characters and `%XX` escapes only. */
  lemma {:induction false} EncodeURIComponentAlphabet(s: string)
    ensures forall i :: 0 <= i < |EncodeURIComponent(s)| ==>
              IsUnreserved(EncodeURIComponent(s)[i]) || EncodeURIComponent(s)[i] == '%' ||
              HexValue(EncodeURIComponent(s)[i]) >= 0
  {
    if s != [] {
      EncodeURIComponentAlphabet(s[1..]);
      PercentBytesAlphabet(EncodeChar(s[0]));
      var h, t := EncodeURIChar(s[0]), EncodeURIComponent(s[1..]);
      assert forall i :: 0 <= i < |h + t| ==> (h + t)[i] == (if i < |h| then h[i] else t[i - |h|]);
    }
  }

  lemma {:induction false} PercentBytesAlphabet(bs: seq<byte>)
    ensures forall i :: 0 <= i < |PercentBytes(bs)| ==>
              PercentBytes(bs)[i] == '%' || HexValue(PercentBytes(bs)[i]) >= 0
  {
    if bs != [] {
      PercentBytesAlphabet(bs[1..]);
      HexValueHexDigit(bs[0] / 16);
      HexValueHexDigit(bs[0] % 16);
      var h, t := PercentByte(bs[0]), PercentBytes(bs[1..]);
      assert forall i :: 0 <= i < |h + t| ==> (h + t)[i] == (if i < |h| then h[i] else t[i - |h|]);
    }
  }

  /** The tokens of an encoded character. */
  function CharTokens(c: char): seq<Token> {
    if IsUnreserved(c) then [Plain(c)] else OctetTokens(EncodeChar(c))
  }

  function OctetTokens(bs: seq<byte>): (ts: seq<Token>)
    ensures |ts| == |bs| && forall i :: 0 <= i < |bs| ==> ts[i] == Octet(bs[i])
  {
    seq(|bs|, i requires 0 <= i < |bs| => Octet(bs[i]))
  }

  function StringTokens(s: string): seq<Token> {
    if s == [] then [] else CharTokens(s[0]) + StringTokens(s[1..])
  }

  lemma PercentByteTokens(b: byte, rest: string)
    ensures Tokenize(PercentByte(b) + rest) == Cons(Octet(b), Tokenize(rest))
  {
    HexValueHexDigit(b / 16);
    HexValueHexDigit(b % 16);
    assert (PercentByte(b) + rest)[3..] == rest;
  }

  lemma {:induction false} PercentBytesTokens(bs: seq<byte>, rest: string)
    ensures Tokenize(PercentBytes(bs) + rest) ==
            (match Tokenize(rest) case None => None case Some(ts) => Some(OctetTokens(bs) + ts))
  {
    if bs != [] {
      var h, t := PercentByte(bs[0]), PercentBytes(bs[1..]);
      PercentBytesTokens(bs[1..], rest);
      ConcatAssoc(h, t, rest);
      PercentByteTokens(bs[0], t + rest);
      if Tokenize(rest).Some? {
        OctetTokensCons(bs);
        ConcatAssoc([Octet(bs[0])], OctetTokens(bs[1..]), Tokenize(rest).value);
      }
    } else {
      assert PercentBytes(bs) + rest == rest;
      if Tokenize(rest).Some? {
        assert OctetTokens(bs) + Tokenize(rest).value == Tokenize(rest).value;
      }
    }
  }

  lemma OctetTokensCons(bs: seq<byte>)
    requires bs != []
    ensures OctetTokens(bs) == [Octet(bs[0])] + OctetTokens(bs[1..])
  {
  }


  /** The encoded text cuts into the tokens of its characters. */
  lemma {:induction false} TokenizeEncode(s: string)
    ensures Tokenize(EncodeURIComponent(s)) == Some(StringTokens(s))
  {
    if s != [] {
      TokenizeEncode(s[1..]);
      var rest := EncodeURIComponent(s[1..]);
      if IsUnreserved(s[0]) {
        assert ([s[0]] + rest)[1..] == rest;
      } else {
        PercentBytesTokens(EncodeChar(s[0]), rest);
      }
    }
  }

  lemma {:induction false} OctetsOfOctetTokens(bs: seq<byte>)
    ensures OctetsOf(OctetTokens(bs)) == Some(bs)
  {
    if bs != [] {
      OctetsOfOctetTokens(bs[1..]);
      assert OctetTokens(bs)[1..] == OctetTokens(bs[1..]);
      assert [bs[0]] + bs[1..] == bs;
    }
  }

  /** The tokens of an encoded text assemble back into the text. */
  lemma {:induction false} AssembleStringTokens(s: string)
    ensures Assemble(StringTokens(s)) == Some(s)
  {
    if s != [] {
      AssembleStringTokens(s[1..]);
      var h, t := CharTokens(s[0]), StringTokens(s[1..]);
      var ts := h + t;
      assert [s[0]] + s[1..] == s;
      if IsUnreserved(s[0]) {
        assert ts[1..] == t;
      } else {
        var bs := EncodeChar(s[0]);
        DecodeSequenceEncodeChar(s[0]);
        assert ts[0] == Octet(bs[0]);
        assert ts[..|bs|] == h;
        assert ts[|bs|..] == t;
        OctetsOfOctetTokens(bs);
      }
    }
  }

  /** `decodeURIComponent(encodeURIComponent(s))` is `s`. */
  lemma DecodeURIComponentEncode(s: string)
    ensures DecodeURIComponent(EncodeURIComponent(s)) == Some(s)
  {
    TokenizeEncode(s);
    AssembleStringTokens(s);
  }

  // ---------------------------------------------------------------------------------
  // unescape after encodeURIComponent gives the UTF-8 bytes

  lemma PercentByteUnescape(b: byte, rest: string)
    ensures Unescape(PercentByte(b) + rest) == [b as CodeUnit] + Unescape(rest)
  {
    HexValueHexDigit(b / 16);
    HexValueHexDigit(b % 16);
    assert (PercentByte(b) + rest)[3..] == rest;
  }

  lemma {:induction false} PercentBytesUnescape(bs: seq<byte>, rest: string)
    ensures Unescape(PercentBytes(bs) + rest) == Widen(bs) + Unescape(rest)
  {
    if bs != [] {
      var h, t := PercentByte(bs[0]), PercentBytes(bs[1..]);
      PercentBytesUnescape(bs[1..], rest);
      ConcatAssoc(h, t, rest);
      PercentByteUnescape(bs[0], t + rest);
      WidenCons(bs);
      ConcatAssoc([bs[0] as CodeUnit], Widen(bs[1..]), Unescape(rest));
    } else {
      assert PercentBytes(bs) + rest == rest;
      assert Widen(bs) + Unescape(rest) == Unescape(rest);
    }
  }

  lemma WidenCons(bs: seq<byte>)
    requires bs != []
    ensures Widen(bs) == [bs[0] as CodeUnit] + Widen(bs[1..])
  {
  }


  lemma WidenAppend(a: seq<byte>, b: seq<byte>)
    ensures Widen(a + b) == Widen(a) + Widen(b)
  {
  }

  /** `unescape(encodeURIComponent(s))` is the binary string of the UTF-8 bytes of `s`,
      so every one of its code units is below 256. */
  lemma {:induction false} UnescapeEncodeURIComponent(s: string)
    ensures Unescape(EncodeURIComponent(s)) == Widen(Utf8.Encode(s))
  {
    if s != [] {
      UnescapeEncodeURIComponent(s[1..]);
      var rest := EncodeURIComponent(s[1..]);
      WidenAppend(EncodeChar(s[0]), Utf8.Encode(s[1..]));
      if IsUnreserved(s[0]) {
        assert ([s[0]] + rest)[1..] == rest;
        assert Utf16Units([s[0]]) == [s[0] as int];
      } else {
        PercentBytesUnescape(EncodeChar(s[0]), rest);
      }
    }
  }

  // ---------------------------------------------------------------------------------
  // decodeURIComponent after escape is UTF-8 decoding

  /** The tokens of an escaped binary string. */
  function ByteTokens(bs: seq<byte>): (ts: seq<Token>)
    ensures |ts| == |bs|
    ensures forall i :: 0 <= i < |bs| ==>
              ts[i] == if IsEscapeSafe(bs[i]) then Plain(bs[i] as char) else Octet(bs[i])
  {
    seq(|bs|, i requires 0 <= i < |bs| =>
      if IsEscapeSafe(bs[i]) then Plain(bs[i] as char) else Octet(bs[i]))
  }

  lemma {:induction false} TokenizeEscape(bs: seq<byte>)
    ensures Tokenize(Escape(bs)) == Some(ByteTokens(bs))
  {
    if bs != [] {
      TokenizeEscape(bs[1..]);
      var rest := Escape(bs[1..]);
      assert ByteTokens(bs) == [ByteTokens(bs)[0]] + ByteTokens(bs[1..]);
      if IsEscapeSafe(bs[0]) {
        assert ([bs[0] as char] + rest)[1..] == rest;
      } else {
        PercentByteTokens(bs[0], rest);
      }
    }
  }

  /** Where the octet tokens of an escaped binary string are all octets, they are its
      bytes; a run of continuation bytes is always all octets. */
  lemma {:induction false} OctetsOfByteTokens(bs: seq<byte>)
    ensures OctetsOf(ByteTokens(bs)).Some? ==> OctetsOf(ByteTokens(bs)).value == bs
    ensures (forall i :: 0 <= i < |bs| ==> bs[i] >= 0x80) ==> OctetsOf(ByteTokens(bs)) == Some(bs)
  {
    if bs != [] {
      OctetsOfByteTokens(bs[1..]);
      assert ByteTokens(bs)[1..] == ByteTokens(bs[1..]);
      assert [bs[0]] + bs[1..] == bs;
    }
  }

  /** The tokens of an escaped binary string assemble exactly as its bytes decode. */
  lemma {:induction false} AssembleByteTokens(bs: seq<byte>)
    ensures Assemble(ByteTokens(bs)) == Utf8.Decode(bs)
    decreases |bs|
  {
    if bs != [] {
      var n := SequenceLength(bs[0]);
      if n == 1 {
        AssembleByteTokens(bs[1..]);
        AssembleAscii(bs);
      } else if n >= 2 && |bs| >= n {
        AssembleByteTokens(bs[n..]);
        AssembleSequence(bs);
      } else {
        assert ByteTokens(bs)[0] == Octet(bs[0]);
      }
    }
  }

  lemma ByteTokensTake(bs: seq<byte>, n: nat)
    requires n <= |bs|
    ensures ByteTokens(bs)[..n] == ByteTokens(bs[..n])
  {
  }

  lemma ByteTokensDrop(bs: seq<byte>, n: nat)
    requires n <= |bs|
    ensures ByteTokens(bs)[n..] == ByteTokens(bs[n..])
  {
  }

  /** An ASCII byte stands for its character, as a plain token or as an octet. */
  lemma AssembleAscii(bs: seq<byte>)
    requires bs != [] && bs[0] < 0x80
    ensures Assemble(ByteTokens(bs)) == Cons(bs[0] as char, Assemble(ByteTokens(bs[1..])))
    ensures Utf8.Decode(bs) == Cons(bs[0] as char, Utf8.Decode(bs[1..]))
  {
    var ts := ByteTokens(bs);
    ByteTokensDrop(bs, 1);
    if IsEscapeSafe(bs[0]) {
      AssemblePlainHead(ts, bs[0] as char);
    } else {
      AssembleAsciiHead(ts, bs[0]);
    }
    assert bs[..1] == [bs[0]];
  }

  lemma AssemblePlainHead(ts: seq<Token>, c: char)
    requires ts != [] && ts[0] == Plain(c)
    ensures Assemble(ts) == Cons(c, Assemble(ts[1..]))
  {
  }

  lemma AssembleAsciiHead(ts: seq<Token>, b: byte)
    requires ts != [] && ts[0] == Octet(b) && b < 0x80
    ensures Assemble(ts) == Cons(b as char, Assemble(ts[1..]))
  {
    assert ts[..1] == [Octet(b)];
    OctetsOfOne(b);
  }

  lemma OctetsOfOne(b: byte)
    ensures OctetsOf([Octet(b)]) == Some([b])
  {
    assert [Octet(b)][1..] == [];
    assert OctetsOf([]) == Some([]);
    assert [b] + [] == [b];
  }

  /** A lead byte of a longer sequence starts an octet whose next octets are those of the
      sequence. */
  lemma AssembleSequence(bs: seq<byte>)
    requires bs != [] && 2 <= SequenceLength(bs[0]) <= |bs|
    ensures var n := SequenceLength(bs[0]);
      Assemble(ByteTokens(bs)) ==
        if !IsSequenceShape(bs[..n]) then None
        else match DecodeSequence(bs[..n])
          case None => None
          case Some(c) => Cons(c, Assemble(ByteTokens(bs[n..])))
  {
    var n := SequenceLength(bs[0]);
    var ts := ByteTokens(bs);
    AssembleOctetHead(ts, bs[0]);
    ByteTokensTake(bs, n);
    ByteTokensDrop(bs, n);
    OctetsOfByteTokens(bs[..n]);
    if IsSequenceShape(bs[..n]) {
      assert forall i :: 0 <= i < |bs[..n]| ==> bs[..n][i] >= 0x80;
    }
  }

  lemma AssembleOctetHead(ts: seq<Token>, b: byte)
    requires ts != [] && ts[0] == Octet(b) && 1 <= SequenceLength(b) <= |ts|
    ensures var n := SequenceLength(b);
      Assemble(ts) ==
        match OctetsOf(ts[..n])
        case None => None
        case Some(bs) =>
          if !IsSequenceShape(bs) then None
          else match DecodeSequence(bs)
            case None => None
            case Some(c) => Cons(c, Assemble(ts[n..]))
  {
  }



  /** `decodeURIComponent(escape(b))` is the UTF-8 decoding of the bytes `b`. */
  lemma DecodeURIComponentEscape(bs: seq<byte>)
    ensures DecodeURIComponent(Escape(bs)) == Utf8.Decode(bs)
  {
    TokenizeEscape(bs);
    AssembleByteTokens(bs);
  }
}
