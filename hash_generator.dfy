/** The hash generator (pages/tools/hash-generator.tsx). Empty input gives an empty hash
    and computes nothing. SHA-256 is the browser's digest of the UTF-8 bytes of the text,
    rendered as two lower-case hexadecimal digits per byte
    (`b.toString(16).padStart(2, "0")`, joined). The digest and the MD5 library are
    parameters: only the rendering is modelled. */
module HashGenerator {
  import opened Options
  import opened JsString
  import opened JsNumber
  import Utf8

  datatype Algorithm = Sha256 | Md5

  /** `s.padStart(n, c)` for a one-character fill. */
  function PadStart(s: string, n: nat, c: char): (r: string)
    ensures |r| == if |s| >= n then |s| else n
  {
    if |s| >= n then s else seq(n - |s|, _ => c) + s
  }

  /** `b.toString(16).padStart(2, "0")`. */
  function ByteHex(b: Utf8.byte): string {
    PadStart(NatToString(b, 16), 2, '0')
  }

  /** The hexadecimal rendering of a digest. */
  function Hex(bs: seq<Utf8.byte>): string {
    if bs == [] then [] else ByteHex(bs[0]) + Hex(bs[1..])
  }

  /** `generateHash`: the new hash text. */
  function GenerateHash(algorithm: Algorithm, input: string,
                        sha256: seq<Utf8.byte> -> seq<Utf8.byte>, md5: string -> string): string {
    if input == "" then ""
    else if algorithm == Md5 then md5(input)
    else Hex(sha256(Utf8.Encode(input)))
  }

  /** A lower-case hexadecimal digit. */
  predicate IsLowerHex(c: char) {
    ('0' <= c <= '9') || ('a' <= c <= 'f')
  }

  /** Reads pairs of hexadecimal digits back into bytes; `None` for text that is not
      such pairs. */
  function HexDecode(s: string): Option<seq<Utf8.byte>> {
    if s == [] then Some([])
    else if |s| < 2 || !IsLowerHex(s[0]) || !IsLowerHex(s[1]) then None
    else match HexDecode(s[2..])
      case None => None
      case Some(rest) => Some([DigitValue(s[0]) * 16 + DigitValue(s[1])] + rest)
  }

  // ---------------------------------------------------------------------------------
  // One byte

  lemma {:induction false} ByteDigits(b: Utf8.byte)
    ensures b < 16 ==> NatToString(b, 16) == [DigitChar(b)]
    ensures b >= 16 ==> NatToString(b, 16) == [DigitChar(b / 16), DigitChar(b % 16)]
  {
    if b >= 16 {
      assert NatToString(b / 16, 16) == [DigitChar(b / 16)];
    }
  }

  /** Each byte is two lower-case digits, the high half first. */
  lemma ByteHexDigits(b: Utf8.byte)
    ensures ByteHex(b) == [DigitChar(b / 16), DigitChar(b % 16)]
    ensures IsLowerHex(ByteHex(b)[0]) && IsLowerHex(ByteHex(b)[1])
    ensures DigitValue(ByteHex(b)[0]) * 16 + DigitValue(ByteHex(b)[1]) == b
  {
    ByteDigits(b);
    if b < 16 {
      assert ByteHex(b) == ['0'] + [DigitChar(b)];
    }
  }

  // ---------------------------------------------------------------------------------
  // The rendering

  /** Two characters per byte, all lower-case hexadecimal digits. */
  lemma {:induction false} HexShape(bs: seq<Utf8.byte>)
    ensures |Hex(bs)| == 2 * |bs|
    ensures forall i :: 0 <= i < |Hex(bs)| ==> IsLowerHex(Hex(bs)[i])
  {
    if bs != [] {
      HexShape(bs[1..]);
      ByteHexDigits(bs[0]);
      var h, t := ByteHex(bs[0]), Hex(bs[1..]);
      assert forall i :: 0 <= i < |h + t| ==> (h + t)[i] == (if i < 2 then h[i] else t[i - 2]);
    }
  }

  /** Reading the rendering back gives the bytes. */
  lemma {:induction false} HexDecodeHex(bs: seq<Utf8.byte>)
    ensures HexDecode(Hex(bs)) == Some(bs)
  {
    if bs != [] {
      HexDecodeHex(bs[1..]);
      ByteHexDigits(bs[0]);
      var s := Hex(bs);
      assert s[..2] == ByteHex(bs[0]);
      assert s[2..] == Hex(bs[1..]);
      assert [bs[0]] + bs[1..] == bs;
    }
  }

  /** Different digests render differently. */
  lemma HexInjective(a: seq<Utf8.byte>, b: seq<Utf8.byte>)
    requires Hex(a) == Hex(b)
    ensures a == b
  {
    HexDecodeHex(a);
    HexDecodeHex(b);
  }

  // ---------------------------------------------------------------------------------
  // The page

  /** A SHA-256 hash is the rendering of the digest of the text's UTF-8 bytes: it has two
      digits per digest byte and reads back as that digest. */
  lemma Sha256Hash(input: string, sha256: seq<Utf8.byte> -> seq<Utf8.byte>, md5: string -> string)
    requires input != ""
    ensures var h := GenerateHash(Sha256, input, sha256, md5);
      |h| == 2 * |sha256(Utf8.Encode(input))| &&
      HexDecode(h) == Some(sha256(Utf8.Encode(input)))
  {
    HexShape(sha256(Utf8.Encode(input)));
    HexDecodeHex(sha256(Utf8.Encode(input)));
  }

  /** The page state. */
  datatype State = State(algorithm: Algorithm, input: string, hash: string)

  /** `reset`: the text and the hash are cleared, the algorithm is kept. */
  function Reset(st: State): (r: State)
    ensures r.input == "" && r.hash == "" && r.algorithm == st.algorithm
  {
    State(st.algorithm, "", "")
  }

  /** `generateHash` on a state. */
  function Generate(st: State, sha256: seq<Utf8.byte> -> seq<Utf8.byte>, md5: string -> string): (r: State)
    ensures r.input == st.input && r.algorithm == st.algorithm
    ensures r.hash == GenerateHash(st.algorithm, st.input, sha256, md5)
    ensures st.input == "" ==> r.hash == ""
    ensures st.input != "" && st.algorithm == Md5 ==> r.hash == md5(st.input)
    ensures st.input != "" && st.algorithm == Sha256 ==>
      |r.hash| == 2 * |sha256(Utf8.Encode(st.input))| &&
      HexDecode(r.hash) == Some(sha256(Utf8.Encode(st.input)))
  {
    var digest := sha256(Utf8.Encode(st.input));
    HexShape(digest);
    HexDecodeHex(digest);
    st.(hash := GenerateHash(st.algorithm, st.input, sha256, md5))
  }
}
