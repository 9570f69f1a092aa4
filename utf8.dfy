/** UTF-8 (RFC 3629) between model strings and byte sequences, with the decoder's
    rejection rules as `decodeURIComponent` applies them (section 19.2.6.5 of ECMA-262):
    a lead byte that announces no sequence, a missing or malformed continuation byte, an
    overlong form, a surrogate and a value above U+10FFFF are all errors. */
module Utf8 {
  import opened Options

  /** An octet. */
  type byte = x: int | 0 <= x < 256

  predicate IsContinuation(b: byte) {
    0x80 <= b < 0xC0
  }

  /** The one to four bytes of a scalar value (section 3 of RFC 3629). */
  function EncodeChar(c: char): (bs: seq<byte>)
    ensures 1 <= |bs| <= 4
  {
    var x := c as int;
    if x < 0x80 then [x]
    else if x < 0x800 then [0xC0 + x / 0x40, 0x80 + x % 0x40]
    else if x < 0x1_0000 then [0xE0 + x / 0x1000, 0x80 + (x / 0x40) % 0x40, 0x80 + x % 0x40]
    else [0xF0 + x / 0x4_0000, 0x80 + (x / 0x1000) % 0x40, 0x80 + (x / 0x40) % 0x40, 0x80 + x % 0x40]
  }

  function Encode(s: string): seq<byte> {
    if s == [] then [] else EncodeChar(s[0]) + Encode(s[1..])
  }

  /** The length of the sequence a byte starts, read from its leading one bits; 0 for a
      continuation byte and for F8..FF, which start no sequence. */
  function SequenceLength(b: byte): nat {
    if b < 0x80 then 1
    else if b < 0xC0 then 0
    else if b < 0xE0 then 2
    else if b < 0xF0 then 3
    else if b < 0xF8 then 4
    else 0
  }

  /** A lead byte followed by the continuation bytes it announces. */
  predicate IsSequenceShape(bs: seq<byte>) {
    |bs| >= 1 && SequenceLength(bs[0]) == |bs| &&
    forall k :: 1 <= k < |bs| ==> IsContinuation(bs[k])
  }

  /** The scalar value of one well-shaped sequence; `None` for an overlong form, a
      surrogate, or a value above U+10FFFF. */
  function DecodeSequence(bs: seq<byte>): Option<char>
    requires IsSequenceShape(bs)
  {
    if |bs| == 1 then Some(bs[0] as char)
    else if |bs| == 2 then
      var x := Value2(bs[0], bs[1]);
      if x < 0x80 then None else Some(x as char)
    else if |bs| == 3 then
      var x := Value3(bs[0], bs[1], bs[2]);
      if x < 0x800 || (0xD800 <= x < 0xE000) then None else Some(x as char)
    else
      var x := Value4(bs[0], bs[1], bs[2], bs[3]);
      if x < 0x1_0000 || x > 0x10_FFFF then None else Some(x as char)
  }

  /** The payload bits of a two-, three- and four-byte sequence. */
  function Value2(b0: byte, b1: byte): int {
    (b0 as int - 0xC0) * 0x40 + (b1 as int - 0x80)
  }

  function Value3(b0: byte, b1: byte, b2: byte): int {
    (b0 as int - 0xE0) * 0x1000 + (b1 as int - 0x80) * 0x40 + (b2 as int - 0x80)
  }

  function Value4(b0: byte, b1: byte, b2: byte, b3: byte): int {
    (b0 as int - 0xF0) * 0x4_0000 + (b1 as int - 0x80) * 0x1000 + (b2 as int - 0x80) * 0x40 + (b3 as int - 0x80)
  }

  /** Decodes a whole byte sequence; `None` at the first malformed sequence. */
  function Decode(bs: seq<byte>): Option<string> {
    if bs == [] then Some([])
    else
      var n := SequenceLength(bs[0]);
      if n == 0 || |bs| < n || !IsSequenceShape(bs[..n]) then None
      else
        match DecodeSequence(bs[..n])
        case None => None
        case Some(c) =>
          match Decode(bs[n..])
          case None => None
          case Some(rest) => Some([c] + rest)
  }

  /** The bytes of one character form one well-shaped sequence that decodes back to it. */
  lemma DecodeSequenceEncodeChar(c: char)
    ensures IsSequenceShape(EncodeChar(c))
    ensures DecodeSequence(EncodeChar(c)) == Some(c)
  {
    var x := c as int;
    var e := EncodeChar(c);
    if x < 0x80 {
    } else if x < 0x800 {
      Digits64(x);
      assert Value2(e[0], e[1]) == x;
    } else if x < 0x1_0000 {
      Digits64(x);
      Digits64(x / 0x40);
      assert Value3(e[0], e[1], e[2]) == x;
    } else {
      Digits64(x);
      Digits64(x / 0x40);
      Digits64(x / 0x1000);
      assert Value4(e[0], e[1], e[2], e[3]) == x;
    }
  }

  /** Base-64 digit arithmetic: the quotient and remainder by 64, and the quotients by
      4096 and 262144 as repeated division. */
  lemma Digits64(x: nat)
    ensures x == (x / 0x40) * 0x40 + x % 0x40 && 0 <= x % 0x40 < 0x40
    ensures x / 0x1000 == (x / 0x40) / 0x40 && x / 0x4_0000 == (x / 0x1000) / 0x40
  {
  }

  /** Every well-shaped sequence that decodes is the encoding of what it decodes to:
      UTF-8 has exactly one encoding per scalar value. */
  lemma EncodeCharDecodeSequence(bs: seq<byte>)
    requires IsSequenceShape(bs) && DecodeSequence(bs).Some?
    ensures EncodeChar(DecodeSequence(bs).value) == bs
  {
    if |bs| == 2 {
      EncodeTwo(bs[0], bs[1]);
      assert bs == [bs[0], bs[1]];
    } else if |bs| == 3 {
      EncodeThree(bs[0], bs[1], bs[2]);
      assert bs == [bs[0], bs[1], bs[2]];
    } else if |bs| == 4 {
      EncodeFour(bs[0], bs[1], bs[2], bs[3]);
      assert bs == [bs[0], bs[1], bs[2], bs[3]];
    }
  }

  lemma EncodeTwo(b0: byte, b1: byte)
    requires 0xC0 <= b0 < 0xE0 && IsContinuation(b1) && Value2(b0, b1) >= 0x80
    ensures EncodeChar(Value2(b0, b1) as char) == [b0, b1]
  {
    DivAdd64(b0 as int - 0xC0, b1 as int - 0x80);
  }

  lemma EncodeThree(b0: byte, b1: byte, b2: byte)
    requires 0xE0 <= b0 < 0xF0 && IsContinuation(b1) && IsContinuation(b2)
    requires var x := Value3(b0, b1, b2); x >= 0x800 && !(0xD800 <= x < 0xE000)
    ensures EncodeChar(Value3(b0, b1, b2) as char) == [b0, b1, b2]
  {
    var d0, d1, d2 := b0 as int - 0xE0, b1 as int - 0x80, b2 as int - 0x80;
    var y := d0 * 0x40 + d1;
    DivAdd64(y, d2);
    DivAdd64(d0, d1);
    DivAdd4096(d0, d1 * 0x40 + d2);
  }

  lemma EncodeFour(b0: byte, b1: byte, b2: byte, b3: byte)
    requires 0xF0 <= b0 < 0xF8 && IsContinuation(b1) && IsContinuation(b2) && IsContinuation(b3)
    requires var x := Value4(b0, b1, b2, b3); 0x1_0000 <= x <= 0x10_FFFF
    ensures EncodeChar(Value4(b0, b1, b2, b3) as char) == [b0, b1, b2, b3]
  {
    var d0, d1, d2, d3 := b0 as int - 0xF0, b1 as int - 0x80, b2 as int - 0x80, b3 as int - 0x80;
    var y1 := d0 * 0x40 + d1;
    var y2 := y1 * 0x40 + d2;
    DivAdd64(y2, d3);
    DivAdd64(y1, d2);
    DivAdd64(d0, d1);
    DivAdd4096(y1, d2 * 0x40 + d3);
    DivAdd40000(d0, d1 * 0x1000 + d2 * 0x40 + d3);
  }

  /** Division by the constants of the encoding: linear facts, one per divisor. */
  lemma DivAdd64(q: int, r: int)
    requires 0 <= r < 0x40
    ensures (q * 0x40 + r) / 0x40 == q && (q * 0x40 + r) % 0x40 == r
  {
  }

  lemma DivAdd4096(q: int, r: int)
    requires 0 <= r < 0x1000
    ensures (q * 0x1000 + r) / 0x1000 == q && (q * 0x1000 + r) % 0x1000 == r
  {
  }

  lemma DivAdd40000(q: int, r: int)
    requires 0 <= r < 0x4_0000
    ensures (q * 0x4_0000 + r) / 0x4_0000 == q
  {
  }

  /** Decoding the encoding of a string gives the string back. */
  lemma {:induction false} DecodeEncode(s: string)
    ensures Decode(Encode(s)) == Some(s)
  {
    if s != [] {
      var e := EncodeChar(s[0]);
      var bs := Encode(s);
      DecodeSequenceEncodeChar(s[0]);
      assert bs == e + Encode(s[1..]);
      assert bs[..|e|] == e && bs[|e|..] == Encode(s[1..]);
      DecodeEncode(s[1..]);
      assert [s[0]] + s[1..] == s;
    }
  }

  /** A byte sequence that decodes is exactly the encoding of its decoding. */
  lemma {:induction false} EncodeDecode(bs: seq<byte>)
    requires Decode(bs).Some?
    ensures Encode(Decode(bs).value) == bs
  {
    if bs != [] {
      var n := SequenceLength(bs[0]);
      DecodeCons(bs);
      var c, rest := DecodeSequence(bs[..n]).value, Decode(bs[n..]).value;
      EncodeCharDecodeSequence(bs[..n]);
      EncodeDecode(bs[n..]);
      EncodeDecodeStep(bs, n, c, rest);
    }
  }

  lemma EncodeDecodeStep(bs: seq<byte>, n: nat, c: char, rest: string)
    requires n <= |bs| && EncodeChar(c) == bs[..n] && Encode(rest) == bs[n..]
    ensures Encode([c] + rest) == bs
  {
    EncodeCons(c, rest);
    assert bs == bs[..n] + bs[n..];
  }

  lemma EncodeCons(c: char, rest: string)
    ensures Encode([c] + rest) == EncodeChar(c) + Encode(rest)
  {
    assert ([c] + rest)[1..] == rest;
  }


  /** A decoded text starts with the character of the first sequence. */
  lemma DecodeCons(bs: seq<byte>)
    requires bs != [] && Decode(bs).Some?
    ensures var n := SequenceLength(bs[0]);
      1 <= n <= |bs| && IsSequenceShape(bs[..n]) && DecodeSequence(bs[..n]).Some? &&
      Decode(bs[n..]).Some? && Decode(bs).value == [DecodeSequence(bs[..n]).value] + Decode(bs[n..]).value
  {
  }

}
