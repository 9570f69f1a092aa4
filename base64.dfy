/** Base64 (section 4 of RFC 4648) as the browser's `btoa` and `atob` apply it to binary
    strings, whose characters are the bytes U+0000..U+00FF. `atob` follows the
    forgiving-base64 decode of the WHATWG Infra standard: ASCII white space is removed,
    one or two "=" are dropped when the length is a multiple of four, a length of the form
    4k + 1 or a character outside the alphabet is an error, and leftover bits are dropped. */
module Base64 {
  import opened Options
  import opened Utf8

  /** The character with value `v` in the alphabet A-Z a-z 0-9 + /. */
  function CharOf(v: int): char
    requires 0 <= v < 64
  {
    if v < 26 then ('A' as int + v) as char
    else if v < 52 then ('a' as int + v - 26) as char
    else if v < 62 then ('0' as int + v - 52) as char
    else if v == 62 then '+'
    else '/'
  }

  /** The value of an alphabet character; -1 for any other character. */
  function ValueOf(c: char): (v: int)
    ensures -1 <= v < 64
  {
    if 'A' <= c <= 'Z' then c as int - 'A' as int
    else if 'a' <= c <= 'z' then c as int - 'a' as int + 26
    else if '0' <= c <= '9' then c as int - '0' as int + 52
    else if c == '+' then 62
    else if c == '/' then 63
    else -1
  }

  predicate InAlphabet(c: char) {
    ValueOf(c) >= 0
  }

  /** The six bits of an alphabet character. */
  function Sextet(c: char): (v: nat)
    requires InAlphabet(c)
    ensures v < 64 && v == ValueOf(c)
  {
    ValueOf(c)
  }

  lemma ValueOfCharOf(v: int)
    requires 0 <= v < 64
    ensures ValueOf(CharOf(v)) == v
  {
  }

  /** The characters of one group of one to three bytes: two, three or four characters,
      the last one carrying the remaining bits padded with zero bits. */
  function EncodeGroup(g: seq<byte>): (cs: string)
    requires 1 <= |g| <= 3
    ensures |cs| == |g| + 1
  {
    var b1 := if |g| > 1 then g[1] else 0;
    var b2 := if |g| > 2 then g[2] else 0;
    var cs := [CharOf(g[0] / 4), CharOf((g[0] % 4) * 16 + b1 / 16)];
    if |g| == 1 then cs
    else if |g| == 2 then cs + [CharOf((b1 % 16) * 4)]
    else cs + [CharOf((b1 % 16) * 4 + b2 / 64), CharOf(b2 % 64)]
  }

  /** The characters of the bytes, three bytes to four characters, without padding. */
  function EncodeGroups(bs: seq<byte>): string {
    if |bs| == 0 then []
    else
      var n := if |bs| < 3 then |bs| else 3;
      EncodeGroup(bs[..n]) + EncodeGroups(bs[n..])
  }

  function Padding(n: nat): string {
    if n % 3 == 1 then "==" else if n % 3 == 2 then "=" else ""
  }

  /** `btoa` of a binary string. */
  function Encode(bs: seq<byte>): string {
    EncodeGroups(bs) + Padding(|bs|)
  }

  /** The white space forgiving-base64 removes: TAB, LF, FF, CR and SPACE. */
  predicate IsAsciiWhiteSpace(c: char) {
    c == '\t' || c == '\n' || c == '\U{C}' || c == '\r' || c == ' '
  }

  function RemoveAsciiWhiteSpace(s: string): (r: string)
    ensures forall i :: 0 <= i < |r| ==> !IsAsciiWhiteSpace(r[i])
  {
    if s == [] then []
    else (if IsAsciiWhiteSpace(s[0]) then [] else [s[0]]) + RemoveAsciiWhiteSpace(s[1..])
  }

  /** Drops one or two final "=" when the length is a multiple of four. */
  function StripPadding(s: string): string {
    if |s| % 4 != 0 then s
    else if |s| >= 2 && s[|s| - 1] == '=' && s[|s| - 2] == '=' then s[..|s| - 2]
    else if |s| >= 1 && s[|s| - 1] == '=' then s[..|s| - 1]
    else s
  }

  /** The bytes of one group of two to four alphabet characters; the bits that are left
      over when the group is shorter than four characters are dropped. */
  function DecodeGroup(cs: string): (g: seq<byte>)
    requires 2 <= |cs| <= 4
    requires forall i :: 0 <= i < |cs| ==> InAlphabet(cs[i])
    ensures |g| == |cs| - 1
  {
    var v0, v1 := Sextet(cs[0]), Sextet(cs[1]);
    var v2 := if |cs| > 2 then Sextet(cs[2]) else 0;
    var v3 := if |cs| > 3 then Sextet(cs[3]) else 0;
    var x0: byte := v0 * 4 + v1 / 16;
    var x1: byte := (v1 % 16) * 16 + v2 / 4;
    var x2: byte := (v2 % 4) * 64 + v3;
    if |cs| == 2 then [x0] else if |cs| == 3 then [x0, x1] else [x0, x1, x2]
  }

  /** The bytes of alphabet characters, four characters to three bytes. */
  function DecodeGroups(s: string): seq<byte>
    requires forall i :: 0 <= i < |s| ==> InAlphabet(s[i])
    requires |s| % 4 != 1
  {
    if |s| < 2 then []
    else
      var n := if |s| < 4 then |s| else 4;
      DecodeGroup(s[..n]) + DecodeGroups(s[n..])
  }

  /** `atob`: `None` stands for the InvalidCharacterError it throws. */
  function Decode(s: string): Option<seq<byte>> {
    var t := StripPadding(RemoveAsciiWhiteSpace(s));
    if |t| % 4 == 1 || !(forall i :: 0 <= i < |t| ==> InAlphabet(t[i])) then None
    else Some(DecodeGroups(t))
  }

  /** One group decodes to the bytes it was made from. */
  lemma GroupRoundTrip(g: seq<byte>)
    requires 1 <= |g| <= 3
    ensures forall i :: 0 <= i < |EncodeGroup(g)| ==> InAlphabet(EncodeGroup(g)[i])
    ensures DecodeGroup(EncodeGroup(g)) == g
  {
    var b1 := if |g| > 1 then g[1] else 0;
    var b2 := if |g| > 2 then g[2] else 0;
    GroupSextets(g);
    FirstByte(g[0], b1);
    SecondByte(g[0], b1, b2);
    ThirdByte(b1, b2);
    var d := DecodeGroup(EncodeGroup(g));
    assert d[0] == g[0];
    assert |g| > 1 ==> d[1] == g[1];
    assert |g| > 2 ==> d[2] == g[2];
  }

  /** The characters of a group carry its bits six at a time. */
  lemma GroupSextets(g: seq<byte>)
    requires 1 <= |g| <= 3
    ensures var cs, b1, b2 := EncodeGroup(g), (if |g| > 1 then g[1] else 0), (if |g| > 2 then g[2] else 0);
      (forall i :: 0 <= i < |cs| ==> InAlphabet(cs[i])) &&
      ValueOf(cs[0]) == g[0] / 4 && ValueOf(cs[1]) == (g[0] % 4) * 16 + b1 / 16 &&
      (|g| > 1 ==> ValueOf(cs[2]) == (b1 % 16) * 4 + b2 / 64) &&
      (|g| > 2 ==> ValueOf(cs[3]) == b2 % 64)
  {
    var b1 := if |g| > 1 then g[1] else 0;
    var b2 := if |g| > 2 then g[2] else 0;
    ValueOfCharOf(g[0] / 4);
    ValueOfCharOf((g[0] % 4) * 16 + b1 / 16);
    ValueOfCharOf((b1 % 16) * 4 + b2 / 64);
    ValueOfCharOf(b2 % 64);
  }

  lemma FirstByte(b0: byte, b1: byte)
    ensures (b0 / 4) * 4 + ((b0 % 4) * 16 + b1 / 16) / 16 == b0
  {
  }

  lemma SecondByte(b0: byte, b1: byte, b2: byte)
    ensures (((b0 % 4) * 16 + b1 / 16) % 16) * 16 + ((b1 % 16) * 4 + b2 / 64) / 4 == b1
  {
    DivAdd16(b0 % 4, b1 / 16);
    DivAdd4(b1 % 16, b2 / 64);
  }

  lemma DivAdd16(q: int, r: int)
    requires 0 <= r < 16
    ensures (q * 16 + r) % 16 == r
  {
  }

  lemma DivAdd4(q: int, r: int)
    requires 0 <= r < 4
    ensures (q * 4 + r) / 4 == q
  {
  }

  lemma ThirdByte(b1: byte, b2: byte)
    ensures (((b1 % 16) * 4 + b2 / 64) % 4) * 64 + b2 % 64 == b2
  {
  }

  /** The number of characters `EncodeGroups` writes for n bytes: four per group of
      three and one more than the bytes of a shorter last group. */
  function GroupsLength(n: nat): nat {
    if n == 0 then 0 else if n < 3 then n + 1 else 4 + GroupsLength(n - 3)
  }

  lemma {:induction false} EncodeGroupsLength(bs: seq<byte>)
    ensures |EncodeGroups(bs)| == GroupsLength(|bs|)
  {
    if |bs| > 0 {
      var n := if |bs| < 3 then |bs| else 3;
      EncodeGroupsLength(bs[n..]);
    }
  }

  lemma AlphabetAppend(a: string, b: string)
    requires forall i :: 0 <= i < |a| ==> InAlphabet(a[i])
    requires forall i :: 0 <= i < |b| ==> InAlphabet(b[i])
    ensures forall i :: 0 <= i < |a + b| ==> InAlphabet((a + b)[i])
  {
    forall i | 0 <= i < |a + b| ensures InAlphabet((a + b)[i]) {
      if i < |a| { assert (a + b)[i] == a[i]; } else { assert (a + b)[i] == b[i - |a|]; }
    }
  }

  /** Every character of the unpadded encoding is in the alphabet. */
  lemma {:induction false} EncodeGroupsAlphabet(bs: seq<byte>)
    ensures forall i :: 0 <= i < |EncodeGroups(bs)| ==> InAlphabet(EncodeGroups(bs)[i])
  {
    if |bs| > 0 {
      var n := if |bs| < 3 then |bs| else 3;
      GroupRoundTrip(bs[..n]);
      EncodeGroupsAlphabet(bs[n..]);
      AlphabetAppend(EncodeGroup(bs[..n]), EncodeGroups(bs[n..]));
    }
  }

  /** A whole group of four characters, or a last shorter group, decodes on its own. */
  lemma DecodeGroupsAppend(head: string, tail: string)
    requires 2 <= |head| <= 4 && (|head| == 4 || tail == []) && |tail| % 4 != 1
    requires forall i :: 0 <= i < |head| ==> InAlphabet(head[i])
    requires forall i :: 0 <= i < |tail| ==> InAlphabet(tail[i])
    ensures forall i :: 0 <= i < |head + tail| ==> InAlphabet((head + tail)[i])
    ensures |head + tail| % 4 != 1
    ensures DecodeGroups(head + tail) == DecodeGroup(head) + DecodeGroups(tail)
  {
    AlphabetAppend(head, tail);
    var e := head + tail;
    assert e[..|head|] == head;
    assert e[|head|..] == tail;
  }

  /** The unpadded characters are in the alphabet, there are never 4k + 1 of them, and
      they decode to the bytes. */
  lemma {:induction false} DecodeGroupsEncodeGroups(bs: seq<byte>)
    ensures var e := EncodeGroups(bs);
            (forall i :: 0 <= i < |e| ==> InAlphabet(e[i])) && |e| % 4 != 1 &&
            DecodeGroups(e) == bs
  {
    EncodeGroupsAlphabet(bs);
    EncodeGroupsLength(bs);
    PaddedLength(|bs|);
    if |bs| > 0 {
      var n := if |bs| < 3 then |bs| else 3;
      var head, tail := EncodeGroup(bs[..n]), EncodeGroups(bs[n..]);
      GroupRoundTrip(bs[..n]);
      DecodeGroupsEncodeGroups(bs[n..]);
      EncodeGroupsLength(bs[n..]);
      DecodeGroupsAppend(head, tail);
      assert EncodeGroups(bs) == head + tail;
      assert bs == bs[..n] + bs[n..];
    }
  }

  lemma {:induction false} RemoveNoWhiteSpace(s: string)
    requires forall i :: 0 <= i < |s| ==> !IsAsciiWhiteSpace(s[i])
    ensures RemoveAsciiWhiteSpace(s) == s
  {
    if s != [] {
      RemoveNoWhiteSpace(s[1..]);
      assert [s[0]] + s[1..] == s;
    }
  }

  /** The unpadded length is 4k, 4k + 2 or 4k + 3 for 3k, 3k + 1 or 3k + 2 bytes, and
      padding brings it to a multiple of four. */
  lemma {:induction false} PaddedLength(n: nat)
    ensures GroupsLength(n) % 4 == (if n % 3 == 0 then 0 else n % 3 + 1)
    ensures (GroupsLength(n) + |Padding(n)|) % 4 == 0
  {
    if n >= 3 {
      PaddedLength(n - 3);
      PaddingStep(n);
      PlusFour(GroupsLength(n - 3));
      PlusFour(GroupsLength(n - 3) + |Padding(n)|);
    }
  }

  lemma PaddingStep(n: nat)
    requires n >= 3
    ensures n % 3 == (n - 3) % 3 && Padding(n) == Padding(n - 3)
    ensures GroupsLength(n) == 4 + GroupsLength(n - 3)
  {
  }

  lemma PlusFour(x: nat)
    ensures (4 + x) % 4 == x % 4
  {
  }

  /** The unpadded length is n + ceil(n / 3), and the padded one 4 * ceil(n / 3). */
  lemma {:induction false} GroupsLengthValue(n: nat)
    ensures GroupsLength(n) == n + (n + 2) / 3
    ensures GroupsLength(n) + |Padding(n)| == 4 * ((n + 2) / 3)
  {
    if n >= 3 {
      GroupsLengthValue(n - 3);
    }
  }

  /** `atob(btoa(x))` is `x` for every binary string `x`. */
  lemma DecodeEncode(bs: seq<byte>)
    ensures Decode(Encode(bs)) == Some(bs)
  {
    EncodeCanonical(bs);
    EncodeGroupsUnpadded(bs);
    DecodeCanonical(Encode(bs), EncodeGroups(bs));
    DecodeGroupsEncodeGroups(bs);
  }

  /** Dropping white space and padding from an encoding leaves its groups. */
  lemma EncodeCanonical(bs: seq<byte>)
    ensures StripPadding(RemoveAsciiWhiteSpace(Encode(bs))) == EncodeGroups(bs)
  {
    EncodeNoWhiteSpace(bs);
    RemoveNoWhiteSpace(Encode(bs));
    EncodeLength(bs);
    StripPaddingOf(EncodeGroups(bs), Padding(|bs|));
  }

  lemma EncodeLength(bs: seq<byte>)
    ensures |EncodeGroups(bs) + Padding(|bs|)| % 4 == 0
  {
    EncodeGroupsLength(bs);
    PaddedLength(|bs|);
  }

  lemma DecodeCanonical(s: string, t: string)
    requires StripPadding(RemoveAsciiWhiteSpace(s)) == t
    requires (forall i :: 0 <= i < |t| ==> InAlphabet(t[i])) && |t| % 4 != 1
    ensures Decode(s) == Some(DecodeGroups(t))
  {
  }

  lemma EncodeNoWhiteSpace(bs: seq<byte>)
    ensures forall i :: 0 <= i < |Encode(bs)| ==> !IsAsciiWhiteSpace(Encode(bs)[i])
    ensures forall i :: 0 <= i < |EncodeGroups(bs)| ==> EncodeGroups(bs)[i] != '='
  {
    var g, p := EncodeGroups(bs), Padding(|bs|);
    EncodeGroupsAlphabet(bs);
    assert forall i :: 0 <= i < |p| ==> p[i] == '=';
    var e := g + p;
    forall i | 0 <= i < |e| ensures !IsAsciiWhiteSpace(e[i]) {
      if i < |g| {
        assert e[i] == g[i] && InAlphabet(g[i]);
      } else {
        assert e[i] == p[i - |g|];
      }
    }
    assert e == Encode(bs);
  }

  /** The groups without padding are in the alphabet and never one past a multiple of
      four long. */
  lemma EncodeGroupsUnpadded(bs: seq<byte>)
    ensures forall i :: 0 <= i < |EncodeGroups(bs)| ==> InAlphabet(EncodeGroups(bs)[i])
    ensures |EncodeGroups(bs)| % 4 != 1
  {
    EncodeGroupsAlphabet(bs);
    EncodeGroupsLength(bs);
    PaddedLength(|bs|);
  }

  lemma StripPaddingOf(g: string, p: string)
    requires p == "" || p == "=" || p == "=="
    requires |g + p| % 4 == 0
    requires forall i :: 0 <= i < |g| ==> g[i] != '='
    ensures StripPadding(g + p) == g
  {
    var e := g + p;
    if p == "" {
      assert e == g;
    } else if p == "=" {
      assert e[|e| - 2] == g[|g| - 1];
      assert e[..|e| - 1] == g;
    } else {
      assert e[..|e| - 2] == g;
    }
  }

  /** The output has length 4 * ceil(n / 3) and uses only the alphabet, with "=" only as
      padding at the end. */
  lemma EncodeShape(bs: seq<byte>)
    ensures |Encode(bs)| == 4 * ((|bs| + 2) / 3)
    ensures forall i :: 0 <= i < |Encode(bs)| ==>
              InAlphabet(Encode(bs)[i]) || (Encode(bs)[i] == '=' && i >= |Encode(bs)| - 2)
  {
    EncodeGroupsAlphabet(bs);
    EncodeGroupsLength(bs);
    GroupsLengthValue(|bs|);
    var g := EncodeGroups(bs);
    var e := Encode(bs);
    forall i | 0 <= i < |e|
      ensures InAlphabet(e[i]) || (e[i] == '=' && i >= |e| - 2)
    {
      if i < |g| { assert e[i] == g[i]; }
    }
  }

  lemma {:induction false} RemoveKeeps(s: string, c: char)
    requires c in s && !IsAsciiWhiteSpace(c)
    ensures c in RemoveAsciiWhiteSpace(s)
  {
    if s[0] != c {
      RemoveKeeps(s[1..], c);
    }
  }

  /** A character that is neither white space, nor "=", nor of the alphabet makes the
      decoding fail, wherever it is. */
  lemma DecodeRejects(s: string, i: nat)
    requires i < |s| && !IsAsciiWhiteSpace(s[i]) && s[i] != '=' && !InAlphabet(s[i])
    ensures Decode(s) == None
  {
    var c := s[i];
    var r := RemoveAsciiWhiteSpace(s);
    RemoveKeeps(s, c);
    var t := StripPadding(r);
    var k :| 0 <= k < |r| && r[k] == c;
    if t != r {
      assert k < |t| && t[k] == c;
    }
  }

  /** Text of alphabet characters alone is decoded as it is: padding is optional. */
  lemma DecodeUnpadded(t: string)
    requires forall i :: 0 <= i < |t| ==> InAlphabet(t[i])
    requires |t| % 4 != 1
    ensures Decode(t) == Some(DecodeGroups(t))
  {
    AlphabetKept(t);
    DecodeCanonical(t, t);
  }

  /** Neither white space removal nor padding removal touches alphabet characters. */
  lemma AlphabetKept(t: string)
    requires forall i :: 0 <= i < |t| ==> InAlphabet(t[i])
    ensures StripPadding(RemoveAsciiWhiteSpace(t)) == t
  {
    forall i | 0 <= i < |t| ensures !IsAsciiWhiteSpace(t[i]) {
      AlphabetPlain(t[i]);
    }
    RemoveNoWhiteSpace(t);
    if |t| >= 1 {
      AlphabetPlain(t[|t| - 1]);
    }
  }

  /** An alphabet character is neither white space nor "=". */
  lemma AlphabetPlain(c: char)
    requires InAlphabet(c)
    ensures !IsAsciiWhiteSpace(c) && c != '='
  {
  }
}
