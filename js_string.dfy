/** The string primitives of ECMAScript that the tool pages build on: the white-space
    set shared by `String.prototype.trim` and the regular-expression class `\s`, trimming,
    splitting on one character and on white-space runs, joining, ASCII case mapping, and
    the UTF-16 view of a string (its `length` and its code units).

    A model string is a Dafny `string`: a sequence of Unicode scalar values, that is, a
    JavaScript string without lone surrogates. A scalar value above U+FFFF stands for the
    two UTF-16 code units of its surrogate pair. */
module JsString {

  /** One UTF-16 code unit. */
  type CodeUnit = x: int | 0 <= x < 0x1_0000

  /** ECMAScript WhiteSpace or LineTerminator: TAB, LF, VT, FF, CR, SPACE, NBSP, U+1680,
      U+2000..U+200A, LS, PS, U+202F, U+205F, U+3000 and the byte order mark. */
  predicate IsWhiteSpace(c: char) {
    var x := c as int;
    (9 <= x <= 13) || x == 0x20 || x == 0xA0 || x == 0x1680 || (0x2000 <= x <= 0x200A) ||
    x == 0x2028 || x == 0x2029 || x == 0x202F || x == 0x205F || x == 0x3000 || x == 0xFEFF
  }

  predicate AllWhiteSpace(s: string) {
    forall i :: 0 <= i < |s| ==> IsWhiteSpace(s[i])
  }

  predicate NoWhiteSpace(s: string) {
    forall i :: 0 <= i < |s| ==> !IsWhiteSpace(s[i])
  }

  /** The number of leading white-space characters. */
  function LeadingWhiteSpace(s: string): (n: nat)
    ensures n <= |s|
  {
    if s != [] && IsWhiteSpace(s[0]) then 1 + LeadingWhiteSpace(s[1..]) else 0
  }

  /** The leading run is all white space and is followed by a non-white-space character
      or by the end. */
  lemma {:induction false} LeadingWhiteSpaceRun(s: string)
    ensures forall i :: 0 <= i < LeadingWhiteSpace(s) ==> IsWhiteSpace(s[i])
    ensures LeadingWhiteSpace(s) == |s| || !IsWhiteSpace(s[LeadingWhiteSpace(s)])
  {
    if s != [] && IsWhiteSpace(s[0]) {
      LeadingWhiteSpaceRun(s[1..]);
    }
  }

  /** The length of the text without its trailing white space. */
  function TrailingStart(s: string): (n: nat)
    ensures n <= |s|
  {
    if s != [] && IsWhiteSpace(s[|s| - 1]) then TrailingStart(s[..|s| - 1]) else |s|
  }

  /** The trailing run is all white space and follows a non-white-space character or the
      start. */
  lemma {:induction false} TrailingStartRun(s: string)
    ensures forall i :: TrailingStart(s) <= i < |s| ==> IsWhiteSpace(s[i])
    ensures TrailingStart(s) == 0 || !IsWhiteSpace(s[TrailingStart(s) - 1])
  {
    if s != [] && IsWhiteSpace(s[|s| - 1]) {
      TrailingStartRun(s[..|s| - 1]);
    }
  }

  /** Drops the leading white space (`trimStart`). */
  function TrimStart(s: string): string {
    s[LeadingWhiteSpace(s)..]
  }

  /** Drops the trailing white space (`trimEnd`). */
  function TrimEnd(s: string): string {
    s[..TrailingStart(s)]
  }

  /** `String.prototype.trim`. */
  function Trim(s: string): string {
    TrimEnd(TrimStart(s))
  }

  /** Trimming keeps a contiguous middle part of the text that begins and ends with a
      non-white-space character, and removes only white space around it. */
  lemma TrimIsMiddle(s: string)
    ensures var a := LeadingWhiteSpace(s);
            a + |Trim(s)| <= |s| && Trim(s) == s[a..a + |Trim(s)|] &&
            AllWhiteSpace(s[..a]) && AllWhiteSpace(s[a + |Trim(s)|..])
    ensures Trim(s) == [] || (!IsWhiteSpace(Trim(s)[0]) && !IsWhiteSpace(Trim(s)[|Trim(s)| - 1]))
    ensures Trim(s) == [] ==> LeadingWhiteSpace(s) == |s|
  {
    TrimSlice(s);
    TrimAround(s);
    TrimEnds(s);
  }

  lemma TrimSlice(s: string)
    ensures var a := LeadingWhiteSpace(s);
            a + |Trim(s)| <= |s| && Trim(s) == s[a..a + |Trim(s)|]
  {
    var a := LeadingWhiteSpace(s);
    var t := s[a..];
    assert Trim(s) == t[..TrailingStart(t)];
  }

  lemma TrimAround(s: string)
    ensures var a := LeadingWhiteSpace(s);
            a + |Trim(s)| <= |s| && AllWhiteSpace(s[..a]) && AllWhiteSpace(s[a + |Trim(s)|..])
  {
    var a := LeadingWhiteSpace(s);
    var t := s[a..];
    var b := TrailingStart(t);
    LeadingWhiteSpaceRun(s);
    TrailingStartRun(t);
    assert |Trim(s)| == b;
    assert s[a + b..] == t[b..];
  }

  lemma TrimEnds(s: string)
    ensures Trim(s) == [] || (!IsWhiteSpace(Trim(s)[0]) && !IsWhiteSpace(Trim(s)[|Trim(s)| - 1]))
    ensures Trim(s) == [] ==> LeadingWhiteSpace(s) == |s|
  {
    var a := LeadingWhiteSpace(s);
    var t := s[a..];
    var b := TrailingStart(t);
    LeadingWhiteSpaceRun(s);
    TrailingStartRun(t);
    assert Trim(s) == t[..b];
    assert a < |s| ==> t[0] == s[a];
  }

  /** The trimmed text is empty exactly when the whole text is white space. */
  lemma {:induction false} TrimEmptyIff(s: string)
    ensures Trim(s) == [] <==> AllWhiteSpace(s)
  {
    TrimIsMiddle(s);
    var a := LeadingWhiteSpace(s);
    if Trim(s) == [] {
      assert s[..a] == s;
    } else {
      assert Trim(s)[0] == s[a];
    }
  }

  /** Text that begins and ends with a non-white-space character is its own trim. */
  lemma TrimUnchangedEnds(s: string)
    requires s != [] && !IsWhiteSpace(s[0]) && !IsWhiteSpace(s[|s| - 1])
    ensures Trim(s) == s
  {
    assert LeadingWhiteSpace(s) == 0;
    assert s[0..] == s;
    assert TrailingStart(s) == |s|;
  }

  /** Trimming adds no character. */
  lemma TrimKeeps(s: string, c: char)
    requires c in Trim(s)
    ensures c in s
  {
    TrimIsMiddle(s);
    var a := LeadingWhiteSpace(s);
    var i :| 0 <= i < |Trim(s)| && Trim(s)[i] == c;
    assert s[a + i] == c;
  }

  /** `s.split(sep)` for a one-character separator: the pieces between the occurrences
      of `sep`, so that n occurrences give n + 1 pieces. */
  function SplitOn(s: string, sep: char): (parts: seq<string>)
    ensures |parts| >= 1
  {
    if s == [] then [[]]
    else
      var rest := SplitOn(s[1..], sep);
      if s[0] == sep then [[]] + rest else [[s[0]] + rest[0]] + rest[1..]
  }

  /** `parts.join(sep)`; an empty array joins to the empty string. */
  function Join(parts: seq<string>, sep: string): string {
    if |parts| == 0 then []
    else if |parts| == 1 then parts[0]
    else parts[0] + sep + Join(parts[1..], sep)
  }

  function Occurrences(s: string, c: char): nat {
    if s == [] then 0 else (if s[0] == c then 1 else 0) + Occurrences(s[1..], c)
  }

  /** The pieces of a split never contain the separator, and there is one piece more
      than there are separators. */
  lemma {:induction false} SplitOnPieces(s: string, sep: char)
    ensures |SplitOn(s, sep)| == Occurrences(s, sep) + 1
    ensures forall i :: 0 <= i < |SplitOn(s, sep)| ==> sep !in SplitOn(s, sep)[i]
  {
    if s != [] {
      SplitOnPieces(s[1..], sep);
    }
  }

  /** Joining the pieces with the separator gives back the text. */
  lemma {:induction false} JoinSplitOn(s: string, sep: char)
    ensures Join(SplitOn(s, sep), [sep]) == s
  {
    if s != [] {
      var rest := SplitOn(s[1..], sep);
      JoinSplitOn(s[1..], sep);
      if s[0] == sep {
        assert SplitOn(s, sep) == [[]] + rest;
      } else if |rest| == 1 {
        assert SplitOn(s, sep) == [[s[0]] + rest[0]];
      } else {
        assert SplitOn(s, sep)[1..] == rest[1..];
        assert Join(rest, [sep]) == rest[0] + [sep] + Join(rest[1..], [sep]);
      }
    }
  }

  /** Splitting a join of separator-free pieces gives back the pieces. */
  lemma {:induction false} SplitOnJoin(parts: seq<string>, sep: char)
    requires |parts| >= 1
    requires forall i :: 0 <= i < |parts| ==> sep !in parts[i]
    ensures SplitOn(Join(parts, [sep]), sep) == parts
  {
    if |parts| == 1 {
      SplitOnFree(parts[0], sep);
    } else {
      SplitOnJoin(parts[1..], sep);
      SplitOnSeparated(parts[0], Join(parts[1..], [sep]), sep);
    }
  }

  /** Splitting adds no character. */
  lemma {:induction false} SplitOnKeeps(s: string, sep: char, c: char)
    requires c !in s
    ensures forall i :: 0 <= i < |SplitOn(s, sep)| ==> c !in SplitOn(s, sep)[i]
  {
    if s != [] {
      SplitOnKeeps(s[1..], sep, c);
    }
  }

  /** Joining a concatenation of two non-empty lists puts one separator between them. */
  lemma {:induction false} JoinAppend(a: seq<string>, b: seq<string>, sep: string)
    requires |a| >= 1 && |b| >= 1
    ensures Join(a + b, sep) == Join(a, sep) + sep + Join(b, sep)
  {
    if |a| > 1 {
      JoinAppend(a[1..], b, sep);
      assert (a + b)[1..] == a[1..] + b;
    } else {
      assert (a + b)[1..] == b;
    }
  }

  /** The lists one after another. */
  function Flatten(ls: seq<seq<string>>): seq<string> {
    if ls == [] then [] else ls[0] + Flatten(ls[1..])
  }

  /** Joining the joins of non-empty lists is joining their concatenation. */
  lemma {:induction false} JoinFlatten(ls: seq<seq<string>>, sep: string)
    requires |ls| >= 1 && forall i :: 0 <= i < |ls| ==> |ls[i]| >= 1
    ensures Join(seq(|ls|, i requires 0 <= i < |ls| => Join(ls[i], sep)), sep) == Join(Flatten(ls), sep)
  {
    var js := seq(|ls|, i requires 0 <= i < |ls| => Join(ls[i], sep));
    if |ls| > 1 {
      var rest := ls[1..];
      JoinFlatten(rest, sep);
      assert js[1..] == seq(|rest|, i requires 0 <= i < |rest| => Join(rest[i], sep));
      FlattenNonEmpty(rest);
      JoinAppend(ls[0], Flatten(rest), sep);
    } else {
      assert Flatten(ls) == ls[0] + [];
      assert ls[0] + [] == ls[0];
    }
  }

  /** A character that no element of the lists contains is in no element of the
      flattened list. */
  lemma {:induction false} FlattenFree(ls: seq<seq<string>>, c: char)
    requires forall i, j :: 0 <= i < |ls| && 0 <= j < |ls[i]| ==> c !in ls[i][j]
    ensures forall k :: 0 <= k < |Flatten(ls)| ==> c !in Flatten(ls)[k]
  {
    if ls != [] {
      FlattenFree(ls[1..], c);
      var f := Flatten(ls);
      forall k | 0 <= k < |f| ensures c !in f[k] {
        if k >= |ls[0]| {
          assert f[k] == Flatten(ls[1..])[k - |ls[0]|];
        } else {
          assert f[k] == ls[0][k];
        }
      }
    }
  }

  lemma FlattenNonEmpty(ls: seq<seq<string>>)
    requires |ls| >= 1 && |ls[0]| >= 1
    ensures |Flatten(ls)| >= 1
  {
  }

  lemma {:induction false} SplitOnFree(s: string, sep: char)
    requires sep !in s
    ensures SplitOn(s, sep) == [s]
  {
    if s != [] {
      SplitOnFree(s[1..], sep);
      assert [s[0]] + s[1..] == s;
    }
  }

  lemma {:induction false} SplitOnSeparated(a: string, b: string, sep: char)
    requires sep !in a
    ensures SplitOn(a + [sep] + b, sep) == [a] + SplitOn(b, sep)
  {
    if a == [] {
      assert a + [sep] + b == [sep] + b;
      assert ([sep] + b)[1..] == b;
    } else {
      SplitOnSeparated(a[1..], b, sep);
      assert (a + [sep] + b)[1..] == a[1..] + [sep] + b;
      assert [a[0]] + a[1..] == a;
    }
  }

  /** `s.replace(/c/g, r)`: every occurrence of the character `c` becomes `r`. */
  function ReplaceAll(s: string, c: char, r: string): string {
    if s == [] then [] else (if s[0] == c then r else [s[0]]) + ReplaceAll(s[1..], c, r)
  }

  /** Replacing distributes over concatenation. */
  lemma {:induction false} ReplaceAllAppend(a: string, b: string, c: char, r: string)
    ensures ReplaceAll(a + b, c, r) == ReplaceAll(a, c, r) + ReplaceAll(b, c, r)
  {
    if a == [] {
      assert a + b == b;
    } else {
      var h := if a[0] == c then r else [a[0]];
      ReplaceAllAppend(a[1..], b, c, r);
      assert (a + b)[0] == a[0] && (a + b)[1..] == a[1..] + b;
      assert ReplaceAll(a + b, c, r) == h + ReplaceAll(a[1..] + b, c, r);
      ConcatAssoc(h, ReplaceAll(a[1..], c, r), ReplaceAll(b, c, r));
    }
  }

  /** The texts of the elements, one after the other. */
  function ConcatMap<T>(xs: seq<T>, f: T -> string): string {
    if xs == [] then "" else f(xs[0]) + ConcatMap(xs[1..], f)
  }

  lemma {:induction false} ConcatMapAppend<T>(a: seq<T>, b: seq<T>, f: T -> string)
    ensures ConcatMap(a + b, f) == ConcatMap(a, f) + ConcatMap(b, f)
  {
    if a == [] {
      assert a + b == b;
    } else {
      ConcatMapAppend(a[1..], b, f);
      assert (a + b)[0] == a[0] && (a + b)[1..] == a[1..] + b;
      assert ConcatMap(a + b, f) == f(a[0]) + ConcatMap(a[1..] + b, f);
      ConcatAssoc(f(a[0]), ConcatMap(a[1..], f), ConcatMap(b, f));
    }
  }

  lemma ConcatMapOne<T>(x: T, f: T -> string)
    ensures ConcatMap([x], f) == f(x)
  {
    assert [x][1..] == [];
  }

  lemma ConcatAssoc<T>(a: seq<T>, b: seq<T>, c: seq<T>)
    ensures (a + b) + c == a + (b + c)
  {
  }

  lemma ConsSplit<T>(s: seq<T>)
    requires s != []
    ensures [s[0]] + s[1..] == s
  {
  }

  lemma PrefixTrans<T>(a: seq<T>, b: seq<T>, c: seq<T>)
    requires a <= b && b <= c
    ensures a <= c
  {
  }

  /** Text without the character is left as it is. */
  lemma {:induction false} ReplaceAllFree(s: string, c: char, r: string)
    requires c !in s
    ensures ReplaceAll(s, c, r) == s
  {
    if s != [] {
      ReplaceAllFree(s[1..], c, r);
      assert [s[0]] + s[1..] == s;
    }
  }

  /** No occurrence survives when the replacement does not contain the character, and
      no other character is introduced except those of the replacement. */
  lemma {:induction false} ReplaceAllRemoves(s: string, c: char, r: string, d: char)
    requires d in ReplaceAll(s, c, r)
    ensures (d in s && d != c) || d in r
  {
    if s != [] {
      var h := if s[0] == c then r else [s[0]];
      if d in h {
      } else {
        assert d in ReplaceAll(s[1..], c, r);
        ReplaceAllRemoves(s[1..], c, r, d);
      }
    }
  }

  /** `s.split(/\s+/)`: the fields between maximal runs of white space. A leading run
      gives an empty first field and a trailing run an empty last field; the empty text
      gives one empty field. */
  function SplitOnWhiteSpace(s: string): (fields: seq<string>)
    ensures |fields| >= 1
    ensures forall i :: 0 <= i < |fields| ==> NoWhiteSpace(fields[i])
    decreases |s|
  {
    if s == [] then [[]]
    else if IsWhiteSpace(s[0]) then
      [[]] + SplitOnWhiteSpace(TrimStart(s))
    else
      var rest := SplitOnWhiteSpace(s[1..]);
      [[s[0]] + rest[0]] + rest[1..]
  }

  /** A field of a white-space split of trimmed text is never empty. */
  lemma {:induction false} SplitTrimmedNonEmpty(s: string)
    requires s != [] && !IsWhiteSpace(s[0]) && !IsWhiteSpace(s[|s| - 1])
    ensures forall i :: 0 <= i < |SplitOnWhiteSpace(s)| ==> SplitOnWhiteSpace(s)[i] != []
    decreases |s|
  {
    var rest := SplitOnWhiteSpace(s[1..]);
    if |s| > 1 {
      var t := s[1..];
      if IsWhiteSpace(t[0]) {
        var u := TrimStart(t);
        LeadingWhiteSpaceRun(t);
        assert t[|t| - 1] == s[|s| - 1];
        assert t[..|t|] == t;
        assert u[|u| - 1] == s[|s| - 1];
        SplitTrimmedNonEmpty(u);
        assert rest == [[]] + SplitOnWhiteSpace(u);
      } else {
        SplitTrimmedNonEmpty(t);
      }
    }
  }

  /** A field holds only characters of the text. */
  lemma {:induction false} SplitOnWhiteSpaceKeeps(s: string, c: char)
    requires c !in s
    ensures forall i :: 0 <= i < |SplitOnWhiteSpace(s)| ==> c !in SplitOnWhiteSpace(s)[i]
    decreases |s|
  {
    if s != [] {
      if IsWhiteSpace(s[0]) {
        var a := LeadingWhiteSpace(s);
        assert forall k :: 0 <= k < |s[a..]| ==> s[a..][k] == s[a + k];
        SplitOnWhiteSpaceKeeps(TrimStart(s), c);
      } else {
        assert forall k :: 0 <= k < |s[1..]| ==> s[1..][k] == s[1 + k];
        SplitOnWhiteSpaceKeeps(s[1..], c);
      }
    }
  }

  /** Text that begins with a word (or is empty) has no empty field except possibly the
      last. */
  lemma {:induction false} SplitStartingWord(s: string)
    requires s == [] || !IsWhiteSpace(s[0])
    ensures forall i :: 0 <= i < |SplitOnWhiteSpace(s)| - 1 ==> SplitOnWhiteSpace(s)[i] != []
    decreases |s|
  {
    if s != [] {
      var t := s[1..];
      if t != [] && IsWhiteSpace(t[0]) {
        LeadingWhiteSpaceRun(t);
        SplitStartingWord(TrimStart(t));
        assert SplitOnWhiteSpace(t) == [[]] + SplitOnWhiteSpace(TrimStart(t));
      } else {
        SplitStartingWord(t);
      }
    }
  }

  /** Only the first and the last field can be empty: a field between two white-space
      runs holds at least one character. */
  lemma SplitOnWhiteSpaceInterior(s: string)
    ensures forall i :: 0 < i < |SplitOnWhiteSpace(s)| - 1 ==> SplitOnWhiteSpace(s)[i] != []
  {
    if s != [] && IsWhiteSpace(s[0]) {
      LeadingWhiteSpaceRun(s);
      SplitStartingWord(TrimStart(s));
    } else {
      SplitStartingWord(s);
    }
  }

  /** A leading word becomes the start of the first field. */
  lemma {:induction false} SplitOnWhiteSpacePrefix(w: string, t: string)
    requires NoWhiteSpace(w)
    ensures SplitOnWhiteSpace(w + t) == [w + SplitOnWhiteSpace(t)[0]] + SplitOnWhiteSpace(t)[1..]
  {
    var f := SplitOnWhiteSpace(t);
    if w == [] {
      assert w + t == t;
      assert w + f[0] == f[0];
      assert [f[0]] + f[1..] == f;
    } else {
      SplitOnWhiteSpacePrefix(w[1..], t);
      assert (w + t)[0] == w[0];
      assert (w + t)[1..] == w[1..] + t;
      assert [w[0]] + (w[1..] + f[0]) == w + f[0];
    }
  }

  /** Joining words with single spaces and splitting on white space gives the words back,
      when no word holds white space and only the first and the last may be empty. */
  lemma {:induction false} SplitOnWhiteSpaceJoin(ws: seq<string>)
    requires |ws| >= 1
    requires forall i :: 0 <= i < |ws| ==> NoWhiteSpace(ws[i])
    requires forall i :: 0 < i < |ws| - 1 ==> ws[i] != []
    ensures SplitOnWhiteSpace(Join(ws, " ")) == ws
  {
    if |ws| == 1 {
      SplitOnWhiteSpacePrefix(ws[0], []);
      assert ws[0] + [] == ws[0];
    } else {
      var j := Join(ws[1..], " ");
      SplitOnWhiteSpaceJoin(ws[1..]);
      assert j == [] || j[0] == ws[1][0];
      assert LeadingWhiteSpace(" " + j) == 1 + LeadingWhiteSpace(j);
      assert TrimStart(" " + j) == j;
      assert SplitOnWhiteSpace(" " + j) == [[]] + ws[1..];
      SplitOnWhiteSpacePrefix(ws[0], " " + j);
      assert Join(ws, " ") == ws[0] + (" " + j);
      assert ws[0] + [] == ws[0];
      assert [ws[0]] + ws[1..] == ws;
    }
  }

  /** ASCII-only `toLowerCase` of one character. */
  function LowerChar(c: char): char {
    if 'A' <= c <= 'Z' then (c as int + 32) as char else c
  }

  /** ASCII-only `toUpperCase` of one character. */
  function UpperChar(c: char): char {
    if 'a' <= c <= 'z' then (c as int - 32) as char else c
  }

  function Lower(s: string): string {
    seq(|s|, i requires 0 <= i < |s| => LowerChar(s[i]))
  }

  function Upper(s: string): string {
    seq(|s|, i requires 0 <= i < |s| => UpperChar(s[i]))
  }

  /** Case mapping never turns a non-white-space character into white space. */
  lemma CaseKeepsNoWhiteSpace(s: string)
    requires NoWhiteSpace(s)
    ensures NoWhiteSpace(Lower(s)) && NoWhiteSpace(Upper(s))
  {
  }

  /** The number of UTF-16 code units of one character. */
  function Utf16Width(c: char): nat {
    if c as int < 0x1_0000 then 1 else 2
  }

  /** `s.length`: the number of UTF-16 code units. */
  function Utf16Length(s: string): nat {
    if s == [] then 0 else Utf16Width(s[0]) + Utf16Length(s[1..])
  }

  /** The UTF-16 code units of the text, a surrogate pair for each character above U+FFFF. */
  function Utf16Units(s: string): (units: seq<CodeUnit>)
    ensures |units| == Utf16Length(s)
  {
    if s == [] then []
    else
      var x := s[0] as int;
      (if x < 0x1_0000 then [x]
       else [0xD800 + (x - 0x1_0000) / 0x400, 0xDC00 + (x - 0x1_0000) % 0x400])
      + Utf16Units(s[1..])
  }

  lemma {:induction false} Utf16LengthAppend(a: string, b: string)
    ensures Utf16Length(a + b) == Utf16Length(a) + Utf16Length(b)
  {
    if a != [] {
      assert (a + b)[0] == a[0];
      assert (a + b)[1..] == a[1..] + b;
      Utf16LengthAppend(a[1..], b);
    } else {
      assert a + b == b;
    }
  }

  lemma {:induction false} Utf16UnitsAppend(a: string, b: string)
    ensures Utf16Units(a + b) == Utf16Units(a) + Utf16Units(b)
  {
    if a != [] {
      assert (a + b)[0] == a[0];
      assert (a + b)[1..] == a[1..] + b;
      Utf16UnitsAppend(a[1..], b);
    } else {
      assert a + b == b;
    }
  }

  /** Text without characters above U+FFFF has one code unit per character, its own
      code point. */
  lemma {:induction false} Utf16UnitsBmp(s: string)
    requires forall i :: 0 <= i < |s| ==> s[i] as int < 0x1_0000
    ensures Utf16Length(s) == |s|
    ensures forall i :: 0 <= i < |s| ==> Utf16Units(s)[i] == s[i] as int
  {
    if s != [] {
      Utf16UnitsBmp(s[1..]);
    }
  }

  /** At least one code unit per character. */
  lemma {:induction false} Utf16LengthAtLeast(s: string)
    ensures |s| <= Utf16Length(s) <= 2 * |s|
  {
    if s != [] {
      Utf16LengthAtLeast(s[1..]);
    }
  }
}
