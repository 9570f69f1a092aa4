/** The text diff checker (pages/tools/text-diff-checker.tsx). Each input is limited to
    10000 UTF-16 code units. The two texts are compared line by line or word by word by
    the `diff` library, whose result is a list of parts, each common to both texts, only
    in the second (added) or only in the first (removed). Every part gives one cell of
    each column: an added part an empty left cell and a green right cell, a removed part
    a red left cell and an empty right cell, a common part the same plain cell on both
    sides. A cell holds the part's text with its markup characters escaped, and each
    column is shown as the HTML of its cells joined.

    The diff library is a parameter; what it promises is `IsDiffOf`. The page escapes
    only "<" and ">" (`EscapeHtmlAsWritten`), so a text that holds an entity reference
    such as "&lt;" is shown as the character it names. The page model builds its cells
    with that escaping; `EscapeHtml`, which also escapes "&", is the escaping the page
    evidently means, and the cell functions take the `Escaping` to use so that both can
    be stated. `TextContent` is the text a browser shows for the HTML the page writes. */
module TextDiff {
  import opened Options
  import opened JsString

  /** A part of the diff library's result. */
  datatype Change = Change(value: string, added: bool, removed: bool)

  datatype DiffType = Lines | Words

  const CharLimit: nat := 10000
  const LimitText: string := "\U{274C} Each input is limited to 10000 characters."
  const CompareErrorText: string := "\U{274C} Error while comparing text."

  // ---------------------------------------------------------------------------------
  // The shown text of HTML

  /** The index just after the first ">", or the length when there is none. */
  function TagEnd(s: string): (n: nat)
    ensures n <= |s| && (s != [] ==> n >= 1)
  {
    if s == [] then 0 else if s[0] == '>' then 1 else 1 + TagEnd(s[1..])
  }

  /** The text a browser shows for HTML made of tags, the three entity references
      "&amp;", "&lt;" and "&gt;", and other characters. */
  function TextContent(s: string): string
    decreases |s|
  {
    if s == [] then []
    else if s[0] == '<' then TextContent(s[TagEnd(s)..])
    else if IsAmpReference(s) then "&" + TextContent(s[5..])
    else if IsLtGtReference(s) then [if s[1] == 'l' then '<' else '>'] + TextContent(s[4..])
    else [s[0]] + TextContent(s[1..])
  }

  /** The text starts with "&amp;". */
  predicate IsAmpReference(s: string) {
    |s| >= 5 && s[0] == '&' && s[1] == 'a' && s[2] == 'm' && s[3] == 'p' && s[4] == ';'
  }

  /** The text starts with "&lt;" or "&gt;". */
  predicate IsLtGtReference(s: string) {
    |s| >= 4 && s[0] == '&' && (s[1] == 'l' || s[1] == 'g') && s[2] == 't' && s[3] == ';'
  }

  /** A start or end tag: "<", no ">" before the last character, ">". */
  predicate IsTag(t: string) {
    |t| >= 2 && t[0] == '<' && t[|t| - 1] == '>' && forall i :: 0 <= i < |t| - 1 ==> t[i] != '>'
  }

  lemma {:induction false} TagEndOf(t: string, rest: string)
    requires |t| >= 1 && t[|t| - 1] == '>' && forall i :: 0 <= i < |t| - 1 ==> t[i] != '>'
    ensures TagEnd(t + rest) == |t|
  {
    if |t| > 1 {
      assert (t + rest)[1..] == t[1..] + rest;
      TagEndOf(t[1..], rest);
    }
  }

  /** A tag shows nothing. */
  lemma TagShowsNothing(t: string, rest: string)
    requires IsTag(t)
    ensures TextContent(t + rest) == TextContent(rest)
  {
    TagEndOf(t, rest);
    assert (t + rest)[|t|..] == rest;
  }

  // ---------------------------------------------------------------------------------
  // Escaping

  /** `escapeHtml` as the page writes it. */
  function EscapeHtmlAsWritten(s: string): string {
    ReplaceAll(ReplaceAll(s, '<', "&lt;"), '>', "&gt;")
  }

  function EscapeChar(c: char): string {
    if c == '&' then "&amp;" else if c == '<' then "&lt;" else if c == '>' then "&gt;" else [c]
  }

  /** Escaping that also writes "&" as "&amp;". */
  function EscapeHtml(s: string): string {
    if s == [] then [] else EscapeChar(s[0]) + EscapeHtml(s[1..])
  }

  lemma {:induction false} EscapeHtmlAppend(a: string, b: string)
    ensures EscapeHtml(a + b) == EscapeHtml(a) + EscapeHtml(b)
  {
    if a == [] {
      assert a + b == b;
    } else {
      assert (a + b)[1..] == a[1..] + b;
      EscapeHtmlAppend(a[1..], b);
    }
  }

  lemma ReplaceOne(x: char, c: char, r: string)
    ensures ReplaceAll([x], c, r) == if x == c then r else [x]
  {
    assert ReplaceAll([x], c, r) == (if x == c then r else [x]) + ReplaceAll([], c, r);
  }

  /** The corrected escaping is the page's two replacements preceded by a replacement of
      "&". */
  lemma {:induction false} EscapeHtmlReplaces(s: string)
    ensures EscapeHtml(s) == EscapeHtmlAsWritten(ReplaceAll(s, '&', "&amp;"))
  {
    if s != [] {
      EscapeHtmlReplaces(s[1..]);
      var h := if s[0] == '&' then "&amp;" else [s[0]];
      var t := ReplaceAll(s[1..], '&', "&amp;");
      assert ReplaceAll(s, '&', "&amp;") == h + t;
      AsWrittenAppend(h, t);
      EscapeCharReplaces(s[0]);
      EscapeHtmlCons(s);
    }
  }

  lemma AsWrittenAppend(a: string, b: string)
    ensures EscapeHtmlAsWritten(a + b) == EscapeHtmlAsWritten(a) + EscapeHtmlAsWritten(b)
  {
    ReplaceAllAppend(a, b, '<', "&lt;");
    ReplaceAllAppend(ReplaceAll(a, '<', "&lt;"), ReplaceAll(b, '<', "&lt;"), '>', "&gt;");
  }

  /** One character: "&" is written "&amp;" first, then the page's two replacements. */
  lemma EscapeCharReplaces(x: char)
    ensures EscapeChar(x) == EscapeHtmlAsWritten(if x == '&' then "&amp;" else [x])
  {
    if x == '&' {
      ReplaceAllFree("&amp;", '<', "&lt;");
      ReplaceAllFree("&amp;", '>', "&gt;");
    } else if x == '<' {
      ReplaceOne('<', '<', "&lt;");
      ReplaceAllFree("&lt;", '>', "&gt;");
    } else {
      ReplaceOne(x, '<', "&lt;");
      ReplaceOne(x, '>', "&gt;");
    }
  }


  /** Without "&" in the text the page's escaping is the corrected one. */
  lemma EscapeAsWrittenWithoutAmpersand(s: string)
    requires '&' !in s
    ensures EscapeHtmlAsWritten(s) == EscapeHtml(s)
  {
    EscapeHtmlReplaces(s);
    ReplaceAllFree(s, '&', "&amp;");
  }

  /** The escaped text holds no markup character, whichever escaping is used. */
  lemma NoMarkup(s: string)
    ensures '<' !in EscapeHtmlAsWritten(s) && '>' !in EscapeHtmlAsWritten(s)
    ensures '<' !in EscapeHtml(s) && '>' !in EscapeHtml(s)
  {
    var once := ReplaceAll(s, '<', "&lt;");
    if '<' in EscapeHtmlAsWritten(s) {
      ReplaceAllRemoves(once, '>', "&gt;", '<');
      ReplaceAllRemoves(s, '<', "&lt;", '<');
    }
    if '>' in EscapeHtmlAsWritten(s) {
      ReplaceAllRemoves(once, '>', "&gt;", '>');
    }
    EscapeHtmlReplaces(s);
    var amp := ReplaceAll(s, '&', "&amp;");
    var once' := ReplaceAll(amp, '<', "&lt;");
    if '<' in EscapeHtml(s) {
      ReplaceAllRemoves(once', '>', "&gt;", '<');
      ReplaceAllRemoves(amp, '<', "&lt;", '<');
    }
    if '>' in EscapeHtml(s) {
      ReplaceAllRemoves(once', '>', "&gt;", '>');
    }
  }

  /** An escaped character shows as the character. */
  lemma EscapeCharShows(c: char, t: string)
    ensures TextContent(EscapeChar(c) + t) == [c] + TextContent(t)
  {
    var s := EscapeChar(c) + t;
    if c == '&' {
      assert IsAmpReference(s) && s[5..] == t;
    } else if c == '<' || c == '>' {
      assert !IsAmpReference(s) && IsLtGtReference(s) && s[4..] == t;
    } else {
      assert s[0] == c && s[1..] == t;
    }
  }

  /** The escaped text shows as the text itself. */
  lemma {:induction false} EscapedShowsText(v: string, rest: string)
    ensures TextContent(EscapeHtml(v) + rest) == v + TextContent(rest)
  {
    if v == [] {
      assert EscapeHtml(v) + rest == rest;
    } else {
      EscapedShowsText(v[1..], rest);
      EscapeHtmlCons(v);
      EscapedStep(v[0], EscapeHtml(v[1..]), rest);
      ConcatAssoc([v[0]], v[1..], TextContent(rest));
      ConsSplit(v);
    }
  }

  lemma EscapeHtmlCons(v: string)
    requires v != []
    ensures EscapeHtml(v) == EscapeChar(v[0]) + EscapeHtml(v[1..])
  {
  }

  lemma EscapedStep(c: char, w: string, rest: string)
    ensures TextContent((EscapeChar(c) + w) + rest) == [c] + TextContent(w + rest)
  {
    ConcatAssoc(EscapeChar(c), w, rest);
    EscapeCharShows(c, w + rest);
  }


  /** Escaping loses nothing: different texts escape differently. */
  lemma EscapeInjective(a: string, b: string)
    requires EscapeHtml(a) == EscapeHtml(b)
    ensures a == b
  {
    EscapedShowsText(a, []);
    EscapedShowsText(b, []);
    assert EscapeHtml(a) + [] == EscapeHtml(a) && EscapeHtml(b) + [] == EscapeHtml(b);
  }

  /** As written, the text "&lt;" and the text "<" escape to the same HTML and both show
      as "<". */
  lemma EntityShownAsCharacter()
    ensures EscapeHtmlAsWritten("&lt;") == EscapeHtmlAsWritten("<") == "&lt;"
    ensures TextContent(EscapeHtmlAsWritten("&lt;")) == "<"
  {
    ReplaceAllFree("&lt;", '<', "&lt;");
    ReplaceAllFree("&lt;", '>', "&gt;");
    ReplaceOne('<', '<', "&lt;");
    EscapeCharShows('<', []);
    assert EscapeChar('<') + [] == "&lt;";
  }

  // ---------------------------------------------------------------------------------
  // The columns

  /** A highlighting start tag for a background colour. */
  function HighlightOpen(colour: string): string {
    "<span class=\"" + colour + " text-white rounded px-1" + "\">"
  }

  const GreenOpen: string := HighlightOpen("bg-green-800")
  const RedOpen: string := HighlightOpen("bg-red-800")
  const PlainOpen: string := "<span>"
  const Close: string := "</span>"

  /** The page's `escapeHtml`, or the escaping that also writes "&". */
  datatype Escaping = AsWritten | Corrected

  function Escape(e: Escaping, v: string): string {
    if e == AsWritten then EscapeHtmlAsWritten(v) else EscapeHtml(v)
  }

  function Wrap(open: string, v: string, e: Escaping): string {
    open + (Escape(e, v) + Close)
  }

  /** The left cell of a part. */
  function LeftCell(p: Change, e: Escaping): string {
    if p.added then "" else if p.removed then Wrap(RedOpen, p.value, e) else Wrap(PlainOpen, p.value, e)
  }

  /** The right cell of a part. */
  function RightCell(p: Change, e: Escaping): string {
    if p.added then Wrap(GreenOpen, p.value, e) else if p.removed then "" else Wrap(PlainOpen, p.value, e)
  }

  /** `cells.join("")`. */
  function Concat(cells: seq<string>): string {
    if cells == [] then [] else cells[0] + Concat(cells[1..])
  }

  function LeftCells(parts: seq<Change>, e: Escaping): seq<string> {
    seq(|parts|, i requires 0 <= i < |parts| => LeftCell(parts[i], e))
  }

  function RightCells(parts: seq<Change>, e: Escaping): seq<string> {
    seq(|parts|, i requires 0 <= i < |parts| => RightCell(parts[i], e))
  }

  /** The first text of a diff: its parts that are not added. */
  function OldText(parts: seq<Change>): string {
    if parts == [] then [] else (if parts[0].added then "" else parts[0].value) + OldText(parts[1..])
  }

  /** The second text of a diff: its parts that are not removed. */
  function NewText(parts: seq<Change>): string {
    if parts == [] then []
    else (if parts[0].added || !parts[0].removed then parts[0].value else "") + NewText(parts[1..])
  }

  /** What the diff library promises of its result for two texts. */
  predicate IsDiffOf(parts: seq<Change>, a: string, b: string) {
    OldText(parts) == a && NewText(parts) == b
  }

  /** The `forEach` of `handleCompare`: one cell per part in each column, escaped as the
      page escapes. */
  method BuildColumns(parts: seq<Change>) returns (left: seq<string>, right: seq<string>)
    ensures left == LeftCells(parts, AsWritten) && right == RightCells(parts, AsWritten)
  {
    left, right := [], [];
    var i := 0;
    while i < |parts|
      invariant 0 <= i <= |parts|
      invariant left == LeftCells(parts[..i], AsWritten) && right == RightCells(parts[..i], AsWritten)
    {
      var l, r := PartCells(parts[i]);
      LeftCellsSnoc(parts, i, AsWritten);
      RightCellsSnoc(parts, i, AsWritten);
      left := left + [l];
      right := right + [r];
      i := i + 1;
    }
    assert parts[..i] == parts;
  }

  lemma LeftCellsCons(parts: seq<Change>, e: Escaping)
    requires parts != []
    ensures Concat(LeftCells(parts, e)) == LeftCell(parts[0], e) + Concat(LeftCells(parts[1..], e))
  {
    assert LeftCells(parts, e)[1..] == LeftCells(parts[1..], e);
  }

  lemma RightCellsCons(parts: seq<Change>, e: Escaping)
    requires parts != []
    ensures Concat(RightCells(parts, e)) == RightCell(parts[0], e) + Concat(RightCells(parts[1..], e))
  {
    assert RightCells(parts, e)[1..] == RightCells(parts[1..], e);
  }

  lemma LeftCellsSnoc(parts: seq<Change>, i: nat, e: Escaping)
    requires i < |parts|
    ensures LeftCells(parts[..i + 1], e) == LeftCells(parts[..i], e) + [LeftCell(parts[i], e)]
  {
    var p := parts[..i + 1];
    var a, b := LeftCells(p, e), LeftCells(parts[..i], e) + [LeftCell(parts[i], e)];
    assert |a| == |b|;
    forall j | 0 <= j < |a|
      ensures a[j] == b[j]
    {
      assert a[j] == LeftCell(p[j], e);
      if j < i {
        assert p[j] == parts[..i][j];
      }
    }
  }

  lemma RightCellsSnoc(parts: seq<Change>, i: nat, e: Escaping)
    requires i < |parts|
    ensures RightCells(parts[..i + 1], e) == RightCells(parts[..i], e) + [RightCell(parts[i], e)]
  {
    var p := parts[..i + 1];
    var a, b := RightCells(p, e), RightCells(parts[..i], e) + [RightCell(parts[i], e)];
    assert |a| == |b|;
    forall j | 0 <= j < |a|
      ensures a[j] == b[j]
    {
      assert a[j] == RightCell(p[j], e);
      if j < i {
        assert p[j] == parts[..i][j];
      }
    }
  }

  /** The body of the `forEach`: the two cells of one part, the escaped text computed
      once for a common part. */
  method PartCells(part: Change) returns (l: string, r: string)
    ensures l == LeftCell(part, AsWritten) && r == RightCell(part, AsWritten)
  {
    if part.added {
      l, r := "", GreenOpen + (ReplaceAll(ReplaceAll(part.value, '<', "&lt;"), '>', "&gt;") + Close);
    } else if part.removed {
      l, r := RedOpen + (ReplaceAll(ReplaceAll(part.value, '<', "&lt;"), '>', "&gt;") + Close), "";
    } else {
      var escaped := ReplaceAll(ReplaceAll(part.value, '<', "&lt;"), '>', "&gt;");
      l := PlainOpen + (escaped + Close);
      r := PlainOpen + (escaped + Close);
    }
  }

  lemma HighlightTag(colour: string)
    requires '>' !in colour
    ensures IsTag(HighlightOpen(colour))
  {
    var t := HighlightOpen(colour);
    var tail := " text-white rounded px-1";
    assert '>' !in tail;
    forall i | 0 <= i < |t| - 1 ensures t[i] != '>' {
      if 13 <= i < 13 + |colour| {
        assert t[i] == colour[i - 13];
      } else if 13 + |colour| <= i < 13 + |colour| + |tail| {
        assert t[i] == tail[i - 13 - |colour|];
      }
    }
  }

  lemma OpenTags()
    ensures IsTag(GreenOpen) && IsTag(RedOpen) && IsTag(PlainOpen) && IsTag(Close)
  {
    assert '>' !in "bg-green-800" && '>' !in "bg-red-800";
    HighlightTag("bg-green-800");
    HighlightTag("bg-red-800");
  }

  /** A cell shows the part's text: always with the corrected escaping, and with the
      page's when the text has no "&". */
  lemma WrappedShowsText(open: string, v: string, rest: string, e: Escaping)
    requires IsTag(open) && (e == AsWritten ==> '&' !in v)
    ensures TextContent(Wrap(open, v, e) + rest) == v + TextContent(rest)
  {
    OpenTags();
    if e == AsWritten {
      EscapeAsWrittenWithoutAmpersand(v);
    }
    assert Escape(e, v) == EscapeHtml(v);
    assert Wrap(open, v, e) + rest == open + (EscapeHtml(v) + (Close + rest));
    TagShowsNothing(open, EscapeHtml(v) + (Close + rest));
    EscapedShowsText(v, Close + rest);
    TagShowsNothing(Close, rest);
  }

  /** The left column shows the first text of the diff; with the page's escaping, when
      that text has no "&". */
  lemma {:induction false} LeftShowsOld(parts: seq<Change>, e: Escaping)
    requires e == AsWritten ==> '&' !in OldText(parts)
    ensures TextContent(Concat(LeftCells(parts, e))) == OldText(parts)
  {
    if parts != [] {
      var head := if parts[0].added then "" else parts[0].value;
      assert OldText(parts) == head + OldText(parts[1..]);
      LeftShowsOld(parts[1..], e);
      LeftCellsCons(parts, e);
      var rest := Concat(LeftCells(parts[1..], e));
      OpenTags();
      if parts[0].added {
        assert Concat(LeftCells(parts, e)) == "" + rest;
        assert "" + rest == rest;
      } else if parts[0].removed {
        WrappedShowsText(RedOpen, parts[0].value, rest, e);
      } else {
        WrappedShowsText(PlainOpen, parts[0].value, rest, e);
      }
    }
  }

  /** The right column shows the second text of the diff; with the page's escaping, when
      that text has no "&". */
  lemma {:induction false} RightShowsNew(parts: seq<Change>, e: Escaping)
    requires e == AsWritten ==> '&' !in NewText(parts)
    ensures TextContent(Concat(RightCells(parts, e))) == NewText(parts)
  {
    if parts != [] {
      var head := if parts[0].added || !parts[0].removed then parts[0].value else "";
      assert NewText(parts) == head + NewText(parts[1..]);
      RightShowsNew(parts[1..], e);
      RightCellsCons(parts, e);
      var rest := Concat(RightCells(parts[1..], e));
      OpenTags();
      if parts[0].added {
        WrappedShowsText(GreenOpen, parts[0].value, rest, e);
      } else if parts[0].removed {
        assert Concat(RightCells(parts, e)) == "" + rest;
        assert "" + rest == rest;
      } else {
        WrappedShowsText(PlainOpen, parts[0].value, rest, e);
      }
    }
  }

  /** The left column shows the first text and the right column the second: with the
      corrected escaping for all texts, with the page's for texts without "&". */
  lemma ColumnsShowTexts(parts: seq<Change>, a: string, b: string, e: Escaping)
    requires IsDiffOf(parts, a, b) && (e == AsWritten ==> '&' !in a && '&' !in b)
    ensures TextContent(Concat(LeftCells(parts, e))) == a
    ensures TextContent(Concat(RightCells(parts, e))) == b
  {
    LeftShowsOld(parts, e);
    RightShowsNew(parts, e);
  }

  /** On the page, a common part "&lt;" is shown as "<" in both columns. */
  lemma ColumnEntityShown()
    ensures var parts := [Change("&lt;", false, false)];
      TextContent(Concat(LeftCells(parts, AsWritten))) == "<" &&
      TextContent(Concat(RightCells(parts, AsWritten))) == "<"
  {
    var p := Change("&lt;", false, false);
    EntityShownAsCharacter();
    EscapeHtmlCons("<");
    assert EscapeHtml("<") == EscapeChar('<') + EscapeHtml([]);
    SameCell(PlainOpen, "&lt;", "<");
    OpenTags();
    WrappedShowsText(PlainOpen, "<", [], Corrected);
    assert "<" + TextContent([]) == "<";
    OneCell(p, AsWritten);
  }

  lemma SameCell(open: string, v: string, w: string)
    requires EscapeHtmlAsWritten(v) == EscapeHtml(w)
    ensures Wrap(open, v, AsWritten) + [] == Wrap(open, w, Corrected) + []
  {
  }

  lemma OneCell(p: Change, e: Escaping)
    ensures Concat(LeftCells([p], e)) == LeftCell(p, e) + []
    ensures Concat(RightCells([p], e)) == RightCell(p, e) + []
  {
    LeftCellsCons([p], e);
    RightCellsCons([p], e);
    assert [p][1..] == [];
  }

  /** The two columns have a cell for every part: an added part an empty left cell and
      a green right cell, a removed part a red left cell and an empty right cell, and a
      common part the same plain cell on both sides. */
  lemma CellsAligned(parts: seq<Change>, i: nat, e: Escaping)
    requires i < |parts|
    ensures |LeftCells(parts, e)| == |RightCells(parts, e)| == |parts|
    ensures parts[i].added ==>
      LeftCells(parts, e)[i] == "" && RightCells(parts, e)[i] == GreenOpen + Escape(e, parts[i].value) + Close
    ensures !parts[i].added && parts[i].removed ==>
      LeftCells(parts, e)[i] == RedOpen + Escape(e, parts[i].value) + Close && RightCells(parts, e)[i] == ""
    ensures !parts[i].added && !parts[i].removed ==>
      LeftCells(parts, e)[i] == RightCells(parts, e)[i] == PlainOpen + Escape(e, parts[i].value) + Close
  {
  }

  /** The two texts of the page's example. */
  const ExampleA: string :=
    "This is a text example.\nIt will be compared to another text.\n" +
    "This line is the same.\nThis line is to be removed."
  const ExampleB: string :=
    "This is a text example.\nIt will be compared with another text.\n" +
    "This line is the same.\nThis line is newly added."

  // ---------------------------------------------------------------------------------
  // The page

  /** The page state: the two texts, the diff mode, the two columns and the error line. */
  class Page {
    var text1: string
    var text2: string
    var diffType: DiffType
    var diffLeft: seq<string>
    var diffRight: seq<string>
    var error: string

    constructor()
      ensures text1 == "" && text2 == "" && diffType == Lines
      ensures diffLeft == [] && diffRight == [] && error == ""
    {
      text1, text2, diffType, diffLeft, diffRight, error := "", "", Lines, [], [], "";
    }

    /** The diff type select. */
    method SelectDiffType(t: DiffType)
      modifies this
      ensures diffType == t && text1 == old(text1) && text2 == old(text2)
      ensures diffLeft == old(diffLeft) && diffRight == old(diffRight) && error == old(error)
    {
      diffType := t;
    }

    /** `handleCompare`. A text over the limit shows the limit error, and a failing diff
        the compare error; both leave the columns as they were. Otherwise the columns
        are built from the parts and the error is cleared. */
    method Compare(diffLines: (string, string) -> Option<seq<Change>>,
                   diffWords: (string, string) -> Option<seq<Change>>)
      modifies this
      ensures text1 == old(text1) && text2 == old(text2) && diffType == old(diffType)
      ensures var diff := if diffType == Lines then diffLines(text1, text2) else diffWords(text1, text2);
        if Utf16Length(text1) > CharLimit || Utf16Length(text2) > CharLimit then
          error == LimitText && diffLeft == old(diffLeft) && diffRight == old(diffRight)
        else if diff.None? then
          error == CompareErrorText && diffLeft == old(diffLeft) && diffRight == old(diffRight)
        else
          error == "" && diffLeft == LeftCells(diff.value, AsWritten) && diffRight == RightCells(diff.value, AsWritten)
    {
      error := "";
      if Utf16Length(text1) > CharLimit || Utf16Length(text2) > CharLimit {
        error := LimitText;
        return;
      }
      var diff;
      if diffType == Lines {
        diff := diffLines(text1, text2);
      } else {
        diff := diffWords(text1, text2);
      }
      if diff.None? {
        error := CompareErrorText;
        return;
      }
      var left, right := BuildColumns(diff.value);
      diffLeft := left;
      diffRight := right;
    }

    /** `handleReset`. */
    method Reset()
      modifies this
      ensures diffType == old(diffType)
      ensures text1 == "" && text2 == "" && diffLeft == [] && diffRight == [] && error == ""
    {
      text1, text2, diffLeft, diffRight, error := "", "", [], [], "";
    }

    /** `handleExample`. */
    method LoadExample()
      modifies this
      ensures diffType == old(diffType)
      ensures text1 == ExampleA && text2 == ExampleB && diffLeft == [] && diffRight == [] && error == ""
    {
      text1, text2, diffLeft, diffRight, error := ExampleA, ExampleB, [], [], "";
    }
  }
}
