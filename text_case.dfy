/** The text-case converter (pages/tools/text-case-converter.tsx). "lowercase" and
    "UPPERCASE" map the whole text. The other five styles first build a word list: trim,
    turn every run of `_` or `-` into one space, put a space into every lower-to-upper
    letter boundary, split on white-space runs, and lower-case each word. They then join
    the words. Case mapping is ASCII only: `toLowerCase` and `toUpperCase` of other
    letters are not modelled. */
module TextCase {
  import opened JsString

  datatype CaseType =
    | Lowercase
    | Uppercase
    | CamelCase
    | PascalCase
    | SnakeCase
    | KebabCase
    | ConstantCase

  predicate IsDash(c: char) {
    c == '_' || c == '-'
  }

  predicate DashFree(s: string) {
    '_' !in s && '-' !in s
  }

  predicate IsAsciiLower(c: char) {
    'a' <= c <= 'z'
  }

  predicate IsAsciiUpper(c: char) {
    'A' <= c <= 'Z'
  }

  predicate NoUpperCase(s: string) {
    forall i :: 0 <= i < |s| ==> !IsAsciiUpper(s[i])
  }

  predicate NoLowerCase(s: string) {
    forall i :: 0 <= i < |s| ==> !IsAsciiLower(s[i])
  }

  /** No lower-case letter is directly followed by an upper-case one. */
  predicate NoBoundary(s: string) {
    forall i :: 0 <= i < |s| - 1 ==> !(IsAsciiLower(s[i]) && IsAsciiUpper(s[i + 1]))
  }

  /** The text after its leading run of `_` and `-`. */
  function DropDashes(s: string): (r: string)
    ensures |r| <= |s| && r == s[|s| - |r|..]
    ensures r == [] || !IsDash(r[0])
  {
    if s != [] && IsDash(s[0]) then DropDashes(s[1..]) else s
  }

  /** `replace(/[_\-]+/g, " ")`: each maximal run of `_` and `-` becomes one space. */
  function SpaceDashes(s: string): string
    decreases |s|
  {
    if s == [] then []
    else if IsDash(s[0]) then " " + SpaceDashes(DropDashes(s[1..]))
    else [s[0]] + SpaceDashes(s[1..])
  }

  /** `replace(/([a-z])([A-Z])/g, "$1 $2")`: a space after every lower-case letter that
      an upper-case letter follows. Scanning one character at a time gives the same text
      as the regular expression's left-to-right, non-overlapping matches, since a match
      ends with an upper-case letter and so never overlaps the next one. */
  function SplitCamel(s: string): string {
    if s == [] then []
    else if |s| >= 2 && IsAsciiLower(s[0]) && IsAsciiUpper(s[1]) then [s[0], ' '] + SplitCamel(s[1..])
    else [s[0]] + SplitCamel(s[1..])
  }

  function LowerAll(ws: seq<string>): (r: seq<string>)
    ensures |r| == |ws|
  {
    seq(|ws|, i requires 0 <= i < |ws| => Lower(ws[i]))
  }

  function UpperAll(ws: seq<string>): (r: seq<string>)
    ensures |r| == |ws|
  {
    seq(|ws|, i requires 0 <= i < |ws| => Upper(ws[i]))
  }

  /** The word list of `convertText`. */
  function Words(text: string): (words: seq<string>)
    ensures |words| >= 1
  {
    LowerAll(SplitOnWhiteSpace(SplitCamel(SpaceDashes(Trim(text)))))
  }

  /** `w.charAt(0).toUpperCase() + w.slice(1)`. */
  function Capitalize(w: string): (r: string)
    ensures |r| == |w|
  {
    if w == [] then [] else [UpperChar(w[0])] + w[1..]
  }

  function CapitalizeAll(ws: seq<string>): (r: seq<string>)
    ensures |r| == |ws|
  {
    seq(|ws|, i requires 0 <= i < |ws| => Capitalize(ws[i]))
  }

  /** `convertText`. */
  function ConvertText(text: string, caseType: CaseType): string {
    var words := Words(text);
    match caseType
    case Lowercase => Lower(text)
    case Uppercase => Upper(text)
    case CamelCase => words[0] + Join(CapitalizeAll(words[1..]), "")
    case PascalCase => Join(CapitalizeAll(words), "")
    case SnakeCase => Join(words, "_")
    case KebabCase => Join(words, "-")
    case ConstantCase => Upper(Join(words, "_"))
  }

  // ---------------------------------------------------------------------------------
  // The word list

  /** Replacing the dash runs leaves no dash. */
  lemma {:induction false} SpaceDashesFree(s: string)
    ensures DashFree(SpaceDashes(s))
    decreases |s|
  {
    if s != [] {
      if IsDash(s[0]) {
        SpaceDashesFree(DropDashes(s[1..]));
      } else {
        SpaceDashesFree(s[1..]);
      }
    }
  }

  /** Splitting camel case adds nothing but spaces. */
  lemma {:induction false} SplitCamelKeeps(s: string, c: char)
    requires c != ' ' && c !in s
    ensures c !in SplitCamel(s)
  {
    if s != [] {
      assert c !in s[1..] by { assert forall k :: 0 <= k < |s[1..]| ==> s[1..][k] == s[k + 1]; }
      SplitCamelKeeps(s[1..], c);
    }
  }

  /** Lower-casing a word adds no `_`, `-` or white space and leaves no upper-case
      letter. */
  lemma LowerDashFree(w: string)
    requires DashFree(w)
    ensures DashFree(Lower(w)) && NoUpperCase(Lower(w))
    ensures NoWhiteSpace(w) ==> NoWhiteSpace(Lower(w))
  {
    forall i | 0 <= i < |w| ensures Lower(w)[i] != '_' && Lower(w)[i] != '-' {
      assert w[i] in w;
    }
  }

  /** Every word is free of white space, of `_` and `-`, and of upper-case letters; only
      the first and the last word can be empty. */
  lemma WordsShape(text: string)
    ensures forall i :: 0 <= i < |Words(text)| ==>
      NoWhiteSpace(Words(text)[i]) && DashFree(Words(text)[i]) && NoUpperCase(Words(text)[i])
    ensures forall i :: 0 < i < |Words(text)| - 1 ==> Words(text)[i] != []
  {
    var t := SplitCamel(SpaceDashes(Trim(text)));
    SpaceDashesFree(Trim(text));
    SplitCamelKeeps(SpaceDashes(Trim(text)), '_');
    SplitCamelKeeps(SpaceDashes(Trim(text)), '-');
    var f := SplitOnWhiteSpace(t);
    SplitOnWhiteSpaceKeeps(t, '_');
    SplitOnWhiteSpaceKeeps(t, '-');
    SplitOnWhiteSpaceInterior(t);
    forall i | 0 <= i < |f|
      ensures NoWhiteSpace(Words(text)[i]) && DashFree(Words(text)[i]) && NoUpperCase(Words(text)[i])
    {
      LowerDashFree(f[i]);
    }
  }

  // ---------------------------------------------------------------------------------
  // The joined styles

  lemma {:induction false} JoinNoWhiteSpace(ws: seq<string>, sep: string)
    requires forall i :: 0 <= i < |ws| ==> NoWhiteSpace(ws[i])
    requires NoWhiteSpace(sep)
    ensures NoWhiteSpace(Join(ws, sep))
  {
    if |ws| >= 2 {
      JoinNoWhiteSpace(ws[1..], sep);
    }
  }

  /** Every style except "lowercase" and "UPPERCASE" gives text without white space. */
  lemma NoWhiteSpaceOutputs(text: string, caseType: CaseType)
    requires caseType != Lowercase && caseType != Uppercase
    ensures NoWhiteSpace(ConvertText(text, caseType))
  {
    var ws := Words(text);
    WordsShape(text);
    match caseType
    case CamelCase =>
      JoinNoWhiteSpace(CapitalizeAll(ws[1..]), "");
    case PascalCase =>
      JoinNoWhiteSpace(CapitalizeAll(ws), "");
    case SnakeCase =>
      JoinNoWhiteSpace(ws, "_");
    case KebabCase =>
      JoinNoWhiteSpace(ws, "-");
    case ConstantCase =>
      JoinNoWhiteSpace(ws, "_");
      CaseKeepsNoWhiteSpace(Join(ws, "_"));
  }

  /** "lowercase" and "UPPERCASE" map the original text character by character, white
      space, dashes and all, instead of joining the word list. */
  lemma WholeTextStyles(text: string)
    ensures |ConvertText(text, Lowercase)| == |text| == |ConvertText(text, Uppercase)|
    ensures forall i :: 0 <= i < |text| && !IsAsciiUpper(text[i]) ==> ConvertText(text, Lowercase)[i] == text[i]
    ensures forall i :: 0 <= i < |text| && !IsAsciiLower(text[i]) ==> ConvertText(text, Uppercase)[i] == text[i]
    ensures NoUpperCase(ConvertText(text, Lowercase)) && NoLowerCase(ConvertText(text, Uppercase))
  {
  }

  /** CONSTANT_CASE is snake_case upper-cased. This only records the definition, the
      page's `words.join("_").toUpperCase()`, in terms of the snake_case output;
      `ConstantWords` proves what follows from it. */
  lemma ConstantIsUpperSnake(text: string)
    ensures ConvertText(text, ConstantCase) == Upper(ConvertText(text, SnakeCase))
  {
  }

  /** kebab-case is snake_case with every `_` turned into `-`: no word holds a `_`. */
  lemma KebabIsSnakeReplaced(text: string)
    ensures ConvertText(text, KebabCase) == ReplaceAll(ConvertText(text, SnakeCase), '_', "-")
  {
    WordsShape(text);
    JoinReplace(Words(text), '_', "-");
  }

  lemma {:induction false} JoinReplace(ws: seq<string>, c: char, r: string)
    requires forall i :: 0 <= i < |ws| ==> c !in ws[i]
    ensures ReplaceAll(Join(ws, [c]), c, r) == Join(ws, r)
  {
    if |ws| == 1 {
      ReplaceAllFree(ws[0], c, r);
    } else if |ws| >= 2 {
      JoinReplace(ws[1..], c, r);
      var j := Join(ws[1..], [c]);
      assert Join(ws, [c]) == ws[0] + ([c] + j);
      ReplaceAllAppend(ws[0], [c] + j, c, r);
      ReplaceAllAppend([c], j, c, r);
      ReplaceAllFree(ws[0], c, r);
      assert ReplaceAll([c], c, r) == r + ReplaceAll([], c, r);
    }
  }

  /** `words.join("")` splits off its first word. */
  lemma JoinEmptyFirst(ws: seq<string>)
    requires |ws| >= 1
    ensures Join(ws, "") == ws[0] + Join(ws[1..], "")
  {
    if |ws| == 1 {
      assert ws[0] + [] == ws[0];
    }
  }

  /** Capitalized words joined together start with a character upper-casing keeps. */
  lemma {:induction false} CapitalizedStart(xs: seq<string>)
    ensures var j := Join(CapitalizeAll(xs), ""); j == [] || UpperChar(j[0]) == j[0]
  {
    if xs != [] {
      JoinEmptyFirst(CapitalizeAll(xs));
      assert CapitalizeAll(xs)[1..] == CapitalizeAll(xs[1..]);
      CapitalizedStart(xs[1..]);
    }
  }

  /** PascalCase is camelCase with its first character upper-cased: the two differ at
      most in that character. */
  lemma CamelPascal(text: string)
    ensures ConvertText(text, PascalCase) == Capitalize(ConvertText(text, CamelCase))
  {
    CamelPascalWords(Words(text));
  }

  lemma CamelPascalWords(ws: seq<string>)
    requires |ws| >= 1
    ensures Join(CapitalizeAll(ws), "") == Capitalize(ws[0] + Join(CapitalizeAll(ws[1..]), ""))
  {
    var w, rest := ws[0], Join(CapitalizeAll(ws[1..]), "");
    var c := CapitalizeAll(ws);
    JoinEmptyFirst(c);
    assert c[0] == Capitalize(w) && c[1..] == CapitalizeAll(ws[1..]);
    if w == [] {
      CapitalizedStart(ws[1..]);
      CapitalizeCapitalized(rest);
      assert w + rest == rest && Capitalize(w) + rest == rest;
    } else {
      CapitalizeFirst(w, rest);
    }
  }

  lemma CapitalizeCapitalized(s: string)
    requires s == [] || UpperChar(s[0]) == s[0]
    ensures Capitalize(s) == s
  {
    if s != [] {
      assert [s[0]] + s[1..] == s;
    }
  }

  lemma CapitalizeFirst(w: string, rest: string)
    requires w != []
    ensures Capitalize(w) + rest == Capitalize(w + rest)
  {
    assert (w + rest)[0] == w[0] && (w + rest)[1..] == w[1..] + rest;
    ConcatAssoc([UpperChar(w[0])], w[1..], rest);
  }

  // ---------------------------------------------------------------------------------
  // Re-converting a joined style

  lemma {:induction false} SplitCamelAppend(a: string, b: string)
    requires a == [] || b == [] || !IsAsciiLower(a[|a| - 1]) || !IsAsciiUpper(b[0])
    ensures SplitCamel(a + b) == SplitCamel(a) + SplitCamel(b)
  {
    if a == [] {
      assert a + b == b;
    } else if |a| == 1 {
      assert (a + b)[1..] == b;
      assert SplitCamel(a) == [a[0]] + SplitCamel([]);
    } else {
      var ab := a + b;
      assert ab[0] == a[0] && ab[1] == a[1];
      assert ab[1..] == a[1..] + b;
      SplitCamelAppend(a[1..], b);
    }
  }

  lemma {:induction false} SplitCamelUnchanged(s: string)
    requires NoBoundary(s)
    ensures SplitCamel(s) == s
  {
    if s != [] {
      SplitCamelUnchanged(s[1..]);
      assert [s[0]] + s[1..] == s;
    }
  }

  /** Words without a boundary, joined by spaces, are left as they are. */
  lemma {:induction false} SplitCamelJoin(ws: seq<string>)
    requires forall i :: 0 <= i < |ws| ==> NoBoundary(ws[i])
    ensures SplitCamel(Join(ws, " ")) == Join(ws, " ")
  {
    if |ws| == 1 {
      SplitCamelUnchanged(ws[0]);
    } else if |ws| >= 2 {
      SplitCamelJoin(ws[1..]);
      SplitCamelSpace(ws[0], Join(ws[1..], " "));
    }
  }

  lemma SplitCamelSpace(w: string, j: string)
    requires NoBoundary(w) && SplitCamel(j) == j
    ensures SplitCamel(w + " " + j) == w + " " + j
  {
    SplitCamelUnchanged(w);
    var t := " " + j;
    assert t[1..] == j;
    assert SplitCamel(t) == t;
    SplitCamelAppend(w, t);
    assert w + " " + j == w + t;
  }

  lemma {:induction false} SpaceDashesPrefix(w: string, t: string)
    requires DashFree(w)
    ensures SpaceDashes(w + t) == w + SpaceDashes(t)
  {
    if w == [] {
      assert w + t == t;
    } else {
      DashFreeTail(w);
      SpaceDashesPrefix(w[1..], t);
      ConsSplit(w);
      ConcatAssoc([w[0]], w[1..], t);
      SpaceDashesCons(w[0], w[1..] + t);
      ConcatAssoc([w[0]], w[1..], SpaceDashes(t));
    }
  }

  lemma DashFreeTail(w: string)
    requires w != [] && DashFree(w)
    ensures !IsDash(w[0]) && DashFree(w[1..])
  {
    assert w[0] in w;
    assert forall c :: c in w[1..] ==> c in w;
  }

  lemma SpaceDashesCons(c: char, u: string)
    requires !IsDash(c)
    ensures SpaceDashes([c] + u) == [c] + SpaceDashes(u)
  {
    assert ([c] + u)[1..] == u;
  }

  /** Dash-free words joined by one dash get a space in each dash's place. */
  lemma {:induction false} SpaceDashesJoin(ws: seq<string>, d: char)
    requires |ws| >= 1 && IsDash(d)
    requires forall i :: 0 <= i < |ws| ==> DashFree(ws[i])
    requires forall i :: 0 < i < |ws| - 1 ==> ws[i] != []
    ensures SpaceDashes(Join(ws, [d])) == Join(ws, " ")
  {
    if |ws| == 1 {
      SpaceDashesPrefix(ws[0], []);
      assert ws[0] + [] == ws[0];
    } else {
      var j := Join(ws[1..], [d]);
      SpaceDashesJoin(ws[1..], d);
      assert j == [] || j[0] == ws[1][0];
      assert j != [] ==> ws[1][0] in ws[1];
      assert DropDashes(j) == j;
      assert ([d] + j)[1..] == j;
      SpaceDashesPrefix(ws[0], [d] + j);
      assert Join(ws, [d]) == ws[0] + ([d] + j);
    }
  }

  lemma TrimUnchanged(s: string)
    requires NoWhiteSpace(s)
    ensures Trim(s) == s
  {
    assert LeadingWhiteSpace(s) == 0;
    assert s[0..] == s;
    assert TrailingStart(s) == |s|;
  }

  /** The word list of words joined by `_` or `-`: the same words, lower-cased. */
  lemma WordsOfJoined(ws: seq<string>, d: char)
    requires |ws| >= 1 && IsDash(d)
    requires forall i :: 0 <= i < |ws| ==> NoWhiteSpace(ws[i]) && DashFree(ws[i]) && NoBoundary(ws[i])
    requires forall i :: 0 < i < |ws| - 1 ==> ws[i] != []
    ensures Words(Join(ws, [d])) == LowerAll(ws)
  {
    var j := Join(ws, [d]);
    JoinNoWhiteSpace(ws, [d]);
    TrimUnchanged(j);
    SpaceDashesJoin(ws, d);
    SplitCamelJoin(ws);
    SplitOnWhiteSpaceJoin(ws);
  }

  /** Converting snake_case output to snake_case again finds the same words, so the
      style is idempotent. */
  lemma SnakeWords(text: string)
    ensures Words(ConvertText(text, SnakeCase)) == Words(text)
    ensures ConvertText(ConvertText(text, SnakeCase), SnakeCase) == ConvertText(text, SnakeCase)
  {
    var ws := Words(text);
    WordsShape(text);
    WordsOfJoined(ws, '_');
    LowerAllUnchanged(ws);
  }

  lemma KebabWords(text: string)
    ensures Words(ConvertText(text, KebabCase)) == Words(text)
    ensures ConvertText(ConvertText(text, KebabCase), KebabCase) == ConvertText(text, KebabCase)
  {
    var ws := Words(text);
    WordsShape(text);
    WordsOfJoined(ws, '-');
    LowerAllUnchanged(ws);
  }

  lemma LowerAllUnchanged(ws: seq<string>)
    requires forall i :: 0 <= i < |ws| ==> NoUpperCase(ws[i])
    ensures LowerAll(ws) == ws
  {
    forall i | 0 <= i < |ws| ensures LowerAll(ws)[i] == ws[i] {
      assert Lower(ws[i]) == ws[i];
    }
  }

  lemma {:induction false} UpperJoin(ws: seq<string>)
    ensures Upper(Join(ws, "_")) == Join(UpperAll(ws), "_")
  {
    if |ws| >= 2 {
      UpperJoin(ws[1..]);
      assert UpperAll(ws)[1..] == UpperAll(ws[1..]);
      var j := Join(ws[1..], "_");
      assert Join(ws, "_") == ws[0] + "_" + j;
      assert Upper(ws[0] + "_" + j) == Upper(ws[0]) + "_" + Upper(j);
    }
  }

  /** Upper-casing keeps a word free of white space and dashes, and only the interior
      words' emptiness is unchanged. */
  lemma UpperWord(w: string)
    requires NoWhiteSpace(w) && DashFree(w) && NoUpperCase(w)
    ensures NoWhiteSpace(Upper(w)) && DashFree(Upper(w)) && NoBoundary(Upper(w))
    ensures Lower(Upper(w)) == w
  {
    CaseKeepsNoWhiteSpace(w);
  }

  /** CONSTANT_CASE output read again gives the same words, so the style is
      idempotent. */
  lemma ConstantWords(text: string)
    ensures Words(ConvertText(text, ConstantCase)) == Words(text)
    ensures ConvertText(ConvertText(text, ConstantCase), ConstantCase) == ConvertText(text, ConstantCase)
  {
    var ws := Words(text);
    WordsShape(text);
    UpperJoin(ws);
    var us := UpperAll(ws);
    forall i | 0 <= i < |ws|
      ensures NoWhiteSpace(us[i]) && DashFree(us[i]) && NoBoundary(us[i]) && Lower(us[i]) == ws[i]
    {
      UpperWord(ws[i]);
    }
    WordsOfJoined(us, '_');
    assert LowerAll(us) == ws;
  }
}
