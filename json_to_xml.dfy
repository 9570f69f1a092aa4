/** The JSON-to-XML page (pages/tools/json-to-xml.tsx). `jsonToXml` walks the keys that
    `for ... in` gives for a value: an object's keys, an array's indices and a string's
    indices (the values being its one-character strings); numbers, booleans and null have
    none. Under every key an array emits one element per item, an object one element
    around its own rendering two spaces deeper, and anything else one line with its
    escaped `String(...)`. `JSON.parse` is a parameter of the page. */
module JsonToXml {
  import opened Json
  import opened JsNumber
  import opened JsString
  import opened XmlEscape
  import opened Options

  /** The keys `for (const key in v)` visits, with `v[key]`, in order. */
  function Entries(v: Json): (es: Members)
    ensures forall i :: 0 <= i < |es| ==> IsPrimitive(es[i].1) || es[i].1 < v
  {
    match v
    case JObject(ms) => ms
    case JArray(items) => seq(|items|, i requires 0 <= i < |items| => (NumberToString(i, 10), items[i]))
    case JString(s) => seq(|s|, i requires 0 <= i < |s| => (NumberToString(i, 10), JString([s[i]])))
    case _ => []
  }

  /** One emitted line: an opening tag, a closing tag, or a whole element holding text. */
  datatype Line =
    | OpenTag(indent: string, name: string)
    | CloseTag(indent: string, name: string)
    | Leaf(indent: string, name: string, text: string)

  /** The characters of a line, its final line break included. */
  function LineText(l: Line): (t: string)
    ensures |t| >= 1 && t[|t| - 1] == '\n'
  {
    match l
    case OpenTag(indent, name) => indent + "<" + name + ">\n"
    case CloseTag(indent, name) => indent + "</" + name + ">\n"
    case Leaf(indent, name, text) => indent + "<" + name + ">" + EscapeXml(text) + "</" + name + ">\n"
  }

  /** The characters of the lines, in order. */
  function Text(lines: seq<Line>): string {
    ConcatMap(lines, LineText)
  }

  /** The lines `jsonToXml(v, indent)` emits. */
  function Lines(v: Json, indent: string): seq<Line>
    decreases v, 2, 0
  {
    MemberLines(v, |Entries(v)|, indent)
  }

  /** The lines of the first `n` entries of `v`. */
  function MemberLines(v: Json, n: nat, indent: string): seq<Line>
    requires n <= |Entries(v)|
    decreases v, 1, n
  {
    if n == 0 then []
    else
      var e := Entries(v)[n - 1];
      MemberLines(v, n - 1, indent) + ElementLines(v, e.0, e.1, indent)
  }

  /** The lines of one key of `v` with value `x`. */
  function ElementLines(v: Json, key: string, x: Json, indent: string): seq<Line>
    requires IsPrimitive(x) || x < v
    decreases v, 0, if x.JArray? then |x.items| + 1 else 0
  {
    match x
    case JArray(items) => ItemLines(v, key, x, |items|, indent)
    case JObject(_) => [OpenTag(indent, key)] + Lines(x, indent + "  ") + [CloseTag(indent, key)]
    case _ => [Leaf(indent, key, PrimitiveText(x))]
  }

  /** The elements of the first `n` items of the array `x` under `key`. */
  function ItemLines(v: Json, key: string, x: Json, n: nat, indent: string): seq<Line>
    requires x.JArray? && x < v && n <= |x.items|
    decreases v, 0, n
  {
    if n == 0 then []
    else
      ItemLines(v, key, x, n - 1, indent) +
      ([OpenTag(indent, key)] + Lines(x.items[n - 1], indent + "  ") + [CloseTag(indent, key)])
  }

  lemma TextAppend(a: seq<Line>, b: seq<Line>)
    ensures Text(a + b) == Text(a) + Text(b)
  {
    ConcatMapAppend(a, b, LineText);
  }

  lemma TextOne(l: Line)
    ensures Text([l]) == LineText(l)
  {
    ConcatMapOne(l, LineText);
  }

  lemma Wrapped(key: string, inner: seq<Line>, indent: string)
    ensures Text([OpenTag(indent, key)] + inner + [CloseTag(indent, key)]) ==
            LineText(OpenTag(indent, key)) + Text(inner) + LineText(CloseTag(indent, key))
  {
    TextAppend([OpenTag(indent, key)], inner);
    TextAppend([OpenTag(indent, key)] + inner, [CloseTag(indent, key)]);
    TextOne(OpenTag(indent, key));
    TextOne(CloseTag(indent, key));
  }

  /** `jsonToXml`: the text accumulated by the loop over the keys is the text of the
      lines of the value. */
  method JsonToXml(v: Json, indent: string) returns (xml: string)
    ensures xml == Text(Lines(v, indent))
    decreases v, 1
  {
    xml := "";
    var es := Entries(v);
    var i := 0;
    while i < |es|
      invariant 0 <= i <= |es|
      invariant xml == Text(MemberLines(v, i, indent))
    {
      var key, x := es[i].0, es[i].1;
      var piece := KeyXml(v, key, x, indent);
      assert MemberLines(v, i + 1, indent) == MemberLines(v, i, indent) + ElementLines(v, key, x, indent);
      TextAppend(MemberLines(v, i, indent), ElementLines(v, key, x, indent));
      xml := xml + piece;
      i := i + 1;
    }
  }

  /** The text the loop body adds for one key of `v` with value `x`; for an array, the
      loop over its items. */
  method KeyXml(v: Json, key: string, x: Json, indent: string) returns (xml: string)
    requires IsPrimitive(x) || x < v
    ensures xml == Text(ElementLines(v, key, x, indent))
    decreases v, 0
  {
    if x.JArray? {
      xml := "";
      var j := 0;
      while j < |x.items|
        invariant 0 <= j <= |x.items|
        invariant xml == Text(ItemLines(v, key, x, j, indent))
      {
        var inner := JsonToXml(x.items[j], indent + "  ");
        var piece := (indent + "<" + key + ">\n") + inner + (indent + "</" + key + ">\n");
        ghost var wrapped := [OpenTag(indent, key)] + Lines(x.items[j], indent + "  ") + [CloseTag(indent, key)];
        Wrapped(key, Lines(x.items[j], indent + "  "), indent);
        assert ItemLines(v, key, x, j + 1, indent) == ItemLines(v, key, x, j, indent) + wrapped;
        TextAppend(ItemLines(v, key, x, j, indent), wrapped);
        xml := xml + piece;
        j := j + 1;
      }
    } else if x.JObject? {
      var inner := JsonToXml(x, indent + "  ");
      Wrapped(key, Lines(x, indent + "  "), indent);
      xml := (indent + "<" + key + ">\n") + inner + (indent + "</" + key + ">\n");
    } else {
      xml := indent + "<" + key + ">" + EscapeXml(PrimitiveText(x)) + "</" + key + ">\n";
      TextOne(Leaf(indent, key, PrimitiveText(x)));
    }
  }

  /** Reads lines with a stack of open tags: an opening line pushes its indent and name,
      a closing line must match the top of the stack, and a leaf leaves it alone. */
  function Nest(lines: seq<Line>, open: seq<(string, string)>): Option<seq<(string, string)>> {
    if lines == [] then Some(open)
    else
      match lines[0]
      case OpenTag(d, n) => Nest(lines[1..], open + [(d, n)])
      case CloseTag(d, n) =>
        if open != [] && open[|open| - 1] == (d, n) then Nest(lines[1..], open[..|open| - 1]) else None
      case Leaf(_, _, _) => Nest(lines[1..], open)
  }

  lemma {:induction false} NestAppend(a: seq<Line>, b: seq<Line>, open: seq<(string, string)>, mid: seq<(string, string)>)
    requires Nest(a, open) == Some(mid)
    ensures Nest(a + b, open) == Nest(b, mid)
  {
    if a == [] {
      assert a + b == b;
    } else {
      assert (a + b)[0] == a[0];
      assert (a + b)[1..] == a[1..] + b;
      match a[0]
      case OpenTag(d, n) => NestAppend(a[1..], b, open + [(d, n)], mid);
      case CloseTag(d, n) => NestAppend(a[1..], b, open[..|open| - 1], mid);
      case Leaf(_, _, _) => NestAppend(a[1..], b, open, mid);
    }
  }

  /** An opening and a closing line at the same indent around lines that are balanced on
      their own are balanced. */
  lemma WrappedNest(key: string, inner: seq<Line>, indent: string, open: seq<(string, string)>)
    requires Nest(inner, open + [(indent, key)]) == Some(open + [(indent, key)])
    ensures Nest([OpenTag(indent, key)] + inner + [CloseTag(indent, key)], open) == Some(open)
  {
    var inside := open + [(indent, key)];
    assert Nest([OpenTag(indent, key)], open) == Some(inside) by {
      assert [OpenTag(indent, key)][1..] == [];
    }
    NestAppend([OpenTag(indent, key)], inner, open, inside);
    NestAppend([OpenTag(indent, key)] + inner, [CloseTag(indent, key)], open, inside);
    assert inside[..|inside| - 1] == open;
    assert [CloseTag(indent, key)][1..] == [];
  }

  /** Every opening line has its closing line at the same indent: the lines of a value are
      balanced whatever tags are already open. */
  lemma {:induction false} LinesNest(v: Json, indent: string, open: seq<(string, string)>)
    ensures Nest(Lines(v, indent), open) == Some(open)
    decreases v, 2, 0
  {
    MemberLinesNest(v, |Entries(v)|, indent, open);
  }

  lemma {:induction false} MemberLinesNest(v: Json, n: nat, indent: string, open: seq<(string, string)>)
    requires n <= |Entries(v)|
    ensures Nest(MemberLines(v, n, indent), open) == Some(open)
    decreases v, 1, n
  {
    if n > 0 {
      var e := Entries(v)[n - 1];
      MemberLinesNest(v, n - 1, indent, open);
      ElementLinesNest(v, e.0, e.1, indent, open);
      NestAppend(MemberLines(v, n - 1, indent), ElementLines(v, e.0, e.1, indent), open, open);
    }
  }

  lemma {:induction false} ElementLinesNest(v: Json, key: string, x: Json, indent: string, open: seq<(string, string)>)
    requires IsPrimitive(x) || x < v
    ensures Nest(ElementLines(v, key, x, indent), open) == Some(open)
    decreases v, 0, if x.JArray? then |x.items| + 1 else 0
  {
    match x
    case JArray(items) => ItemLinesNest(v, key, x, |items|, indent, open);
    case JObject(_) =>
      LinesNest(x, indent + "  ", open + [(indent, key)]);
      WrappedNest(key, Lines(x, indent + "  "), indent, open);
    case _ =>
      assert [Leaf(indent, key, PrimitiveText(x))][1..] == [];
  }

  lemma {:induction false} ItemLinesNest(v: Json, key: string, x: Json, n: nat, indent: string, open: seq<(string, string)>)
    requires x.JArray? && x < v && n <= |x.items|
    ensures Nest(ItemLines(v, key, x, n, indent), open) == Some(open)
    decreases v, 0, n
  {
    if n > 0 {
      var inner := Lines(x.items[n - 1], indent + "  ");
      ItemLinesNest(v, key, x, n - 1, indent, open);
      LinesNest(x.items[n - 1], indent + "  ", open + [(indent, key)]);
      WrappedNest(key, inner, indent, open);
      NestAppend(ItemLines(v, key, x, n - 1, indent), [OpenTag(indent, key)] + inner + [CloseTag(indent, key)], open, open);
    }
  }

  /** The whole output of a value is balanced from the empty stack. */
  lemma OutputBalanced(v: Json)
    ensures Nest(Lines(v, ""), []) == Some([])
  {
    LinesNest(v, "", []);
  }

  /** All lines are indented at least by `indent`. */
  predicate Indented(lines: seq<Line>, indent: string) {
    forall k :: 0 <= k < |lines| ==> indent <= lines[k].indent
  }

  lemma IndentedAppend(a: seq<Line>, b: seq<Line>, indent: string)
    requires Indented(a, indent) && Indented(b, indent)
    ensures Indented(a + b, indent)
  {
    forall k | 0 <= k < |a + b| ensures indent <= (a + b)[k].indent {
      if k < |a| { assert (a + b)[k] == a[k]; } else { assert (a + b)[k] == b[k - |a|]; }
    }
  }

  /** Lines indented two spaces deeper are indented by `indent` too. */
  lemma IndentedDeeper(lines: seq<Line>, indent: string)
    requires Indented(lines, indent + "  ")
    ensures Indented(lines, indent)
  {
    forall k | 0 <= k < |lines| ensures indent <= lines[k].indent {
      var d := lines[k].indent;
      assert (indent + "  ")[..|indent|] == indent;
      assert d[..|indent|] == (indent + "  ")[..|indent|];
    }
  }

  lemma WrappedIndented(key: string, inner: seq<Line>, indent: string)
    requires Indented(inner, indent + "  ")
    ensures Indented([OpenTag(indent, key)] + inner + [CloseTag(indent, key)], indent)
  {
    IndentedDeeper(inner, indent);
    IndentedAppend([OpenTag(indent, key)], inner, indent);
    IndentedAppend([OpenTag(indent, key)] + inner, [CloseTag(indent, key)], indent);
  }

  /** Nothing the rendering at `indent` emits is indented less than `indent`. */
  lemma {:induction false} LinesIndented(v: Json, indent: string)
    ensures Indented(Lines(v, indent), indent)
    decreases v, 2, 0
  {
    MemberLinesIndented(v, |Entries(v)|, indent);
  }

  lemma {:induction false} MemberLinesIndented(v: Json, n: nat, indent: string)
    requires n <= |Entries(v)|
    ensures Indented(MemberLines(v, n, indent), indent)
    decreases v, 1, n
  {
    if n > 0 {
      var e := Entries(v)[n - 1];
      MemberLinesIndented(v, n - 1, indent);
      ElementLinesIndented(v, e.0, e.1, indent);
      IndentedAppend(MemberLines(v, n - 1, indent), ElementLines(v, e.0, e.1, indent), indent);
    }
  }

  lemma {:induction false} ElementLinesIndented(v: Json, key: string, x: Json, indent: string)
    requires IsPrimitive(x) || x < v
    ensures Indented(ElementLines(v, key, x, indent), indent)
    decreases v, 0, if x.JArray? then |x.items| + 1 else 0
  {
    match x
    case JArray(items) => ItemLinesIndented(v, key, x, |items|, indent);
    case JObject(_) =>
      LinesIndented(x, indent + "  ");
      WrappedIndented(key, Lines(x, indent + "  "), indent);
    case _ =>
  }

  lemma {:induction false} ItemLinesIndented(v: Json, key: string, x: Json, n: nat, indent: string)
    requires x.JArray? && x < v && n <= |x.items|
    ensures Indented(ItemLines(v, key, x, n, indent), indent)
    decreases v, 0, n
  {
    if n > 0 {
      var inner := Lines(x.items[n - 1], indent + "  ");
      ItemLinesIndented(v, key, x, n - 1, indent);
      LinesIndented(x.items[n - 1], indent + "  ");
      WrappedIndented(key, inner, indent);
      IndentedAppend(ItemLines(v, key, x, n - 1, indent), [OpenTag(indent, key)] + inner + [CloseTag(indent, key)], indent);
    }
  }

  /** The lines at exactly `indent`, in order. */
  function Top(lines: seq<Line>, indent: string): seq<Line> {
    if lines == [] then []
    else (if lines[0].indent == indent then [lines[0]] else []) + Top(lines[1..], indent)
  }

  lemma {:induction false} TopAppend(a: seq<Line>, b: seq<Line>, indent: string)
    ensures Top(a + b, indent) == Top(a, indent) + Top(b, indent)
  {
    if a == [] {
      assert a + b == b;
    } else {
      var h := if a[0].indent == indent then [a[0]] else [];
      TopAppend(a[1..], b, indent);
      assert (a + b)[0] == a[0] && (a + b)[1..] == a[1..] + b;
      assert Top(a + b, indent) == h + Top(a[1..] + b, indent);
      ConcatAssoc(h, Top(a[1..], indent), Top(b, indent));
    }
  }

  lemma {:induction false} TopDeeper(lines: seq<Line>, indent: string)
    requires Indented(lines, indent + "  ")
    ensures Top(lines, indent) == []
  {
    if lines != [] {
      assert |lines[0].indent| >= |indent| + 2;
      TopDeeper(lines[1..], indent);
    }
  }

  lemma TopWrapped(key: string, inner: seq<Line>, indent: string)
    requires Indented(inner, indent + "  ")
    ensures Top([OpenTag(indent, key)] + inner + [CloseTag(indent, key)], indent) == [OpenTag(indent, key), CloseTag(indent, key)]
  {
    TopDeeper(inner, indent);
    TopAppend([OpenTag(indent, key)], inner, indent);
    TopAppend([OpenTag(indent, key)] + inner, [CloseTag(indent, key)], indent);
    assert [OpenTag(indent, key)][1..] == [];
    assert [CloseTag(indent, key)][1..] == [];
  }

  /** `n` empty-looking pairs of an opening and a closing line. */
  function Pairs(indent: string, key: string, n: nat): seq<Line> {
    if n == 0 then [] else Pairs(indent, key, n - 1) + [OpenTag(indent, key), CloseTag(indent, key)]
  }

  /** What one key emits at its own indent: for an array value, one `<key>` ... `</key>`
      element per item (nothing for an empty array); for an object, one element; for
      anything else a single line with the escaped text. */
  lemma TopElement(v: Json, key: string, x: Json, indent: string)
    requires IsPrimitive(x) || x < v
    ensures Top(ElementLines(v, key, x, indent), indent) ==
            if x.JArray? then Pairs(indent, key, |x.items|)
            else if x.JObject? then [OpenTag(indent, key), CloseTag(indent, key)]
            else [Leaf(indent, key, PrimitiveText(x))]
  {
    match x
    case JArray(items) => TopItems(v, key, x, |items|, indent);
    case JObject(_) =>
      LinesIndented(x, indent + "  ");
      TopWrapped(key, Lines(x, indent + "  "), indent);
    case _ =>
      assert [Leaf(indent, key, PrimitiveText(x))][1..] == [];
  }

  lemma {:induction false} TopItems(v: Json, key: string, x: Json, n: nat, indent: string)
    requires x.JArray? && x < v && n <= |x.items|
    ensures Top(ItemLines(v, key, x, n, indent), indent) == Pairs(indent, key, n)
  {
    if n > 0 {
      var inner := Lines(x.items[n - 1], indent + "  ");
      TopItems(v, key, x, n - 1, indent);
      LinesIndented(x.items[n - 1], indent + "  ");
      TopWrapped(key, inner, indent);
      TopAppend(ItemLines(v, key, x, n - 1, indent), [OpenTag(indent, key)] + inner + [CloseTag(indent, key)], indent);
    }
  }

  /** Numbers, booleans and null have no keys, so they emit nothing of their own: as an
      array item each leaves an empty `<key>` ... `</key>` pair. */
  lemma NoKeysNoLines(v: Json, indent: string)
    requires IsPrimitive(v) && !v.JString?
    ensures Lines(v, indent) == []
  {
  }

  lemma PrimitiveItem(v: Json, key: string, x: Json, j: nat, indent: string)
    requires x.JArray? && x < v && j < |x.items|
    requires IsPrimitive(x.items[j]) && !x.items[j].JString?
    ensures ItemLines(v, key, x, j + 1, indent) ==
            ItemLines(v, key, x, j, indent) + [OpenTag(indent, key), CloseTag(indent, key)]
  {
    NoKeysNoLines(x.items[j], indent + "  ");
  }

  /** A string emits one line per character, keyed by its index. */
  lemma StringLines(s: string, indent: string)
    ensures Lines(JString(s), indent) ==
            seq(|s|, i requires 0 <= i < |s| => Leaf(indent, NumberToString(i, 10), [s[i]]))
  {
    StringMemberLines(s, |s|, indent);
  }

  /** On text without characters above U+FFFF the character walk is the page's walk
      over code units: line i is keyed i and holds code unit i. */
  lemma StringLinesUnits(s: string, indent: string)
    requires forall i :: 0 <= i < |s| ==> s[i] as int < 0x1_0000
    ensures |Lines(JString(s), indent)| == Utf16Length(s) == |s|
    ensures forall i :: 0 <= i < |s| ==>
              Lines(JString(s), indent)[i] == Leaf(indent, NumberToString(i, 10), [s[i]]) &&
              Utf16Units(s)[i] == s[i] as int
  {
    StringLines(s, indent);
    Utf16UnitsBmp(s);
  }

  lemma {:induction false} StringMemberLines(s: string, n: nat, indent: string)
    requires n <= |s|
    ensures MemberLines(JString(s), n, indent) ==
            seq(n, i requires 0 <= i < n => Leaf(indent, NumberToString(i, 10), [s[i]]))
  {
    if n > 0 {
      StringMemberLines(s, n - 1, indent);
    }
  }

  /** The page state: the text area, the output and the error line. */
  class Page {
    var jsonInput: string
    var xmlOutput: string
    var error: string

    constructor()
      ensures jsonInput == "" && xmlOutput == "" && error == ""
    {
      jsonInput, xmlOutput, error := "", "", "";
    }

    /** `handleConvert`: input `JSON.parse` rejects is the "Invalid JSON format." error
        with the output cleared; otherwise the output is the rendering of the value. */
    method Convert(parse: string -> Option<Json>)
      modifies this
      ensures jsonInput == old(jsonInput)
      ensures parse(Trim(jsonInput)).None? ==> error == "Invalid JSON format." && xmlOutput == ""
      ensures parse(Trim(jsonInput)).Some? ==>
                error == "" && xmlOutput == Text(Lines(parse(Trim(jsonInput)).value, ""))
    {
      match parse(Trim(jsonInput))
      case None =>
        error := "Invalid JSON format.";
        xmlOutput := "";
      case Some(v) =>
        var xml := JsonToXml(v, "");
        xmlOutput := xml;
        error := "";
    }

    /** `handleReset`. */
    method Reset()
      modifies this
      ensures jsonInput == "" && xmlOutput == "" && error == ""
    {
      jsonInput, xmlOutput, error := "", "", "";
    }
  }
}
