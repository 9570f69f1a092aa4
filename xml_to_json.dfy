/** The XML-to-JSON page (pages/tools/xml-to-json.tsx). `DOMParser` is represented by the
    node tree it produces and `JSON.stringify` is a parameter. `xmlToJson` turns a text
    node into its trimmed text (null when blank) and any other node into an object: the
    attributes of an element first, then every child that is not blank text, under its
    node name; a name seen before with a truthy value becomes an array of the values in
    document order. A node whose only non-blank child is text becomes that trimmed text. */
module XmlToJson {
  import opened JsString
  import opened Json
  import opened Options

  /** A DOM node: text, an element, or any other node (the document, a comment, a CDATA
      section), which has a node name and children but no attributes. */
  datatype Node =
    | Text(value: string)
    | Element(name: string, attributes: seq<(string, string)>, children: seq<Node>)
    | Other(name: string, children: seq<Node>)

  /** `nodeName`: "#text" for text. */
  function NodeName(n: Node): string {
    match n
    case Text(_) => "#text"
    case Element(name, _, _) => name
    case Other(name, _) => name
  }

  /** A text node whose trimmed value is empty. */
  predicate IsBlankText(n: Node) {
    n.Text? && Trim(n.value) == []
  }

  /** The children that the `filter` keeps, in order. */
  function Kept(cs: seq<Node>): seq<Node> {
    if cs == [] then [] else (if IsBlankText(cs[0]) then [] else [cs[0]]) + Kept(cs[1..])
  }

  /** A kept child is one of the children, and it is not blank text. */
  lemma {:induction false} KeptChild(cs: seq<Node>, i: nat)
    requires i < |Kept(cs)|
    ensures Kept(cs)[i] in cs && !IsBlankText(Kept(cs)[i])
  {
    var h := if IsBlankText(cs[0]) then [] else [cs[0]];
    assert Kept(cs) == h + Kept(cs[1..]);
    if i >= |h| {
      KeptChild(cs[1..], i - |h|);
      assert Kept(cs)[i] == Kept(cs[1..])[i - |h|];
    }
  }

  /** The attributes assigned in order, each as a string. */
  function AttributeMembers(attrs: seq<(string, string)>): Members {
    if attrs == [] then []
    else Put(AttributeMembers(attrs[..|attrs| - 1]), attrs[|attrs| - 1].0, JString(attrs[|attrs| - 1].1))
  }

  /** JavaScript truthiness of a value. */
  predicate Truthy(v: Json) {
    match v
    case JNull => false
    case JBool(b) => b
    case JNumber(t) => t != "0" && t != "-0" && t != "NaN"
    case JString(s) => s != ""
    case _ => true
  }

  /** One turn of the loop over the children: null and "" are skipped; a key holding a
      truthy value turns into an array (unless it is one) and the value is appended;
      otherwise the value is assigned. */
  function AddChild(m: Members, key: string, value: Json): Members {
    if value == JNull || value == JString("") then m
    else
      match Lookup(m, key)
      case Some(prev) =>
        if Truthy(prev) then Put(m, key, if prev.JArray? then JArray(prev.items + [value]) else JArray([prev, value]))
        else Put(m, key, value)
      case None => Put(m, key, value)
  }

  /** The value `xmlToJson(node)` returns. */
  function JsonOf(n: Node): Json
    decreases n, 1
  {
    match n
    case Text(t) => if Trim(t) != [] then JString(Trim(t)) else JNull
    case _ =>
      var kept := Kept(n.children);
      if |kept| == 1 && kept[0].Text? then JString(Trim(kept[0].value))
      else JObject(Children(n, |kept|))
  }

  /** The object after the attributes and the first `j` kept children. */
  function Children(n: Node, j: nat): Members
    requires !n.Text? && j <= |Kept(n.children)|
    decreases n, 0, j
  {
    if j == 0 then (if n.Element? then AttributeMembers(n.attributes) else [])
    else
      var c := Kept(n.children)[j - 1];
      KeptChild(n.children, j - 1);
      AddChild(Children(n, j - 1), NodeName(c), JsonOf(c))
  }

  /** `xmlToJson`: the attribute loop, the filter, the single-text shortcut and the loop
      over the children, which converts an entry to an array in place and pushes onto it. */
  method XmlToJson(node: Node) returns (v: Json)
    ensures v == JsonOf(node)
    decreases node, 1
  {
    if node.Text? {
      var text := Trim(node.value);
      v := if text != [] then JString(text) else JNull;
      return;
    }
    var obj: Members := [];
    if node.Element? {
      obj := AssignAttributes(node.attributes);
    }
    var childNodes := Kept(node.children);
    if |childNodes| == 1 && childNodes[0].Text? {
      v := JString(Trim(childNodes[0].value));
      return;
    }
    obj := AddChildren(node, obj);
    v := JObject(obj);
  }

  /** The loop over the kept children, from the object holding the attributes. */
  method AddChildren(node: Node, start: Members) returns (obj: Members)
    requires !node.Text? && start == Children(node, 0)
    ensures obj == Children(node, |Kept(node.children)|)
    decreases node, 0
  {
    var childNodes := Kept(node.children);
    obj := start;
    var j := 0;
    while j < |childNodes|
      invariant 0 <= j <= |childNodes|
      invariant obj == Children(node, j)
    {
      var child := childNodes[j];
      KeptChild(node.children, j);
      var value := XmlToJson(child);
      obj := AddChildInPlace(obj, NodeName(child), value);
      ChildrenStep(node, j + 1);
      j := j + 1;
    }
  }

  /** The loop over the attributes. */
  method AssignAttributes(attrs: seq<(string, string)>) returns (obj: Members)
    ensures obj == AttributeMembers(attrs)
  {
    obj := [];
    var i := 0;
    while i < |attrs|
      invariant 0 <= i <= |attrs|
      invariant obj == AttributeMembers(attrs[..i])
    {
      assert attrs[..i + 1][..i] == attrs[..i];
      obj := Put(obj, attrs[i].0, JString(attrs[i].1));
      i := i + 1;
    }
    assert attrs[..|attrs|] == attrs;
  }

  /** The body of the loop over the children: a truthy entry under the key is turned
      into an array (unless it is one) and the value is pushed onto it. */
  method AddChildInPlace(obj: Members, key: string, value: Json) returns (r: Members)
    ensures r == AddChild(obj, key, value)
  {
    r := obj;
    if value != JNull && value != JString("") {
      var existing := Lookup(r, key);
      if existing.Some? && Truthy(existing.value) {
        if !existing.value.JArray? {
          r := Put(r, key, JArray([existing.value]));
        }
        GroupInPlace(obj, key, value);
        r := Put(r, key, JArray(Lookup(r, key).value.items + [value]));
      } else {
        r := Put(r, key, value);
      }
    }
  }

  /** Converting the entry to an array in place and then pushing onto it is the step
      `AddChild` takes for a key that holds a truthy value. */
  lemma GroupInPlace(m: Members, key: string, value: Json)
    requires value != JNull && value != JString("")
    requires Lookup(m, key).Some? && Truthy(Lookup(m, key).value)
    ensures var prev := Lookup(m, key).value;
            var m1 := if prev.JArray? then m else Put(m, key, JArray([prev]));
            Lookup(m1, key).Some? && Lookup(m1, key).value.JArray? &&
            Put(m1, key, JArray(Lookup(m1, key).value.items + [value])) == AddChild(m, key, value)
  {
    var prev := Lookup(m, key).value;
    if !prev.JArray? {
      LookupPut(m, key, JArray([prev]), key);
      PutPut(m, key, JArray([prev]), JArray([prev, value]));
      assert [prev] + [value] == [prev, value];
    }
  }

  /** A text node gives its trimmed text, or null exactly when it is all white space. */
  lemma TextValue(t: string)
    ensures JsonOf(Text(t)) == if AllWhiteSpace(t) then JNull else JString(Trim(t))
  {
    TrimEmptyIff(t);
  }

  /** What a kept child converts to is a non-empty string or an object: never null, "" or
      an array, so the loop never skips a child. */
  lemma KeptValue(c: Node)
    requires !IsBlankText(c)
    ensures Stored(JsonOf(c))
  {
    if !c.Text? {
      var kept := Kept(c.children);
      if |kept| == 1 && kept[0].Text? {
        KeptChild(c.children, 0);
      }
    }
  }

  lemma {:induction false} KeptAppend(a: seq<Node>, b: seq<Node>)
    ensures Kept(a + b) == Kept(a) + Kept(b)
  {
    if a == [] {
      assert a + b == b;
    } else {
      var h := if IsBlankText(a[0]) then [] else [a[0]];
      KeptAppend(a[1..], b);
      ConsSplit(a);
      ConcatAssoc([a[0]], a[1..], b);
      KeptCons(a[0], a[1..] + b);
      KeptCons(a[0], a[1..]);
      ConcatAssoc(h, Kept(a[1..]), Kept(b));
    }
  }

  lemma KeptCons(x: Node, u: seq<Node>)
    ensures Kept([x] + u) == (if IsBlankText(x) then [] else [x]) + Kept(u)
  {
    assert ([x] + u)[1..] == u;
  }

  /** Conversion sees the children only through the kept ones. */
  lemma {:induction false} ChildrenSameKept(n: Node, n': Node, j: nat)
    requires !n.Text? && n.Element? == n'.Element? && (n.Element? ==> n.attributes == n'.attributes)
    requires !n'.Text? && Kept(n.children) == Kept(n'.children) && j <= |Kept(n.children)|
    ensures Children(n, j) == Children(n', j)
  {
    if j > 0 {
      ChildrenSameKept(n, n', j - 1);
      var c := Kept(n.children)[j - 1];
      assert Kept(n'.children)[j - 1] == c;
    }
  }

  lemma AddChildCongruent(m: Members, m': Members, key: string, value: Json)
    requires m == m'
    ensures AddChild(m, key, value) == AddChild(m', key, value)
  {
  }

  /** A blank text child anywhere among the children changes nothing. */
  lemma BlankChildIgnored(name: string, attrs: seq<(string, string)>, a: seq<Node>, b: seq<Node>, w: string)
    requires AllWhiteSpace(w)
    ensures JsonOf(Element(name, attrs, a + [Text(w)] + b)) == JsonOf(Element(name, attrs, a + b))
  {
    TrimEmptyIff(w);
    KeptAppend(a + [Text(w)], b);
    KeptAppend(a, [Text(w)]);
    KeptAppend(a, b);
    assert Kept([Text(w)]) == [];
    var n, n' := Element(name, attrs, a + [Text(w)] + b), Element(name, attrs, a + b);
    assert Kept(n.children) == Kept(n'.children);
    ChildrenSameKept(n, n', |Kept(n.children)|);
  }

  /** A node whose only kept child is text becomes that trimmed text, a non-empty string;
      the attributes are dropped. */
  lemma SingleTextChild(name: string, attrs: seq<(string, string)>, cs: seq<Node>, t: string)
    requires Kept(cs) == [Text(t)]
    ensures JsonOf(Element(name, attrs, cs)) == JString(Trim(t)) && Trim(t) != ""
  {
    KeptChild(cs, 0);
  }

  /** The attributes are assigned before any child: their keys come first, in order. */
  lemma {:induction false} AttributesFirst(n: Node, j: nat)
    requires n.Element? && j <= |Kept(n.children)|
    ensures Keys(AttributeMembers(n.attributes)) <= Keys(Children(n, j))
  {
    if j > 0 {
      AttributesFirst(n, j - 1);
      ChildrenKeysGrow(n, j);
      PrefixTrans(Keys(AttributeMembers(n.attributes)), Keys(Children(n, j - 1)), Keys(Children(n, j)));
    }
  }

  /** One turn of the loop moves no key: the keys before it come first after it. */
  lemma ChildrenKeysGrow(n: Node, j: nat)
    requires !n.Text? && 0 < j <= |Kept(n.children)|
    ensures Keys(Children(n, j - 1)) <= Keys(Children(n, j))
  {
    var c := Kept(n.children)[j - 1];
    ChildrenStep(n, j);
    AddChildKeys(Children(n, j - 1), NodeName(c), JsonOf(c));
  }

  lemma AddChildKeys(m: Members, key: string, value: Json)
    ensures Keys(m) <= Keys(AddChild(m, key, value))
  {
    if !(value == JNull || value == JString("")) {
      var nv := match Lookup(m, key)
        case Some(prev) =>
          if Truthy(prev) then (if prev.JArray? then JArray(prev.items + [value]) else JArray([prev, value]))
          else value
        case None => value;
      assert AddChild(m, key, value) == Put(m, key, nv);
      KeysPut(m, key, nv);
    }
  }

  /** Distinct attributes each keep their own value. */
  lemma {:induction false} AttributeLookup(attrs: seq<(string, string)>, i: nat)
    requires i < |attrs| && forall p, q :: 0 <= p < q < |attrs| ==> attrs[p].0 != attrs[q].0
    ensures Lookup(AttributeMembers(attrs), attrs[i].0) == Some(JString(attrs[i].1))
  {
    var last := |attrs| - 1;
    var prefix := attrs[..last];
    LookupPut(AttributeMembers(prefix), attrs[last].0, JString(attrs[last].1), attrs[i].0);
    if i < last {
      AttributeLookup(prefix, i);
    }
  }

  /** The values of the first `j` kept children named `k`, in document order. */
  function ValuesNamed(n: Node, j: nat, k: string): seq<Json>
    requires !n.Text? && j <= |Kept(n.children)|
  {
    if j == 0 then []
    else
      var c := Kept(n.children)[j - 1];
      ValuesNamed(n, j - 1, k) + (if NodeName(c) == k then [JsonOf(c)] else [])
  }

  /** What the loop leaves under a key that starts as `start` after the values `vs` are
      added: a truthy start and the values as one array; otherwise a single value on its
      own and several as an array (a falsy start is overwritten). */
  function Grouped(start: Option<Json>, vs: seq<Json>): Option<Json> {
    if vs == [] then start
    else if start.Some? && Truthy(start.value) then Some(JArray([start.value] + vs))
    else if |vs| == 1 then Some(vs[0])
    else Some(JArray(vs))
  }

  /** The attribute a node has under a key, if any. */
  function AttributeValue(n: Node, k: string): Option<Json> {
    if n.Element? then Lookup(AttributeMembers(n.attributes), k) else None
  }

  /** The value under a key in the object of a node is its attribute (if any) grouped with
      the values of the children of that name, in document order. */
  lemma {:induction false} Grouping(n: Node, j: nat, k: string)
    requires !n.Text? && j <= |Kept(n.children)|
    ensures Lookup(Children(n, j), k) == Grouped(AttributeValue(n, k), ValuesNamed(n, j, k))
  {
    if j > 0 {
      Grouping(n, j - 1, k);
      KeptChild(n.children, j - 1);
      if n.Element? {
        AttributeStrings(n.attributes, k);
      }
      ValuesNamedShape(n, j - 1, k);
      GroupingStep(Children(n, j - 1), Kept(n.children)[j - 1], k, AttributeValue(n, k), ValuesNamed(n, j - 1, k));
      ChildrenStep(n, j);
      ValuesNamedStep(n, j, k);
    }
  }

  lemma GroupingStep(m: Members, c: Node, k: string, start: Option<Json>, vs: seq<Json>)
    requires Lookup(m, k) == Grouped(start, vs) && !IsBlankText(c)
    requires (forall i :: 0 <= i < |vs| ==> Stored(vs[i])) && (start.Some? ==> start.value.JString?)
    ensures Lookup(AddChild(m, NodeName(c), JsonOf(c)), k) == Grouped(start, vs + (if NodeName(c) == k then [JsonOf(c)] else []))
  {
    KeptValue(c);
    AddChildLookup(m, NodeName(c), JsonOf(c), k, start, vs);
  }

  lemma ChildrenStep(n: Node, j: nat)
    requires !n.Text? && 0 < j <= |Kept(n.children)|
    ensures var c := Kept(n.children)[j - 1];
      Children(n, j) == AddChild(Children(n, j - 1), NodeName(c), JsonOf(c))
  {
  }

  lemma ValuesNamedStep(n: Node, j: nat, k: string)
    requires !n.Text? && 0 < j <= |Kept(n.children)|
    ensures var c := Kept(n.children)[j - 1];
      ValuesNamed(n, j, k) == ValuesNamed(n, j - 1, k) + (if NodeName(c) == k then [JsonOf(c)] else [])
  {
  }

  /** A non-empty string or an object: what a kept child converts to. */
  predicate Stored(v: Json) {
    (v.JString? && v.s != "") || v.JObject?
  }

  /** One turn of the loop keeps every key's value grouped. */
  lemma AddChildLookup(m: Members, key: string, v: Json, k: string, start: Option<Json>, vs: seq<Json>)
    requires Lookup(m, k) == Grouped(start, vs)
    requires Stored(v) && (forall i :: 0 <= i < |vs| ==> Stored(vs[i]))
    requires start.Some? ==> start.value.JString?
    ensures Lookup(AddChild(m, key, v), k) == Grouped(start, vs + (if key == k then [v] else []))
  {
    if key == k {
      GroupedAppend(start, vs, v);
    } else {
      assert vs + [] == vs;
    }
    match Lookup(m, key)
    case Some(prev) =>
      if Truthy(prev) {
        LookupPut(m, key, if prev.JArray? then JArray(prev.items + [v]) else JArray([prev, v]), k);
      } else {
        LookupPut(m, key, v, k);
      }
    case None => LookupPut(m, key, v, k);
  }

  lemma GroupedAppend(start: Option<Json>, vs: seq<Json>, v: Json)
    requires Stored(v) && (forall i :: 0 <= i < |vs| ==> Stored(vs[i]))
    requires start.Some? ==> start.value.JString?
    ensures var prev := Grouped(start, vs);
            Grouped(start, vs + [v]) ==
              if prev.Some? && Truthy(prev.value) then
                Some(if prev.value.JArray? then JArray(prev.value.items + [v]) else JArray([prev.value, v]))
              else Some(v)
  {
    if vs == [] {
      assert [] + [v] == [v];
      if start.Some? {
        assert [start.value] + [v] == [start.value, v];
      }
    } else if start.Some? && Truthy(start.value) {
      assert [start.value] + (vs + [v]) == [start.value] + vs + [v];
    } else if |vs| == 1 {
      assert vs + [v] == [vs[0], v];
    }
  }

  /** The values gathered under a name are non-empty strings or objects. */
  lemma {:induction false} ValuesNamedShape(n: Node, j: nat, k: string)
    requires !n.Text? && j <= |Kept(n.children)|
    ensures forall i :: 0 <= i < |ValuesNamed(n, j, k)| ==> Stored(ValuesNamed(n, j, k)[i])
  {
    if j > 0 {
      ValuesNamedShape(n, j - 1, k);
      KeptChild(n.children, j - 1);
      KeptValue(Kept(n.children)[j - 1]);
    }
  }

  /** Every attribute is stored as a string. */
  lemma {:induction false} AttributeStrings(attrs: seq<(string, string)>, k: string)
    ensures Lookup(AttributeMembers(attrs), k).Some? ==> Lookup(AttributeMembers(attrs), k).value.JString?
  {
    if attrs != [] {
      var last := |attrs| - 1;
      AttributeStrings(attrs[..last], k);
      LookupPut(AttributeMembers(attrs[..last]), attrs[last].0, JString(attrs[last].1), k);
    }
  }

  /** `getElementsByTagName("parsererror")` finds something: the node or a descendant is
      an element of that name. */
  predicate HasParserError(n: Node) {
    (n.Element? && n.name == "parsererror") ||
    (!n.Text? && exists i :: 0 <= i < |n.children| && HasParserError(n.children[i]))
  }

  /** The page state: the text area, the output and the error line. */
  class Page {
    var xmlInput: string
    var jsonOutput: string
    var error: string

    constructor()
      ensures xmlInput == "" && jsonOutput == "" && error == ""
    {
      xmlInput, jsonOutput, error := "", "", "";
    }

    /** `handleConvert`: a document with a parser error is the "Invalid XML format." error
        with the output cleared; otherwise the output is the converted document. */
    method Convert(parse: string -> Node, stringify: Json -> string)
      modifies this
      ensures xmlInput == old(xmlInput)
      ensures HasParserError(parse(Trim(xmlInput))) ==> error == "Invalid XML format." && jsonOutput == ""
      ensures !HasParserError(parse(Trim(xmlInput))) ==>
                error == "" && jsonOutput == stringify(JsonOf(parse(Trim(xmlInput))))
    {
      var doc := parse(Trim(xmlInput));
      if HasParserError(doc) {
        error := "Invalid XML format.";
        jsonOutput := "";
      } else {
        var json := XmlToJson(doc);
        jsonOutput := stringify(json);
        error := "";
      }
    }

    /** `handleReset`. */
    method Reset()
      modifies this
      ensures xmlInput == "" && jsonOutput == "" && error == ""
    {
      xmlInput, jsonOutput, error := "", "", "";
    }
  }
}
