/** The `escapeXml` helper shared by the CSV-to-XML and JSON-to-XML pages: five chained
    global replacements that write & < > " ' as the predefined entities &amp; &lt; &gt;
    &quot; &apos; (section 4.6 of XML 1.0). Because & is replaced first, the chain acts
    as one character-by-character substitution, and an unescaping pass gives the text
    back. */
module XmlEscape {
  import opened JsString

  /** The chain of replacements exactly as the pages apply them. */
  function EscapeXml(s: string): string {
    ReplaceAll(ReplaceAll(ReplaceAll(ReplaceAll(ReplaceAll(s,
      '&', "&amp;"), '<', "&lt;"), '>', "&gt;"), '"', "&quot;"), '\'', "&apos;")
  }

  /** The substitution of one character. */
  function EscapeChar(c: char): string {
    if c == '&' then "&amp;"
    else if c == '<' then "&lt;"
    else if c == '>' then "&gt;"
    else if c == '"' then "&quot;"
    else if c == '\'' then "&apos;"
    else [c]
  }

  /** The character-by-character substitution the chain amounts to. */
  function EscapeEach(s: string): string {
    if s == [] then [] else EscapeChar(s[0]) + EscapeEach(s[1..])
  }

  /** Reads the five entities back; any other character stands for itself. */
  function UnescapeXml(s: string): string {
    if s == [] then []
    else if |s| >= 5 && s[..5] == "&amp;" then "&" + UnescapeXml(s[5..])
    else if |s| >= 4 && s[..4] == "&lt;" then "<" + UnescapeXml(s[4..])
    else if |s| >= 4 && s[..4] == "&gt;" then ">" + UnescapeXml(s[4..])
    else if |s| >= 6 && s[..6] == "&quot;" then "\"" + UnescapeXml(s[6..])
    else if |s| >= 6 && s[..6] == "&apos;" then "'" + UnescapeXml(s[6..])
    else [s[0]] + UnescapeXml(s[1..])
  }

  /** The whole chain distributes over concatenation. */
  lemma EscapeXmlAppend(a: string, b: string)
    ensures EscapeXml(a + b) == EscapeXml(a) + EscapeXml(b)
  {
    var a1, b1 := ReplaceAll(a, '&', "&amp;"), ReplaceAll(b, '&', "&amp;");
    ReplaceAllAppend(a, b, '&', "&amp;");
    var a2, b2 := ReplaceAll(a1, '<', "&lt;"), ReplaceAll(b1, '<', "&lt;");
    ReplaceAllAppend(a1, b1, '<', "&lt;");
    var a3, b3 := ReplaceAll(a2, '>', "&gt;"), ReplaceAll(b2, '>', "&gt;");
    ReplaceAllAppend(a2, b2, '>', "&gt;");
    var a4, b4 := ReplaceAll(a3, '"', "&quot;"), ReplaceAll(b3, '"', "&quot;");
    ReplaceAllAppend(a3, b3, '"', "&quot;");
    ReplaceAllAppend(a4, b4, '\'', "&apos;");
  }

  /** On one character the chain gives its entity: no replacement text contains a
      character that a later replacement looks for. */
  lemma EscapeXmlChar(c: char)
    ensures EscapeXml([c]) == EscapeChar(c)
  {
    assert [c] == EscapeUpTo(c, 0);
    ChainStep(c, 0);
    ChainStep(c, 1);
    ChainStep(c, 2);
    ChainStep(c, 3);
    ChainStep(c, 4);
  }

  /** The character the `k`-th replacement of the chain looks for, and its entity. */
  function Special(k: nat): char {
    if k == 1 then '&' else if k == 2 then '<' else if k == 3 then '>' else if k == 4 then '"' else '\''
  }

  function Entity(k: nat): string {
    if k == 1 then "&amp;" else if k == 2 then "&lt;" else if k == 3 then "&gt;"
    else if k == 4 then "&quot;" else "&apos;"
  }

  lemma ChainStep(c: char, k: nat)
    requires k < 5
    ensures ReplaceAll(EscapeUpTo(c, k), Special(k + 1), Entity(k + 1)) == EscapeUpTo(c, k + 1)
  {
    ReplaceStep(EscapeUpTo(c, k), Special(k + 1), Entity(k + 1));
  }

  /** What the first `k` replacements of the chain make of one character. */
  function EscapeUpTo(c: char, k: nat): string {
    if k >= 1 && c == '&' then "&amp;"
    else if k >= 2 && c == '<' then "&lt;"
    else if k >= 3 && c == '>' then "&gt;"
    else if k >= 4 && c == '"' then "&quot;"
    else if k >= 5 && c == '\'' then "&apos;"
    else [c]
  }

  /** One replacement applied to a single character or to text without the character. */
  lemma ReplaceStep(r: string, d: char, rep: string)
    requires |r| == 1 || d !in r
    ensures ReplaceAll(r, d, rep) == if d in r then rep else r
  {
    if d !in r {
      ReplaceAllFree(r, d, rep);
    } else {
      assert r[1..] == [];
    }
  }

  /** The chain is the character-by-character substitution. */
  lemma {:induction false} EscapeXmlIsEscapeEach(s: string)
    ensures EscapeXml(s) == EscapeEach(s)
  {
    if s != [] {
      EscapeXmlIsEscapeEach(s[1..]);
      EscapeXmlAppend([s[0]], s[1..]);
      EscapeXmlChar(s[0]);
      assert [s[0]] + s[1..] == s;
    }
  }

  /** Unescaping undoes the escape. */
  lemma {:induction false} UnescapeEscapeEach(s: string)
    ensures UnescapeXml(EscapeEach(s)) == s
  {
    if s != [] {
      UnescapeEscapeEach(s[1..]);
      UnescapeEscapeChar(s[0], EscapeEach(s[1..]));
      assert [s[0]] + s[1..] == s;
    }
  }

  lemma UnescapeEscapeChar(c: char, t: string)
    ensures UnescapeXml(EscapeChar(c) + t) == [c] + UnescapeXml(t)
  {
    var e := EscapeChar(c) + t;
    var n := |EscapeChar(c)|;
    assert e[..n] == EscapeChar(c);
    assert e[n..] == t;
    if c != '&' && c != '<' && c != '>' && c != '"' && c != '\'' {
      assert e[0] == c;
      forall k | 4 <= k <= 6 && k <= |e| ensures e[..k][0] != '&' { }
      assert e[1..] == t;
      assert UnescapeXml(e) == [e[0]] + UnescapeXml(e[1..]);
    } else {
      forall k, j | 0 <= j < 3 && 4 <= k <= |e| ensures e[..k][j] == EscapeChar(c)[j] { }
    }
  }

  /** `escapeXml` has an exact inverse. */
  lemma UnescapeEscapeXml(s: string)
    ensures UnescapeXml(EscapeXml(s)) == s
  {
    EscapeXmlIsEscapeEach(s);
    UnescapeEscapeEach(s);
  }

  /** The five entity names an ampersand of the output may start. */
  predicate StartsEntity(s: string, i: int)
    requires 0 <= i < |s|
  {
    (i + 5 <= |s| && s[i..i + 5] == "&amp;") || (i + 4 <= |s| && s[i..i + 4] == "&lt;") ||
    (i + 4 <= |s| && s[i..i + 4] == "&gt;") || (i + 6 <= |s| && s[i..i + 6] == "&quot;") ||
    (i + 6 <= |s| && s[i..i + 6] == "&apos;")
  }

  /** The escaped text has no raw < > " ', and each of its ampersands starts one of the
      five entities. */
  predicate IsEscaped(e: string) {
    forall i :: 0 <= i < |e| ==>
      e[i] != '<' && e[i] != '>' && e[i] != '"' && e[i] != '\'' &&
      (e[i] == '&' ==> StartsEntity(e, i))
  }

  lemma {:induction false} EscapeEachIsSafe(s: string)
    ensures IsEscaped(EscapeEach(s))
  {
    if s != [] {
      EscapeEachIsSafe(s[1..]);
      EscapedAppend(EscapeChar(s[0]), EscapeEach(s[1..]));
    }
  }

  lemma EscapeCharIsSafe(c: char)
    ensures IsEscaped(EscapeChar(c))
  {
    var h := EscapeChar(c);
    assert h == [c] || h[0] == '&';
    if h != [c] {
      assert StartsEntity(h, 0);
      assert forall i :: 1 <= i < |h| ==> 'a' <= h[i] <= 'z' || h[i] == ';';
    }
  }

  lemma EscapedAppend(h: string, t: string)
    requires IsEscaped(t) && (exists c :: h == EscapeChar(c))
    ensures IsEscaped(h + t)
  {
    var c :| h == EscapeChar(c);
    EscapeCharIsSafe(c);
    var e := h + t;
    forall i | 0 <= i < |e| && e[i] == '&'
      ensures StartsEntity(e, i)
    {
      if i < |h| {
        assert h[i] == '&';
        EntityExtend(h, t, i);
      } else {
        assert t[i - |h|] == '&';
        EntityShift(h, t, i - |h|);
      }
    }
    assert forall i :: 0 <= i < |e| ==> e[i] == (if i < |h| then h[i] else t[i - |h|]);
  }

  lemma EntityExtend(h: string, t: string, i: int)
    requires 0 <= i < |h| && StartsEntity(h, i)
    ensures StartsEntity(h + t, i)
  {
    var e := h + t;
    forall k | i <= k <= |h| ensures e[i..k] == h[i..k] { }
  }

  lemma EntityShift(h: string, t: string, j: int)
    requires 0 <= j < |t| && StartsEntity(t, j)
    ensures StartsEntity(h + t, |h| + j)
  {
    var e := h + t;
    forall k | j <= k <= |t| ensures e[|h| + j..|h| + k] == t[j..k] { }
  }

  lemma EscapeXmlIsSafe(s: string)
    ensures IsEscaped(EscapeXml(s))
  {
    EscapeXmlIsEscapeEach(s);
    EscapeEachIsSafe(s);
  }

  /** The escape adds no character except those spelling the entities. */
  lemma EscapeXmlKeeps(s: string, d: char)
    requires d in EscapeXml(s)
    ensures d in s || d in "&;amplgtquos"
  {
    EscapeXmlIsEscapeEach(s);
    EscapeEachKeeps(s, d);
  }

  lemma {:induction false} EscapeEachKeeps(s: string, d: char)
    requires d in EscapeEach(s)
    ensures d in s || d in "&;amplgtquos"
  {
    if s != [] {
      if d in EscapeChar(s[0]) {
      } else {
        EscapeEachKeeps(s[1..], d);
      }
    }
  }
}
