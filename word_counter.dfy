/** The word counter (pages/tools/string-word-counter.tsx): three figures derived from the
    text. The word count splits the trimmed text on white-space runs, and is 0 for blank
    text. The two character counts are the text's `length` in UTF-16 code units, with and
    without its white space. */
module WordCounter {
  import opened JsString

  /** `text.trim() ? text.trim().split(/\s+/).length : 0`. */
  function WordCount(text: string): nat {
    if Trim(text) != [] then |SplitOnWhiteSpace(Trim(text))| else 0
  }

  /** `text.replace(/\s/g, "")`. */
  function RemoveWhiteSpace(s: string): string {
    if s == [] then [] else (if IsWhiteSpace(s[0]) then [] else [s[0]]) + RemoveWhiteSpace(s[1..])
  }

  /** `text.length`. */
  function CharCountWithSpaces(text: string): nat {
    Utf16Length(text)
  }

  /** `text.replace(/\s/g, "").length`. */
  function CharCountWithoutSpaces(text: string): nat {
    Utf16Length(RemoveWhiteSpace(text))
  }

  /** The number of maximal runs of non-white-space characters, counted by a scan that
      remembers whether the previous character belonged to a run. */
  function Runs(s: string, inWord: bool): nat {
    if s == [] then 0
    else if IsWhiteSpace(s[0]) then Runs(s[1..], false)
    else (if inWord then 0 else 1) + Runs(s[1..], true)
  }

  function WordRuns(s: string): nat {
    Runs(s, false)
  }

  // ---------------------------------------------------------------------------------
  // Runs

  /** A run continued from before the text is not counted again. */
  lemma RunsInWord(s: string)
    ensures Runs(s, false) == Runs(s, true) + (if s != [] && !IsWhiteSpace(s[0]) then 1 else 0)
  {
  }

  lemma {:induction false} RunsAllWhiteSpace(s: string, inWord: bool)
    requires AllWhiteSpace(s)
    ensures Runs(s, inWord) == 0
  {
    if s != [] {
      RunsAllWhiteSpace(s[1..], false);
    }
  }

  /** White space before the text ends any run and adds none. */
  lemma {:induction false} RunsAfterWhiteSpace(w: string, x: string, inWord: bool)
    requires w != [] && AllWhiteSpace(w)
    ensures Runs(w + x, inWord) == Runs(x, false)
  {
    assert (w + x)[1..] == w[1..] + x;
    if |w| == 1 {
      assert w[1..] + x == x;
    } else {
      RunsAfterWhiteSpace(w[1..], x, false);
    }
  }

  /** White space after the text adds no run. */
  lemma {:induction false} RunsBeforeWhiteSpace(x: string, w: string, inWord: bool)
    requires AllWhiteSpace(w)
    ensures Runs(x + w, inWord) == Runs(x, inWord)
  {
    if x == [] {
      assert x + w == w;
      RunsAllWhiteSpace(w, inWord);
    } else {
      assert (x + w)[0] == x[0];
      assert (x + w)[1..] == x[1..] + w;
      RunsBeforeWhiteSpace(x[1..], w, !IsWhiteSpace(x[0]));
    }
  }

  /** Trimming keeps every run. */
  lemma RunsTrim(text: string)
    ensures WordRuns(Trim(text)) == WordRuns(text)
  {
    TrimIsMiddle(text);
    var a := LeadingWhiteSpace(text);
    var t := Trim(text);
    var pre, post := text[..a], text[a + |t|..];
    assert text == pre + (t + post);
    RunsBeforeWhiteSpace(t, post, false);
    if pre != [] {
      RunsAfterWhiteSpace(pre, t + post, false);
    } else {
      assert text == t + post;
    }
  }

  /** For text that starts with a word (or is empty), the fields are the runs, plus one
      empty field after trailing white space or for the empty text. */
  lemma {:induction false} SplitRuns(s: string)
    requires s == [] || !IsWhiteSpace(s[0])
    ensures |SplitOnWhiteSpace(s)| ==
      Runs(s, false) + (if s == [] || IsWhiteSpace(s[|s| - 1]) then 1 else 0)
    decreases |s|
  {
    if s != [] {
      var t := s[1..];
      RunsInWord(t);
      if t != [] && IsWhiteSpace(t[0]) {
        var u := TrimStart(t);
        LeadingWhiteSpaceRun(t);
        SplitRuns(u);
        var a := LeadingWhiteSpace(t);
        assert t == t[..a] + u;
        RunsAfterWhiteSpace(t[..a], u, false);
        assert SplitOnWhiteSpace(t) == [[]] + SplitOnWhiteSpace(u);
        if u != [] {
          assert u[|u| - 1] == t[|t| - 1];
        }
      } else {
        SplitRuns(t);
      }
      assert t != [] ==> t[|t| - 1] == s[|s| - 1];
    }
  }

  /** The word count is the number of maximal runs of non-white-space characters. */
  lemma WordCountIsRuns(text: string)
    ensures WordCount(text) == WordRuns(text)
  {
    var t := Trim(text);
    RunsTrim(text);
    TrimIsMiddle(text);
    if t == [] {
      RunsAllWhiteSpace(t, false);
    } else {
      SplitRuns(t);
    }
  }

  /** The count is 0 exactly for blank text. */
  lemma BlankHasNoWords(text: string)
    ensures WordCount(text) == 0 <==> AllWhiteSpace(text)
  {
    TrimEmptyIff(text);
  }

  /** Words separated by white space are counted one each. */
  lemma WordsJoined(ws: seq<string>)
    requires |ws| >= 1
    requires forall i :: 0 <= i < |ws| ==> ws[i] != [] && NoWhiteSpace(ws[i])
    ensures WordCount(Join(ws, " ")) == |ws|
  {
    var j := Join(ws, " ");
    SplitOnWhiteSpaceJoin(ws);
    assert j[0] == ws[0][0] by { JoinStart(ws); }
    assert j[|j| - 1] == ws[|ws| - 1][|ws[|ws| - 1]| - 1] by { JoinEnd(ws); }
    TrimUnchangedEnds(j);
  }

  lemma {:induction false} JoinStart(ws: seq<string>)
    requires |ws| >= 1 && ws[0] != []
    ensures Join(ws, " ") != [] && Join(ws, " ")[0] == ws[0][0]
  {
  }

  lemma {:induction false} JoinEnd(ws: seq<string>)
    requires |ws| >= 1 && ws[|ws| - 1] != []
    ensures var j := Join(ws, " "); j != [] && j[|j| - 1] == ws[|ws| - 1][|ws[|ws| - 1]| - 1]
  {
    if |ws| >= 2 {
      JoinEnd(ws[1..]);
    }
  }

  // ---------------------------------------------------------------------------------
  // Characters

  /** Removing white space keeps exactly the other characters, in order. */
  lemma {:induction false} RemoveWhiteSpaceKeeps(s: string)
    ensures NoWhiteSpace(RemoveWhiteSpace(s))
    ensures forall c :: c in RemoveWhiteSpace(s) <==> c in s && !IsWhiteSpace(c)
    ensures NoWhiteSpace(s) ==> RemoveWhiteSpace(s) == s
    ensures AllWhiteSpace(s) ==> RemoveWhiteSpace(s) == []
  {
    if s != [] {
      RemoveWhiteSpaceKeeps(s[1..]);
      assert s == [s[0]] + s[1..];
    }
  }

  /** One word per run needs at least one character per run. */
  lemma {:induction false} RunsAtMostChars(s: string, inWord: bool)
    ensures Runs(s, inWord) <= |RemoveWhiteSpace(s)|
  {
    if s != [] {
      RunsAtMostChars(s[1..], !IsWhiteSpace(s[0]));
    }
  }

  lemma {:induction false} RemoveWhiteSpaceUnits(s: string)
    ensures Utf16Length(RemoveWhiteSpace(s)) <= Utf16Length(s)
  {
    if s != [] {
      RemoveWhiteSpaceUnits(s[1..]);
      var h := if IsWhiteSpace(s[0]) then [] else [s[0]];
      Utf16LengthAppend(h, RemoveWhiteSpace(s[1..]));
      assert Utf16Length([s[0]]) == Utf16Width(s[0]);
    }
  }

  /** The three figures are ordered: words, then characters without white space, then
      all characters. */
  lemma CountsOrdered(text: string)
    ensures WordCount(text) <= CharCountWithoutSpaces(text) <= CharCountWithSpaces(text)
  {
    WordCountIsRuns(text);
    RunsAtMostChars(text, false);
    Utf16LengthAtLeast(RemoveWhiteSpace(text));
    RemoveWhiteSpaceUnits(text);
  }
}
