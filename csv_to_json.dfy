/** The CSV-to-JSON page (pages/tools/csv-to-json.tsx). The trimmed input is split into
    lines on "\n" and every line into fields on ","; there is no quoting. The first line
    names the keys. Every later line becomes one object that assigns, header by header in
    order, the trimmed field at the same position, or "" when the line is too short.
    `JSON.stringify(data, null, 2)` is a parameter of the page. */
module CsvToJson {
  import opened JsString
  import opened Json
  import opened Options

  /** `values[idx]?.trim() ?? ""`. */
  function FieldAt(values: seq<string>, i: nat): string {
    if i < |values| then Trim(values[i]) else ""
  }

  /** The trimmed headers: the keys of every record, position by position. */
  function TrimAll(headers: seq<string>): (keys: seq<string>)
    ensures |keys| == |headers|
  {
    if headers == [] then [] else TrimAll(headers[..|headers| - 1]) + [Trim(headers[|headers| - 1])]
  }

  lemma {:induction false} TrimAllAt(headers: seq<string>)
    ensures forall i :: 0 <= i < |headers| ==> TrimAll(headers)[i] == Trim(headers[i])
  {
    if headers != [] {
      TrimAllAt(headers[..|headers| - 1]);
    }
  }

  /** The field under each header: position `i` holds `FieldAt(values, i)`. */
  function FieldsFor(headers: seq<string>, values: seq<string>): (fields: seq<string>)
    ensures |fields| == |headers|
  {
    if headers == [] then [] else FieldsFor(headers[..|headers| - 1], values) + [FieldAt(values, |headers| - 1)]
  }

  lemma {:induction false} FieldsForAt(headers: seq<string>, values: seq<string>)
    ensures forall i :: 0 <= i < |headers| ==> FieldsFor(headers, values)[i] == FieldAt(values, i)
  {
    if headers != [] {
      FieldsForAt(headers[..|headers| - 1], values);
    }
  }

  /** The object the header loop builds for one line. */
  function Record(headers: seq<string>, values: seq<string>): Members {
    Assigned(TrimAll(headers), FieldsFor(headers, values), |headers|)
  }

  /** The object after the first `n` keys are assigned their fields. */
  function Assigned(keys: seq<string>, fields: seq<string>, n: nat): Members
    requires n <= |keys| == |fields|
  {
    if n == 0 then []
    else Put(Assigned(keys, fields, n - 1), keys[n - 1], JString(fields[n - 1]))
  }

  /** The `forEach` over the headers. */
  method BuildRecord(headers: seq<string>, values: seq<string>) returns (obj: Members)
    ensures obj == Record(headers, values)
  {
    var keys, fields := TrimAll(headers), FieldsFor(headers, values);
    obj := [];
    var idx := 0;
    while idx < |headers|
      invariant 0 <= idx <= |headers|
      invariant obj == Assigned(keys, fields, idx)
    {
      obj := Put(obj, keys[idx], JString(fields[idx]));
      idx := idx + 1;
    }
  }

  /** The lines of the trimmed input, and the header line's fields. */
  function Lines(csv: string): (lines: seq<string>)
    ensures |lines| >= 1
  {
    SplitOn(Trim(csv), '\n')
  }

  function Headers(csv: string): seq<string> {
    SplitOn(Lines(csv)[0], ',')
  }

  /** The objects of the data lines. */
  function Records(csv: string): seq<Members> {
    var lines := Lines(csv);
    seq(|lines| - 1, i requires 0 <= i < |lines| - 1 => Record(Headers(csv), SplitOn(lines[i + 1], ',')))
  }

  /** `parseCsvToJson` before its final `JSON.stringify`: one object per line after the
      first, in order. */
  method ParseCsvToJson(csv: string) returns (data: seq<Members>)
    ensures data == Records(csv)
    ensures |data| == |Lines(csv)| - 1
  {
    var lines := Lines(csv);
    var headers := Headers(csv);
    data := [];
    var i := 1;
    while i < |lines|
      invariant 1 <= i <= |lines|
      invariant |data| == i - 1
      invariant forall j :: 0 <= j < i - 1 ==> data[j] == Record(headers, SplitOn(lines[j + 1], ','))
    {
      var obj := BuildRecord(headers, SplitOn(lines[i], ','));
      data := data + [obj];
      i := i + 1;
    }
  }

  /** The first occurrences of the strings, in order. */
  function Dedup(s: seq<string>): seq<string> {
    if s == [] then []
    else
      var d := Dedup(s[..|s| - 1]);
      if s[|s| - 1] in d then d else d + [s[|s| - 1]]
  }

  /** `Dedup` keeps each string once and drops none. */
  lemma {:induction false} DedupMembers(s: seq<string>)
    ensures forall i, j :: 0 <= i < j < |Dedup(s)| ==> Dedup(s)[i] != Dedup(s)[j]
    ensures forall k :: k in Dedup(s) <==> k in s
  {
    if s != [] {
      var p := s[..|s| - 1];
      DedupMembers(p);
      assert s == p + [s[|s| - 1]];
    }
  }

  /** The keys of a record are the trimmed headers, each once, in the order of their first
      column. */
  lemma RecordKeys(headers: seq<string>, values: seq<string>)
    ensures Keys(Record(headers, values)) == Dedup(TrimAll(headers))
    ensures DistinctKeys(Record(headers, values))
    ensures forall k :: k in Keys(Record(headers, values)) <==> k in TrimAll(headers)
  {
    var keys := TrimAll(headers);
    AssignedKeys(keys, FieldsFor(headers, values), |headers|);
    assert keys[..|headers|] == keys;
    DedupMembers(keys);
    var r := Record(headers, values);
    assert forall i :: 0 <= i < |r| ==> r[i].0 == Keys(r)[i];
  }

  lemma {:induction false} AssignedKeys(keys: seq<string>, fields: seq<string>, n: nat)
    requires n <= |keys| == |fields|
    ensures Keys(Assigned(keys, fields, n)) == Dedup(keys[..n])
  {
    if n > 0 {
      AssignedKeys(keys, fields, n - 1);
      KeysPut(Assigned(keys, fields, n - 1), keys[n - 1], JString(fields[n - 1]));
      assert keys[..n][..n - 1] == keys[..n - 1];
    }
  }

  /** Under each key is the field of the LAST column with that trimmed header: a later
      duplicate header overwrites an earlier one. */
  lemma RecordLookup(headers: seq<string>, values: seq<string>, i: nat)
    requires i < |headers|
    requires forall j :: i < j < |headers| ==> Trim(headers[j]) != Trim(headers[i])
    ensures Lookup(Record(headers, values), Trim(headers[i])) == Some(JString(FieldAt(values, i)))
  {
    TrimAllAt(headers);
    FieldsForAt(headers, values);
    AssignedLookup(TrimAll(headers), FieldsFor(headers, values), |headers|, i);
  }

  lemma {:induction false} AssignedLookup(keys: seq<string>, fields: seq<string>, n: nat, i: nat)
    requires i < n <= |keys| == |fields|
    requires forall j :: i < j < n ==> keys[j] != keys[i]
    ensures Lookup(Assigned(keys, fields, n), keys[i]) == Some(JString(fields[i]))
  {
    var prev := Assigned(keys, fields, n - 1);
    LookupPut(prev, keys[n - 1], JString(fields[n - 1]), keys[i]);
    if i < n - 1 {
      AssignedLookup(keys, fields, n - 1, i);
    }
  }

  /** Fields past the last header are dropped: only the first |headers| fields matter. */
  lemma RecordIgnoresExtra(headers: seq<string>, values: seq<string>)
    requires |values| > |headers|
    ensures Record(headers, values) == Record(headers, values[..|headers|])
  {
    FieldsForAt(headers, values);
    FieldsForAt(headers, values[..|headers|]);
    assert FieldsFor(headers, values) == FieldsFor(headers, values[..|headers|]);
  }

  /** A line with fewer fields than headers gets "" for every missing field. */
  lemma ShortLinePadded(headers: seq<string>, values: seq<string>, i: nat)
    requires |values| <= i < |headers|
    requires forall j :: i < j < |headers| ==> Trim(headers[j]) != Trim(headers[i])
    ensures Lookup(Record(headers, values), Trim(headers[i])) == Some(JString(""))
  {
    RecordLookup(headers, values, i);
  }

  /** Input without a line break (a header line only) gives an empty array. */
  lemma HeaderOnly(csv: string)
    requires '\n' !in Trim(csv)
    ensures Records(csv) == []
  {
    SplitOnFree(Trim(csv), '\n');
  }

  /** No key of a record contains a comma, since keys are trimmed pieces of a split on
      commas. */
  lemma NoCommaInKeys(csv: string, r: nat, k: string)
    requires r < |Records(csv)| && k in Keys(Records(csv)[r])
    ensures ',' !in k
  {
    var headers := Headers(csv);
    var values := SplitOn(Lines(csv)[r + 1], ',');
    assert Records(csv)[r] == Record(headers, values);
    SplitOnPieces(Lines(csv)[0], ',');
    RecordKeysFree(headers, values, k);
  }

  lemma RecordKeysFree(headers: seq<string>, values: seq<string>, k: string)
    requires forall i :: 0 <= i < |headers| ==> ',' !in headers[i]
    requires k in Keys(Record(headers, values))
    ensures ',' !in k
  {
    RecordKeys(headers, values);
    TrimAllAt(headers);
    var i :| 0 <= i < |headers| && TrimAll(headers)[i] == k;
    if ',' in k { TrimKeeps(headers[i], ','); }
  }

  /** No value of a record contains a comma either: every value is a string, a trimmed
      piece of the line's split on commas, or "". */
  lemma NoCommaInValues(csv: string, r: nat)
    requires r < |Records(csv)|
    ensures forall j :: 0 <= j < |Records(csv)[r]| ==>
              Records(csv)[r][j].1.JString? && ',' !in Records(csv)[r][j].1.s
  {
    var headers := Headers(csv);
    var values := SplitOn(Lines(csv)[r + 1], ',');
    assert Records(csv)[r] == Record(headers, values);
    SplitOnPieces(Lines(csv)[r + 1], ',');
    var fields := FieldsFor(headers, values);
    FieldsForAt(headers, values);
    forall i | 0 <= i < |fields|
      ensures ',' !in fields[i]
    {
      FieldCommaFree(values, i);
    }
    AssignedCommaFree(TrimAll(headers), fields, |headers|);
  }

  lemma FieldCommaFree(values: seq<string>, i: nat)
    requires forall j :: 0 <= j < |values| ==> ',' !in values[j]
    ensures ',' !in FieldAt(values, i)
  {
    if i < |values| && ',' in Trim(values[i]) { TrimKeeps(values[i], ','); }
  }

  /** Every value is a string without a comma. */
  predicate CommaFreeStrings(m: Members) {
    forall j :: 0 <= j < |m| ==> m[j].1.JString? && ',' !in m[j].1.s
  }

  lemma {:induction false} PutCommaFree(m: Members, k: string, v: string)
    requires CommaFreeStrings(m) && ',' !in v
    ensures CommaFreeStrings(Put(m, k, JString(v)))
  {
    if m != [] && m[0].0 != k {
      PutCommaFree(m[1..], k, v);
      assert Put(m, k, JString(v)) == [m[0]] + Put(m[1..], k, JString(v));
    }
  }

  lemma {:induction false} AssignedCommaFree(keys: seq<string>, fields: seq<string>, n: nat)
    requires n <= |keys| == |fields|
    requires forall i :: 0 <= i < |fields| ==> ',' !in fields[i]
    ensures CommaFreeStrings(Assigned(keys, fields, n))
  {
    if n > 0 {
      AssignedCommaFree(keys, fields, n - 1);
      PutCommaFree(Assigned(keys, fields, n - 1), keys[n - 1], fields[n - 1]);
    }
  }

  /** The page state: the text area, the output and the error line. */
  class Page {
    var csvInput: string
    var jsonOutput: string
    var error: string

    constructor()
      ensures csvInput == "" && jsonOutput == "" && error == ""
    {
      csvInput, jsonOutput, error := "", "", "";
    }

    /** `handleConvert`: blank input is the "Invalid CSV format" error with the output
        cleared; anything else is converted (the rest of the parse cannot fail). */
    method Convert(stringify: seq<Members> -> string)
      modifies this
      ensures csvInput == old(csvInput)
      ensures Trim(csvInput) == [] ==> error == "Invalid CSV format" && jsonOutput == ""
      ensures Trim(csvInput) != [] ==> error == "" && jsonOutput == stringify(Records(csvInput))
    {
      if Trim(csvInput) == [] {
        error := "Invalid CSV format";
        jsonOutput := "";
      } else {
        var data := ParseCsvToJson(csvInput);
        jsonOutput := stringify(data);
        error := "";
      }
    }

    /** `handleReset`. */
    method Reset()
      modifies this
      ensures csvInput == "" && jsonOutput == "" && error == ""
    {
      csvInput, jsonOutput, error := "", "", "";
    }
  }
}
