/** The CSV-to-XML page (pages/tools/csv-to-xml.tsx). The trimmed input is split into
    lines on "\n" and every line into cells on ","; there is no quoting. The first line
    gives the tags. Every later line becomes a `<row>` element with one child per cell,
    named by the trimmed header at the same position, holding the trimmed and escaped
    cell. Fewer than two lines, or a line with more cells than there are headers (the
    header lookup reads `undefined`), make the conversion throw. */
module CsvToXml {
  import opened JsString
  import opened XmlEscape
  import opened Options

  /** The rows of the trimmed input, each split into its cells. */
  function Rows(csv: string): (rows: seq<seq<string>>)
    ensures |rows| == |SplitOn(Trim(csv), '\n')|
  {
    var lines := SplitOn(Trim(csv), '\n');
    seq(|lines|, i requires 0 <= i < |lines| => SplitOn(lines[i], ','))
  }

  /** The line of one cell: the trimmed header as tag around the trimmed, escaped cell. */
  function CellLine(header: string, cell: string): string {
    var tag := Trim(header);
    "    <" + tag + ">" + EscapeXml(Trim(cell)) + "</" + tag + ">"
  }

  /** `row.map(...)`: one line per cell, never one per header. */
  function Cells(headers: seq<string>, row: seq<string>): (cells: seq<string>)
    requires |row| <= |headers|
    ensures |cells| == |row|
  {
    if row == [] then []
    else Cells(headers, row[..|row| - 1]) + [CellLine(headers[|row| - 1], row[|row| - 1])]
  }

  /** The `<row>` element of one data line. */
  function RowBlock(headers: seq<string>, row: seq<string>): string
    requires |row| <= |headers|
  {
    "  <row>\n" + Join(Cells(headers, row), "\n") + "\n  </row>"
  }

  /** The row elements in order; `None` when some line has more cells than there are
      headers. */
  function RowBlocks(headers: seq<string>, rows: seq<seq<string>>): Option<seq<string>> {
    if rows == [] then Some([])
    else if |rows[0]| > |headers| then None
    else
      match RowBlocks(headers, rows[1..])
      case None => None
      case Some(bs) => Some([RowBlock(headers, rows[0])] + bs)
  }

  /** `parseCsvToXml`; `None` stands for the exception it throws. */
  function ParseCsvToXml(csv: string): Option<string> {
    var rows := Rows(csv);
    if |rows| < 2 then None
    else
      match RowBlocks(rows[0], rows[1..])
      case None => None
      case Some(bs) => Some("<root>\n" + Join(bs, "\n") + "\n</root>")
  }

  /** `handleConvert`: the new output and error line. Any failure is reported as
      "Invalid CSV format" with the output cleared. */
  function HandleConvert(csv: string): (r: (string, string))
    ensures r.1 == "" || r == ("", "Invalid CSV format")
    ensures r.1 == "" <==> ParseCsvToXml(csv).Some?
    ensures ParseCsvToXml(csv).Some? ==> r == (ParseCsvToXml(csv).value, "")
  {
    match ParseCsvToXml(csv)
    case None => ("", "Invalid CSV format")
    case Some(xml) => (xml, "")
  }

  /** Each cell line of a row, position by position. */
  lemma {:induction false} CellsAt(headers: seq<string>, row: seq<string>)
    requires |row| <= |headers|
    ensures forall i :: 0 <= i < |row| ==> Cells(headers, row)[i] == CellLine(headers[i], row[i])
  {
    if row != [] {
      CellsAt(headers, row[..|row| - 1]);
    }
  }

  /** The row elements exist exactly when no line is longer than the header line, and
      then there is one per line, in order. */
  lemma {:induction false} RowBlocksSpec(headers: seq<string>, rows: seq<seq<string>>)
    ensures RowBlocks(headers, rows).Some? <==> forall i :: 0 <= i < |rows| ==> |rows[i]| <= |headers|
    ensures RowBlocks(headers, rows).Some? ==>
              var bs := RowBlocks(headers, rows).value;
              |bs| == |rows| &&
              forall i :: 0 <= i < |rows| ==> |rows[i]| <= |headers| && bs[i] == RowBlock(headers, rows[i])
  {
    RowBlocksDefined(headers, rows);
    if RowBlocks(headers, rows).Some? {
      RowBlocksEach(headers, rows);
    }
  }

  lemma {:induction false} RowBlocksDefined(headers: seq<string>, rows: seq<seq<string>>)
    ensures RowBlocks(headers, rows).Some? <==> forall i :: 0 <= i < |rows| ==> |rows[i]| <= |headers|
  {
    if rows != [] {
      RowBlocksDefined(headers, rows[1..]);
      if |rows[0]| <= |headers| {
        if RowBlocks(headers, rows[1..]).Some? {
          forall i | 1 <= i < |rows| ensures |rows[i]| <= |headers| {
            var k := i - 1;
            assert rows[i] == rows[1..][k];
          }
        } else {
          var k :| 0 <= k < |rows[1..]| && |rows[1..][k]| > |headers|;
          assert rows[k + 1] == rows[1..][k];
        }
      }
    }
  }

  lemma {:induction false} RowBlocksEach(headers: seq<string>, rows: seq<seq<string>>)
    requires RowBlocks(headers, rows).Some?
    ensures var bs := RowBlocks(headers, rows).value;
              |bs| == |rows| &&
              forall i :: 0 <= i < |rows| ==> |rows[i]| <= |headers| && bs[i] == RowBlock(headers, rows[i])
  {
    if rows != [] {
      var t := RowBlocks(headers, rows[1..]);
      assert t.Some?;
      RowBlocksEach(headers, rows[1..]);
      var bs := RowBlocks(headers, rows).value;
      assert bs == [RowBlock(headers, rows[0])] + t.value;
      forall i | 0 <= i < |rows| ensures |rows[i]| <= |headers| && bs[i] == RowBlock(headers, rows[i]) {
        if i > 0 {
          var k := i - 1;
          assert rows[i] == rows[1..][k];
          assert bs[i] == t.value[k];
        }
      }
    }
  }

  /** The conversion fails exactly when the trimmed input has fewer than two lines or a
      data line has more cells than the header line. */
  lemma ParseSucceeds(csv: string)
    ensures var rows := Rows(csv);
            ParseCsvToXml(csv).Some? <==>
              |rows| >= 2 && forall i :: 1 <= i < |rows| ==> |rows[i]| <= |rows[0]|
  {
    var rows := Rows(csv);
    if |rows| >= 2 {
      RowBlocksSpec(rows[0], rows[1..]);
      assert forall i :: 1 <= i < |rows| ==> rows[i] == rows[1..][i - 1];
    }
  }

  /** Input whose trimmed text has no line break, the empty input included, is the error
      with the output cleared. */
  lemma SingleLineFails(csv: string)
    requires '\n' !in Trim(csv)
    ensures HandleConvert(csv) == ("", "Invalid CSV format")
  {
    SplitOnFree(Trim(csv), '\n');
  }

  /** The lines of one row element. */
  function BlockLines(headers: seq<string>, row: seq<string>): seq<string>
    requires |row| <= |headers|
  {
    ["  <row>"] + Cells(headers, row) + ["  </row>"]
  }

  /** The lines of all row elements, one after another. */
  function DataLines(headers: seq<string>, rows: seq<seq<string>>): seq<string>
    requires forall i :: 0 <= i < |rows| ==> |rows[i]| <= |headers|
  {
    Flatten(seq(|rows|, i requires 0 <= i < |rows| => BlockLines(headers, rows[i])))
  }

  lemma RowBlockLines(headers: seq<string>, row: seq<string>)
    requires |row| >= 1 && |row| <= |headers|
    ensures RowBlock(headers, row) == Join(BlockLines(headers, row), "\n")
  {
    var cs := Cells(headers, row);
    JoinAppend(["  <row>"], cs, "\n");
    JoinAppend(["  <row>"] + cs, ["  </row>"], "\n");
  }

  /** A cell line has no line break when its header and cell have none: trimming and
      escaping add none. */
  lemma CellLineOneLine(header: string, cell: string)
    requires '\n' !in header && '\n' !in cell
    ensures '\n' !in CellLine(header, cell)
  {
    if '\n' in Trim(header) {
      TrimKeeps(header, '\n');
    }
    if '\n' in EscapeXml(Trim(cell)) {
      EscapeXmlKeeps(Trim(cell), '\n');
      TrimKeeps(cell, '\n');
    }
  }

  /** The output read line by line: "<root>", then for every data line in order "  <row>",
      one cell line per cell and "  </row>", then "</root>". */
  lemma OutputLines(csv: string)
    requires ParseCsvToXml(csv).Some?
    ensures var rows := Rows(csv);
            |rows| >= 2 && (forall i :: 1 <= i < |rows| ==> |rows[i]| <= |rows[0]|) &&
            SplitOn(ParseCsvToXml(csv).value, '\n') == ["<root>"] + DataLines(rows[0], rows[1..]) + ["</root>"]
  {
    var lines := SplitOn(Trim(csv), '\n');
    var rows := Rows(csv);
    ParseSucceeds(csv);
    SplitOnPieces(Trim(csv), '\n');
    forall i | 0 <= i < |rows|
      ensures |rows[i]| >= 1 && forall j :: 0 <= j < |rows[i]| ==> '\n' !in rows[i][j]
    {
      SplitOnKeeps(lines[i], ',', '\n');
    }
    DocumentLines(rows[0], rows[1..]);
  }

  /** The document of row elements read line by line, provided there is a data line, no
      header or cell holds a line break and no data line is empty. */
  lemma DocumentLines(headers: seq<string>, data: seq<seq<string>>)
    requires |data| >= 1
    requires forall j :: 0 <= j < |headers| ==> '\n' !in headers[j]
    requires forall i :: 0 <= i < |data| ==>
               1 <= |data[i]| <= |headers| && forall j :: 0 <= j < |data[i]| ==> '\n' !in data[i][j]
    ensures RowBlocks(headers, data).Some?
    ensures SplitOn("<root>\n" + Join(RowBlocks(headers, data).value, "\n") + "\n</root>", '\n') ==
            ["<root>"] + DataLines(headers, data) + ["</root>"]
  {
    RowBlocksSpec(headers, data);
    DocumentJoin(headers, data);
    DataLinesOneLine(headers, data);
    SplitOnJoin(["<root>"] + DataLines(headers, data) + ["</root>"], '\n');
  }

  /** The document is the join of its lines. */
  lemma DocumentJoin(headers: seq<string>, data: seq<seq<string>>)
    requires |data| >= 1
    requires forall i :: 0 <= i < |data| ==> 1 <= |data[i]| <= |headers|
    ensures RowBlocks(headers, data).Some?
    ensures "<root>\n" + Join(RowBlocks(headers, data).value, "\n") + "\n</root>" ==
            Join(["<root>"] + DataLines(headers, data) + ["</root>"], "\n")
  {
    BodyJoin(headers, data);
    var body := DataLines(headers, data);
    JoinAppend(["<root>"], body, "\n");
    JoinAppend(["<root>"] + body, ["</root>"], "\n");
    RootText(Join(body, "\n"));
  }

  /** The row elements joined are the data lines joined. */
  lemma BodyJoin(headers: seq<string>, data: seq<seq<string>>)
    requires |data| >= 1
    requires forall i :: 0 <= i < |data| ==> 1 <= |data[i]| <= |headers|
    ensures RowBlocks(headers, data).Some?
    ensures Join(RowBlocks(headers, data).value, "\n") == Join(DataLines(headers, data), "\n")
    ensures |DataLines(headers, data)| >= 1
  {
    RowBlocksSpec(headers, data);
    var bs := RowBlocks(headers, data).value;
    var ls := seq(|data|, i requires 0 <= i < |data| => BlockLines(headers, data[i]));
    forall i | 0 <= i < |data| ensures bs[i] == Join(ls[i], "\n") {
      RowBlockLines(headers, data[i]);
    }
    assert bs == seq(|ls|, i requires 0 <= i < |ls| => Join(ls[i], "\n"));
    JoinFlatten(ls, "\n");
    FlattenNonEmpty(ls);
  }

  lemma RootText(j: string)
    ensures Join(["<root>"], "\n") + "\n" + j + "\n" + Join(["</root>"], "\n") == "<root>\n" + j + "\n</root>"
  {
    assert Join(["<root>"], "\n") + "\n" == "<root>\n";
    ConcatAssoc("<root>\n" + j, "\n", "</root>");
    assert "\n" + "</root>" == "\n</root>";
  }

  lemma DataLinesOneLine(headers: seq<string>, data: seq<seq<string>>)
    requires forall j :: 0 <= j < |headers| ==> '\n' !in headers[j]
    requires forall i :: 0 <= i < |data| ==>
               |data[i]| <= |headers| && forall j :: 0 <= j < |data[i]| ==> '\n' !in data[i][j]
    ensures forall k :: 0 <= k < |DataLines(headers, data)| ==> '\n' !in DataLines(headers, data)[k]
  {
    var ls := seq(|data|, i requires 0 <= i < |data| => BlockLines(headers, data[i]));
    forall i | 0 <= i < |ls| ensures forall j :: 0 <= j < |ls[i]| ==> '\n' !in ls[i][j] {
      BlockLinesOneLine(headers, data[i]);
    }
    FlattenFree(ls, '\n');
  }

  lemma BlockLinesOneLine(headers: seq<string>, row: seq<string>)
    requires forall j :: 0 <= j < |headers| ==> '\n' !in headers[j]
    requires |row| <= |headers| && forall j :: 0 <= j < |row| ==> '\n' !in row[j]
    ensures forall j :: 0 <= j < |BlockLines(headers, row)| ==> '\n' !in BlockLines(headers, row)[j]
  {
    var c := Cells(headers, row);
    CellsOneLine(headers, row);
    var ls := BlockLines(headers, row);
    assert ls == ["  <row>"] + c + ["  </row>"];
    forall j | 0 <= j < |ls| ensures '\n' !in ls[j] {
      if 1 <= j <= |c| {
        var k := j - 1;
        assert ls[j] == c[k];
      }
    }
  }

  lemma CellsOneLine(headers: seq<string>, row: seq<string>)
    requires forall j :: 0 <= j < |headers| ==> '\n' !in headers[j]
    requires |row| <= |headers| && forall j :: 0 <= j < |row| ==> '\n' !in row[j]
    ensures forall j :: 0 <= j < |Cells(headers, row)| ==> '\n' !in Cells(headers, row)[j]
  {
    CellsAt(headers, row);
    forall j | 0 <= j < |row| ensures '\n' !in Cells(headers, row)[j] {
      CellLineOneLine(headers[j], row[j]);
    }
  }


  /** Cell values are trimmed and escaped, so that unescaping gives the trimmed cell back;
      the tag is the trimmed header, not escaped. */
  lemma CellLineContent(header: string, cell: string)
    ensures exists e :: CellLine(header, cell) == "    <" + Trim(header) + ">" + e + "</" + Trim(header) + ">" &&
                        UnescapeXml(e) == Trim(cell) && IsEscaped(e)
  {
    var e := EscapeXml(Trim(cell));
    UnescapeEscapeXml(Trim(cell));
    EscapeXmlIsSafe(Trim(cell));
  }
}
