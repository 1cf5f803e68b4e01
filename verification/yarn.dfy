/**
 The projection of `yarn licenses ls --json` output onto a project-to-licence
 map (`src/license-finders/yarn.js`; `src/report.js` carries a verbatim copy).
 Running yarn and `JSON.parse` are outside the model: each output line comes
 with the record `parse` gives for it, or `None` where `JSON.parse` throws.
 */
module Yarn {
  import opened Seqs
  import opened Deps

  /** The `data` of a table record: column names and rows of cells. */
  datatype Table = Table(head: seq<string>, body: seq<seq<string>>)

  /** One parsed output line, `{type, data}`. */
  datatype Record = Record(kind: string, data: Table)

  /** What the scan for the first table record finds. */
  datatype RawData =
    | Found(table: Table)
    | NoTable
    | Malformed(line: string)   // `JSON.parse` threw on this line

  /** The result of `parseRawOutput`: the map, or the line that made `JSON.parse` throw. */
  datatype Listing = Listing(entries: seq<Dep>) | ParseFailure(line: string)

  /** The code points ECMAScript's `String.prototype.trim` removes (WhiteSpace and LineTerminator). */
  predicate IsJsWhitespace(c: char) {
    || c == ' ' || c == '\t' || c == '\n' || c == '\r'
    || c == '\U{000B}' || c == '\U{000C}' || c == '\U{00A0}' || c == '\U{1680}'
    || ('\U{2000}' <= c <= '\U{200A}')
    || c == '\U{2028}' || c == '\U{2029}' || c == '\U{202F}' || c == '\U{205F}'
    || c == '\U{3000}' || c == '\U{FEFF}'
  }

  /** Drops leading whitespace. */
  function TrimStart(s: string): (r: string)
    ensures |r| <= |s| && r == s[|s| - |r|..]
    ensures forall k | 0 <= k < |s| - |r| :: IsJsWhitespace(s[k])
    ensures |r| > 0 ==> !IsJsWhitespace(r[0])
  {
    if |s| > 0 && IsJsWhitespace(s[0]) then TrimStart(s[1..]) else s
  }

  /** Drops trailing whitespace. */
  function TrimEnd(s: string): (r: string)
    ensures |r| <= |s| && r == s[..|r|]
    ensures forall k | |r| <= k < |s| :: IsJsWhitespace(s[k])
    ensures |r| > 0 ==> !IsJsWhitespace(r[|r| - 1])
  {
    if |s| > 0 && IsJsWhitespace(s[|s| - 1]) then TrimEnd(s[..|s| - 1]) else s
  }

  /** `String.prototype.trim`. */
  function Trim(s: string): string {
    TrimEnd(TrimStart(s))
  }

  /** The test `lineRaw.trim().length === 0`. */
  predicate IsBlank(line: string) {
    |Trim(line)| == 0
  }

  /** A line trims to nothing exactly when every character of it is whitespace. */
  lemma BlankIffAllWhitespace(line: string)
    ensures IsBlank(line) <==> forall k | 0 <= k < |line| :: IsJsWhitespace(line[k])
  {
    var t := TrimStart(line);
  }

  /** A line the scan passes over: blank, or a well-formed record that is not a table. */
  predicate Skippable(line: string, parse: string -> Option<Record>) {
    IsBlank(line) || (parse(line).Some? && parse(line).value.kind != "table")
  }

  /**
   `findRawData`: the data of the first record whose type is "table", skipping
   blank lines; the scan stops at the first line `JSON.parse` rejects.
   */
  function FindRawData(lines: seq<string>, parse: string -> Option<Record>): (r: RawData)
    ensures r == NoTable <==> forall k | 0 <= k < |lines| :: Skippable(lines[k], parse)
    ensures r.Malformed? ==> r.line in lines && parse(r.line).None?
  {
    if |lines| == 0 then NoTable
    else if IsBlank(lines[0]) then FindRawData(lines[1..], parse)
    else match parse(lines[0])
      case None => Malformed(lines[0])
      case Some(rec) =>
        if rec.kind == "table" then Found(rec.data) else FindRawData(lines[1..], parse)
  }

  /**
   Blank lines and non-table records before a line are ignored, and the first
   line that is neither decides the result; whatever follows it is never read.
   */
  lemma {:induction false} FirstTableWins(
    before: seq<string>, line: string, after: seq<string>, parse: string -> Option<Record>)
    requires forall k | 0 <= k < |before| :: Skippable(before[k], parse)
    requires !Skippable(line, parse)
    ensures FindRawData(before + [line] + after, parse)
         == if parse(line).None? then Malformed(line) else Found(parse(line).value.data)
    decreases |before|
  {
    var all := before + [line] + after;
    if |before| == 0 {
      assert all[0] == line && all[1..] == after;
    } else {
      assert all[0] == before[0];
      assert all[1..] == before[1..] + [line] + after;
      FirstTableWins(before[1..], line, after, parse);
    }
  }

  /** With no table record at all the map is empty. */
  lemma NoTableGivesEmptyMap(lines: seq<string>, parse: string -> Option<Record>)
    requires forall k | 0 <= k < |lines| :: Skippable(lines[k], parse)
    ensures ParseRawOutput(lines, parse) == Listing([])
  {
  }

  /** Column `n` is the first one called `field`. */
  ghost predicate FirstColumn(head: seq<string>, field: string, n: int) {
    0 <= n < |head| && head[n] == field && field !in head[..n]
  }

  /** `fieldToIndex`: the first position of `field` in `head`, or -1 when it is absent. */
  function FieldToIndex(head: seq<string>, field: string): (i: int)
    ensures -1 <= i < |head|
    ensures i == -1 <==> field !in head
    ensures i >= 0 ==> FirstColumn(head, field, i)
  {
    if |head| == 0 then -1
    else if head[0] == field then 0
    else
      var k := FieldToIndex(head[1..], field);
      assert head == [head[0]] + head[1..];
      if k == -1 then -1
      else
        assert head[..k + 1] == [head[0]] + head[1..][..k];
        k + 1
  }

  lemma FirstColumnUnique(head: seq<string>, field: string, a: int, b: int)
    requires FirstColumn(head, field, a) && FirstColumn(head, field, b)
    ensures a == b
  {
  }

  /**
   `parseProjectAndLicense`: the cells under the first "Name" and the first
   "License" column. `None` stands for a row in which one of them is missing.
   */
  function ParseProjectAndLicense(head: seq<string>, row: seq<string>): (r: Option<Dep>)
    ensures r.Some? ==> r.value.project in row && r.value.license in row
  {
    var n := FieldToIndex(head, "Name");
    var l := FieldToIndex(head, "License");
    if 0 <= n < |row| && 0 <= l < |row| then Some(Dep(row[n], row[l])) else None
  }

  /**
   A row yields an entry exactly when the header has both a "Name" and a
   "License" column and the row reaches both; the entry is the pair of cells
   under the first such columns.
   */
  lemma ParseColumns(head: seq<string>, row: seq<string>)
    ensures var r := ParseProjectAndLicense(head, row);
            && (r.Some? <==> exists n, l :: FirstColumn(head, "Name", n) && FirstColumn(head, "License", l)
                                            && n < |row| && l < |row|)
            && (forall n, l | FirstColumn(head, "Name", n) && FirstColumn(head, "License", l) ::
                  r.Some? ==> r.value == Dep(row[n], row[l]))
  {
    var n := FieldToIndex(head, "Name");
    var l := FieldToIndex(head, "License");
    forall n', l' | FirstColumn(head, "Name", n') && FirstColumn(head, "License", l')
      ensures n' == n && l' == l
    {
      FirstColumnUnique(head, "Name", n, n');
      FirstColumnUnique(head, "License", l, l');
    }
  }

  /** Row `row` yields an entry for project `p`. */
  predicate RowNames(head: seq<string>, row: seq<string>, p: Project) {
    var e := ParseProjectAndLicense(head, row);
    e.Some? && e.value.project == p
  }

  /**
   The `reduce` of `parseRawOutput`: `Map.prototype.set` for each row's entry
   in row order, so a later row for the same project overwrites the licence.
   */
  function FoldRows(head: seq<string>, rows: seq<seq<string>>): (r: seq<Dep>)
    ensures DistinctProjects(r)
    decreases |rows|
  {
    if |rows| == 0 then []
    else
      var acc := FoldRows(head, rows[..|rows| - 1]);
      match ParseProjectAndLicense(head, rows[|rows| - 1])
      case None => acc
      case Some(d) => MapSetEntries(acc, d); MapSet(acc, d)
  }

  /** Row `k` is the last row that yields an entry for `p`. */
  ghost predicate LastRowFor(head: seq<string>, rows: seq<seq<string>>, p: Project, k: int) {
    && 0 <= k < |rows|
    && RowNames(head, rows[k], p)
    && forall j | k < j < |rows| :: !RowNames(head, rows[j], p)
  }

  lemma FoldSnoc(head: seq<string>, rows: seq<seq<string>>, row: seq<string>, p: Project)
    ensures Lookup(FoldRows(head, rows + [row]), p)
         == if RowNames(head, row, p) then Some(ParseProjectAndLicense(head, row).value.license)
            else Lookup(FoldRows(head, rows), p)
  {
    assert (rows + [row])[..|rows|] == rows;
  }

  /**
   The folded map has a key for exactly the projects some row names, and its
   licence for a project is the one in the last row naming it.
   */
  lemma {:induction false} FoldLastRowWins(head: seq<string>, rows: seq<seq<string>>, p: Project)
    ensures Lookup(FoldRows(head, rows), p).None? <==> forall k | 0 <= k < |rows| :: !RowNames(head, rows[k], p)
    ensures forall k | LastRowFor(head, rows, p, k) ::
              Lookup(FoldRows(head, rows), p) == Some(ParseProjectAndLicense(head, rows[k]).value.license)
    decreases |rows|
  {
    if |rows| > 0 {
      var rows' := rows[..|rows| - 1];
      var row := rows[|rows| - 1];
      assert rows == rows' + [row];
      FoldLastRowWins(head, rows', p);
      FoldSnoc(head, rows', row, p);
      forall k | LastRowFor(head, rows, p, k) && k < |rows'| ensures LastRowFor(head, rows', p, k) {
        assert rows'[k] == rows[k];
        forall j | k < j < |rows'| ensures !RowNames(head, rows'[j], p) {
          assert rows'[j] == rows[j];
        }
      }
      if forall k | 0 <= k < |rows| :: !RowNames(head, rows[k], p) {
        assert !RowNames(head, row, p);
        forall k | 0 <= k < |rows'| ensures !RowNames(head, rows'[k], p) {
          assert rows'[k] == rows[k];
        }
      } else {
        var k :| 0 <= k < |rows| && RowNames(head, rows[k], p);
        if k < |rows'| {
          assert rows'[k] == rows[k];
        }
      }
    }
  }

  /** `parseRawOutput`: the map of the first table, empty when there is none. */
  function ParseRawOutput(lines: seq<string>, parse: string -> Option<Record>): (r: Listing)
    ensures r.Listing? ==> DistinctProjects(r.entries)
    ensures r.ParseFailure? <==> FindRawData(lines, parse).Malformed?
  {
    match FindRawData(lines, parse)
    case Malformed(line) => ParseFailure(line)
    case NoTable => Listing([])
    case Found(t) => Listing(FoldRows(t.head, t.body))
  }

  /** The map comes from the rows of the first table record, whatever follows it. */
  lemma FirstTableGivesItsRows(
    before: seq<string>, line: string, after: seq<string>, parse: string -> Option<Record>, t: Table)
    requires forall k | 0 <= k < |before| :: Skippable(before[k], parse)
    requires !IsBlank(line) && parse(line) == Some(Record("table", t))
    ensures ParseRawOutput(before + [line] + after, parse) == Listing(FoldRows(t.head, t.body))
  {
    FirstTableWins(before, line, after, parse);
  }

  /** Yarn's column layout, with a project listed twice: the last row wins, at the first row's position. */
  lemma YarnTableExample(head: seq<string>, rows: seq<seq<string>>)
    requires head == ["Name", "Version", "License"]
    requires rows == [["a", "1.0.0", "MIT"], ["b", "2.0.0", "ISC"], ["a", "1.1.0", "BSD-3-Clause"]]
    ensures FoldRows(head, rows) == [Dep("a", "BSD-3-Clause"), Dep("b", "ISC")]
  {
    ExampleParses();
    FoldThreeRows(head, rows, Dep("a", "MIT"), Dep("b", "ISC"), Dep("a", "BSD-3-Clause"));
  }

  /** A later row for a project overwrites the earlier one in place; another project keeps its slot. */
  lemma FoldThreeRows(head: seq<string>, rows: seq<seq<string>>, d1: Dep, d2: Dep, d3: Dep)
    requires |rows| == 3
    requires ParseProjectAndLicense(head, rows[0]) == Some(d1)
    requires ParseProjectAndLicense(head, rows[1]) == Some(d2)
    requires ParseProjectAndLicense(head, rows[2]) == Some(d3)
    requires d1.project != d2.project && d3.project == d1.project
    ensures FoldRows(head, rows) == [d3, d2]
  {
    var front := rows[..2];
    FrontLast(rows);
    FoldTwoRows(head, front, d1, d2);
    FoldAppend(head, front, rows[2], d3);
    MapSetHead(d1, [d2], d3);
    assert [d1] + [d2] == [d1, d2] && [d3] + [d2] == [d3, d2];
  }

  /** Two rows for different projects give their entries in row order. */
  lemma FoldTwoRows(head: seq<string>, rows: seq<seq<string>>, d1: Dep, d2: Dep)
    requires |rows| == 2
    requires ParseProjectAndLicense(head, rows[0]) == Some(d1)
    requires ParseProjectAndLicense(head, rows[1]) == Some(d2)
    requires d1.project != d2.project
    ensures FoldRows(head, rows) == [d1, d2]
  {
    FrontLast(rows);
    FoldOneRow(head, rows[..1], d1);
    FoldAppend(head, rows[..1], rows[1], d2);
    assert Projects([d1]) == {d1.project};
  }

  lemma FoldOneRow(head: seq<string>, rows: seq<seq<string>>, d1: Dep)
    requires |rows| == 1
    requires ParseProjectAndLicense(head, rows[0]) == Some(d1)
    ensures FoldRows(head, rows) == [d1]
  {
    FrontLast(rows);
    FoldAppend(head, rows[..0], rows[0], d1);
    assert Projects([]) == {};
  }

  lemma ExampleParses()
    ensures ParseProjectAndLicense(["Name", "Version", "License"], ["a", "1.0.0", "MIT"]) == Some(Dep("a", "MIT"))
    ensures ParseProjectAndLicense(["Name", "Version", "License"], ["b", "2.0.0", "ISC"]) == Some(Dep("b", "ISC"))
    ensures ParseProjectAndLicense(["Name", "Version", "License"], ["a", "1.1.0", "BSD-3-Clause"])
         == Some(Dep("a", "BSD-3-Clause"))
  {
    assert FieldToIndex(["Name", "Version", "License"], "Name") == 0;
    assert FieldToIndex(["Name", "Version", "License"], "License") == 2;
  }

  /** A row that yields `d` sets `d` into the map folded so far. */
  lemma FoldAppend(head: seq<string>, rows: seq<seq<string>>, row: seq<string>, d: Dep)
    requires ParseProjectAndLicense(head, row) == Some(d)
    ensures FoldRows(head, rows + [row]) == MapSet(FoldRows(head, rows), d)
  {
    FoldRowsSnoc(head, rows, row);
  }

  lemma FoldRowsSnoc(head: seq<string>, rows: seq<seq<string>>, row: seq<string>)
    ensures FoldRows(head, rows + [row]) == match ParseProjectAndLicense(head, row)
                                             case None => FoldRows(head, rows)
                                             case Some(d) => MapSet(FoldRows(head, rows), d)
  {
    assert (rows + [row])[..|rows|] == rows;
  }
}
