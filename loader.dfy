/**
 * The synchronous part of loadCategoriesAndData: the document text is
 * trimmed and split into lines, the first line is the header, each later
 * line becomes an InnovationData record unless it is too short or its
 * country or category is blank, and the categories of the kept records are
 * collected into a Set and sorted. A header without `country` or `category`
 * fails the whole load.
 */
module Loader {
  import opened Text
  import opened Counting
  import opened Sorting
  import opened CsvLine

  /** One innovation: every field a trimmed string, '' when absent. */
  datatype InnovationData = InnovationData(
    agency: string,
    country: string,
    name: string,
    project: string,
    category: string,
    technicalInnovation: string,
    innovationX5: string,
    when: string,
    stillActive: string,
    source: string)

  /** The position of each header name, -1 when the header lacks it. */
  datatype Columns = Columns(
    country: int,
    category: int,
    agency: int,
    name: int,
    project: int,
    technicalInnovation: int,
    innovationX5: int,
    when: int,
    stillActive: int,
    source: int)

  datatype LoadError = RequiredColumnsMissing

  datatype Result<T> = Ok(value: T) | Err(error: LoadError)

  datatype CategoryData = CategoryData(categories: seq<string>, rawData: seq<InnovationData>)

  /** i is what `headers.indexOf(name)` returns: the first exact match, or -1 when there is none. */
  predicate FirstIndex(headers: seq<string>, name: string, i: int) {
    if i == -1 then name !in headers
    else 0 <= i < |headers| && headers[i] == name && name !in headers[..i]
  }

  /** `headers.indexOf(...)` for each expected name, matched exactly and case-sensitively. */
  function ResolveColumns(headers: seq<string>): Columns {
    Columns(
      IndexOf(headers, "country"),
      IndexOf(headers, "category"),
      IndexOf(headers, "agency"),
      IndexOf(headers, "name"),
      IndexOf(headers, "project"),
      IndexOf(headers, "technical_innovation"),
      IndexOf(headers, "innovation_x5"),
      IndexOf(headers, "When?"),
      IndexOf(headers, "still_active?"),
      IndexOf(headers, "source"))
  }

  /** Every column index is the first exact, case-sensitive match of its name in the header, or -1 when the name is absent. */
  lemma ResolveColumnsFacts(headers: seq<string>)
    ensures var r := ResolveColumns(headers);
      && FirstIndex(headers, "country", r.country) && FirstIndex(headers, "category", r.category)
      && FirstIndex(headers, "agency", r.agency) && FirstIndex(headers, "name", r.name)
      && FirstIndex(headers, "project", r.project)
      && FirstIndex(headers, "technical_innovation", r.technicalInnovation)
      && FirstIndex(headers, "innovation_x5", r.innovationX5) && FirstIndex(headers, "When?", r.when)
      && FirstIndex(headers, "still_active?", r.stillActive) && FirstIndex(headers, "source", r.source)
  {
  }

  /** `columns[index]?.trim() || ''`: a missing index (-1) or one past the end reads as ''. */
  function Cell(columns: seq<string>, index: int): (r: string)
    ensures !(0 <= index < |columns|) ==> r == ""
  {
    if 0 <= index < |columns| then Trim(columns[index]) else ""
  }

  function Max(a: int, b: int): int {
    if a < b then b else a
  }

  /** A row is kept when it reaches both required columns and neither is blank. */
  predicate Keeps(cols: Columns, columns: seq<string>) {
    && |columns| > Max(cols.country, cols.category)
    && Cell(columns, cols.country) != ""
    && Cell(columns, cols.category) != ""
  }

  function RowRecord(cols: Columns, columns: seq<string>): InnovationData {
    InnovationData(
      Cell(columns, cols.agency),
      Cell(columns, cols.country),
      Cell(columns, cols.name),
      Cell(columns, cols.project),
      Cell(columns, cols.category),
      Cell(columns, cols.technicalInnovation),
      Cell(columns, cols.innovationX5),
      Cell(columns, cols.when),
      Cell(columns, cols.stillActive),
      Cell(columns, cols.source))
  }

  /** What one data line contributes: its record, or nothing when the row is skipped. */
  function LineRecords(cols: Columns, line: string): seq<InnovationData> {
    var columns := Fields(line);
    if Keeps(cols, columns) then [RowRecord(cols, columns)] else []
  }

  /** The records of the data lines, in line order. */
  function RecordsOf(cols: Columns, rows: seq<string>): seq<InnovationData> {
    if rows == [] then []
    else RecordsOf(cols, rows[..|rows| - 1]) + LineRecords(cols, rows[|rows| - 1])
  }

  /** The category of each record, in record order. */
  function CategoriesOf(records: seq<InnovationData>): seq<string> {
    seq(|records|, j requires 0 <= j < |records| => records[j].category)
  }

  /** `csvText.trim().split('\n')`. */
  function Lines(csvText: string): (r: seq<string>)
    ensures |r| >= 1
  {
    Split(Trim(csvText), '\n')
  }

  /** The outcome of loading a header line and its data lines. */
  function Build(header: string, rows: seq<string>): Result<CategoryData> {
    var cols := ResolveColumns(Fields(header));
    if cols.country == -1 || cols.category == -1 then Err(RequiredColumnsMissing)
    else
      var records := RecordsOf(cols, rows);
      Ok(CategoryData(SortBy(Distinct(CategoriesOf(records)), Self), records))
  }

  /** The outcome of loading a whole document. */
  function Load(csvText: string): Result<CategoryData> {
    var lines := Lines(csvText);
    Build(lines[0], lines[1..])
  }

  /**
   * loadCategoriesAndData after the fetch: the text is trimmed and split
   * into lines, and the lines are loaded.
   */
  method LoadCategoriesAndData(csvText: string) returns (r: Result<CategoryData>)
    ensures r == Load(csvText)
    ensures r.Err? <==> var headers := Fields(Lines(csvText)[0]); "country" !in headers || "category" !in headers
    ensures r.Ok? ==>
      && (forall rec :: rec in r.value.rawData ==> WellFormed(rec))
      && Ascending(r.value.categories, Self)
  {
    var lines := Lines(csvText);
    r := LoadLines(lines);
    LoadOutcome(csvText);
  }

  /**
   * The header is parsed and the two required columns looked up; then the
   * loop over the data lines pushes records and adds their categories to an
   * insertion-ordered Set, which is finally sorted.
   */
  method LoadLines(lines: seq<string>) returns (r: Result<CategoryData>)
    requires |lines| >= 1
    ensures r == Build(lines[0], lines[1..])
  {
    var headers := ParseCSVLine(lines[0]);
    var cols := ResolveColumns(headers);
    if cols.country == -1 || cols.category == -1 {
      return Err(RequiredColumnsMissing);
    }
    var categories: seq<string> := [];
    var rawData: seq<InnovationData> := [];
    var i := 1;
    while i < |lines|
      invariant 1 <= i <= |lines|
      invariant rawData == RecordsOf(cols, lines[1..i])
      invariant categories == Distinct(CategoriesOf(rawData))
    {
      var row := ReadRow(cols, lines[i]);
      RecordsStep(cols, lines, i, rawData, row);
      if row != [] {
        var record := row[0];
        CategoriesStep(rawData, record, categories);
        if record.category !in categories {
          categories := categories + [record.category];
        }
        assert row == [record];
        rawData := rawData + [record];
      } else {
        assert rawData + row == rawData;
      }
      i := i + 1;
    }
    assert lines[1..i] == lines[1..] by {
      SliceToEnd(lines, i);
    }
    return Ok(CategoryData(SortBy(categories, Self), rawData));
  }

  /**
   * The body of the loop over the data lines: the line is parsed, and a
   * record is built when the row reaches both required columns and neither
   * cell is blank.
   */
  method ReadRow(cols: Columns, line: string) returns (row: seq<InnovationData>)
    ensures row == LineRecords(cols, line)
  {
    var columns := ParseCSVLine(line);
    row := [];
    if |columns| > Max(cols.country, cols.category) {
      var country := Cell(columns, cols.country);
      var category := Cell(columns, cols.category);
      if country != "" && category != "" {
        row := [RowRecord(cols, columns)];
      }
    }
  }

  lemma SliceToEnd(lines: seq<string>, i: nat)
    requires i == |lines| >= 1
    ensures lines[1..i] == lines[1..]
  {
  }

  /** One more data line: its record, if kept, goes after the records of the lines before it. */
  lemma RecordsStep(cols: Columns, lines: seq<string>, i: nat, rawData: seq<InnovationData>, row: seq<InnovationData>)
    requires 1 <= i < |lines|
    requires rawData == RecordsOf(cols, lines[1..i]) && row == LineRecords(cols, lines[i])
    ensures RecordsOf(cols, lines[1..i + 1]) == rawData + row
  {
    SliceSnoc(lines, 1, i);
    RecordsOfSnoc(cols, lines[1..i], lines[i]);
  }

  lemma RecordsOfSnoc(cols: Columns, rows: seq<string>, line: string)
    ensures RecordsOf(cols, rows + [line]) == RecordsOf(cols, rows) + LineRecords(cols, line)
  {
    assert (rows + [line])[..|rows|] == rows;
  }

  /** One more record: its category joins the Set, at the end, unless it is already there. */
  lemma CategoriesStep(records: seq<InnovationData>, record: InnovationData, categories: seq<string>)
    requires categories == Distinct(CategoriesOf(records))
    ensures Distinct(CategoriesOf(records + [record])) ==
      if record.category in categories then categories else categories + [record.category]
  {
    CategoriesSnoc(records, record);
    DistinctSnoc(CategoriesOf(records), record.category);
  }

  lemma CategoriesSnoc(records: seq<InnovationData>, record: InnovationData)
    ensures CategoriesOf(records + [record]) == CategoriesOf(records) + [record.category]
  {
    assert (records + [record])[..|records|] == records;
  }

  lemma CategoriesOfLast(records: seq<InnovationData>)
    requires records != []
    ensures var n := |records|;
      CategoriesOf(records) == CategoriesOf(records[..n - 1]) + [records[n - 1].category]
  {
    var n := |records|;
    assert records == records[..n - 1] + [records[n - 1]];
    CategoriesSnoc(records[..n - 1], records[n - 1]);
  }

  /** Records keep the order of their lines: the records of two stretches of lines are the records of each, concatenated. */
  lemma {:induction false} RecordsOfAppend(cols: Columns, a: seq<string>, b: seq<string>)
    ensures RecordsOf(cols, a + b) == RecordsOf(cols, a) + RecordsOf(cols, b)
  {
    if b == [] {
      assert a + b == a;
    } else {
      var p := b[..|b| - 1];
      var x := b[|b| - 1];
      assert a + b == (a + p) + [x];
      assert b == p + [x];
      RecordsOfAppend(cols, a, p);
      RecordsOfSnoc(cols, a + p, x);
      RecordsOfSnoc(cols, p, x);
    }
  }

  /**
   * A single line gives exactly one record, built from its cells, when it
   * reaches both required columns and neither is blank; otherwise it is
   * skipped without an error.
   */
  lemma SingleLine(cols: Columns, line: string)
    requires cols.country >= 0 && cols.category >= 0
    ensures var columns := Fields(line);
      RecordsOf(cols, [line]) ==
        if |columns| > Max(cols.country, cols.category)
           && Trim(columns[cols.country]) != "" && Trim(columns[cols.category]) != ""
        then [RowRecord(cols, columns)]
        else []
  {
    assert [line][..0] == [];
  }

  predicate WellFormed(rec: InnovationData) {
    && rec.country != "" && rec.category != ""
    && IsTrimmed(rec.agency) && IsTrimmed(rec.country) && IsTrimmed(rec.name)
    && IsTrimmed(rec.project) && IsTrimmed(rec.category) && IsTrimmed(rec.technicalInnovation)
    && IsTrimmed(rec.innovationX5) && IsTrimmed(rec.when) && IsTrimmed(rec.stillActive)
    && IsTrimmed(rec.source)
  }

  /** Every record has a non-empty country and category, and every field is trimmed. */
  lemma {:induction false} RecordsWellFormed(cols: Columns, rows: seq<string>)
    ensures forall rec :: rec in RecordsOf(cols, rows) ==> WellFormed(rec)
  {
    if rows != [] {
      RecordsWellFormed(cols, rows[..|rows| - 1]);
      var columns := Fields(rows[|rows| - 1]);
      CellTrimmed(columns, cols.agency);
      CellTrimmed(columns, cols.country);
      CellTrimmed(columns, cols.name);
      CellTrimmed(columns, cols.project);
      CellTrimmed(columns, cols.category);
      CellTrimmed(columns, cols.technicalInnovation);
      CellTrimmed(columns, cols.innovationX5);
      CellTrimmed(columns, cols.when);
      CellTrimmed(columns, cols.stillActive);
      CellTrimmed(columns, cols.source);
    }
  }

  lemma CellTrimmed(columns: seq<string>, index: int)
    ensures IsTrimmed(Cell(columns, index))
  {
    if 0 <= index < |columns| {
      TrimIsTrimmed(columns[index]);
    }
  }

  /** No more records than data lines. */
  lemma {:induction false} RecordsAtMostRows(cols: Columns, rows: seq<string>)
    ensures |RecordsOf(cols, rows)| <= |rows|
  {
    if rows != [] {
      RecordsAtMostRows(cols, rows[..|rows| - 1]);
    }
  }

  /** An optional column the header lacks reads as '' in every record. */
  lemma {:induction false} AbsentColumnsEmpty(cols: Columns, rows: seq<string>)
    ensures forall rec :: rec in RecordsOf(cols, rows) ==>
      && (cols.agency == -1 ==> rec.agency == "")
      && (cols.name == -1 ==> rec.name == "")
      && (cols.project == -1 ==> rec.project == "")
      && (cols.technicalInnovation == -1 ==> rec.technicalInnovation == "")
      && (cols.innovationX5 == -1 ==> rec.innovationX5 == "")
      && (cols.when == -1 ==> rec.when == "")
      && (cols.stillActive == -1 ==> rec.stillActive == "")
      && (cols.source == -1 ==> rec.source == "")
  {
    if rows != [] {
      AbsentColumnsEmpty(cols, rows[..|rows| - 1]);
    }
  }

  lemma CategoriesOfMembers(records: seq<InnovationData>)
    ensures forall c :: c in CategoriesOf(records) <==> exists j :: 0 <= j < |records| && records[j].category == c
  {
    forall c | exists j :: 0 <= j < |records| && records[j].category == c ensures c in CategoriesOf(records) {
      var j :| 0 <= j < |records| && records[j].category == c;
      assert CategoriesOf(records)[j] == c;
    }
  }

  /**
   * The category vocabulary: strictly ascending, and holding exactly the
   * categories of the records.
   */
  lemma SortedCategories(records: seq<InnovationData>)
    ensures var cs := SortBy(Distinct(CategoriesOf(records)), Self);
      && Ascending(cs, Self)
      && (forall c :: c in cs <==> exists j :: 0 <= j < |records| && records[j].category == c)
  {
    var d := Distinct(CategoriesOf(records));
    var cs := SortBy(d, Self);
    DistinctFacts(CategoriesOf(records));
    CategoriesOfMembers(records);
    SortByAscending(d, Self);
    forall c ensures c in cs <==> c in d {
      assert c in cs <==> c in multiset(cs);
    }
  }

  /**
   * What loading a header line and its data lines gives: an error exactly
   * when the header lacks `country` or `category`; otherwise well-formed
   * records in line order and a category vocabulary that is strictly
   * ascending and holds exactly the categories of those records.
   */
  lemma BuildOutcome(header: string, rows: seq<string>)
    ensures var headers := Fields(header);
      var r := Build(header, rows);
      && (r.Err? <==> "country" !in headers || "category" !in headers)
      && (r.Ok? ==>
        && r.value.rawData == RecordsOf(ResolveColumns(headers), rows)
        && (forall rec :: rec in r.value.rawData ==> WellFormed(rec))
        && Ascending(r.value.categories, Self)
        && (forall c :: c in r.value.categories <==>
              exists j :: 0 <= j < |r.value.rawData| && r.value.rawData[j].category == c))
  {
    var cols := ResolveColumns(Fields(header));
    if cols.country != -1 && cols.category != -1 {
      RecordsWellFormed(cols, rows);
      SortedCategories(RecordsOf(cols, rows));
    }
  }

  /** The same for a whole document: the header is its first line, the data lines the rest. */
  lemma LoadOutcome(csvText: string)
    ensures var lines := Lines(csvText);
      var headers := Fields(lines[0]);
      var r := Load(csvText);
      && (r.Err? <==> "country" !in headers || "category" !in headers)
      && (r.Ok? ==>
        && r.value.rawData == RecordsOf(ResolveColumns(headers), lines[1..])
        && (forall rec :: rec in r.value.rawData ==> WellFormed(rec))
        && Ascending(r.value.categories, Self)
        && (forall c :: c in r.value.categories <==>
              exists j :: 0 <= j < |r.value.rawData| && r.value.rawData[j].category == c))
  {
    var lines := Lines(csvText);
    BuildOutcome(lines[0], lines[1..]);
  }
}
