/**
 * getTimelineData: the records grouped by the year in their `when` field.
 * Only a trimmed `when` of exactly four ASCII digits counts as a year. Each
 * year keeps how many records carry it and the trimmed, non-empty names of
 * those records, in record order; the years come out in ascending order.
 */
module Timeline {
  import opened Text
  import opened Counting
  import opened Sorting
  import opened Loader

  /** One year of the timeline; also the shape of the Map's entries. */
  datatype TimelineData = TimelineData(year: string, count: nat, projects: seq<string>)

  predicate IsDigit(c: char) {
    '0' <= c <= '9'
  }

  /** `/^\d{4}$/.test(year)`: `\d` is an ASCII digit and `$` only matches at the very end. */
  predicate IsYear(s: string) {
    |s| == 4 && forall i :: 0 <= i < |s| ==> IsDigit(s[i])
  }

  /** The year a record is filed under, when it has one. */
  predicate HasYear(item: InnovationData) {
    var year := Trim(item.when);
    year != "" && IsYear(year)
  }

  /** The valid years of the records, one per record that has one, in record order. */
  function ValidYears(rawData: seq<InnovationData>): (r: seq<string>)
    ensures |r| <= |rawData|
  {
    if rawData == [] then []
    else
      var item := rawData[|rawData| - 1];
      ValidYears(rawData[..|rawData| - 1]) + (if HasYear(item) then [Trim(item.when)] else [])
  }

  /** The project name a record adds to its year: its trimmed name, unless that is empty. */
  function ProjectOf(item: InnovationData): (r: seq<string>)
    ensures |r| <= 1
  {
    if item.name != "" && Trim(item.name) != "" then [Trim(item.name)] else []
  }

  /** The project names of the records filed under year y, in record order. */
  function ProjectsOf(rawData: seq<InnovationData>, y: string): seq<string> {
    if rawData == [] then []
    else
      var item := rawData[|rawData| - 1];
      ProjectsOf(rawData[..|rawData| - 1], y) + (if HasYear(item) && Trim(item.when) == y then ProjectOf(item) else [])
  }

  /**
   * The Map's entries after the forEach: one per distinct valid year, in
   * order of first appearance, with its number of records and its projects.
   */
  function Buckets(rawData: seq<InnovationData>): (r: seq<TimelineData>)
  {
    var d := Distinct(ValidYears(rawData));
    seq(|d|, j requires 0 <= j < |d| => TimelineData(d[j], Occurrences(ValidYears(rawData), d[j]), ProjectsOf(rawData, d[j])))
  }

  function Year(t: TimelineData): string {
    t.year
  }

  /** The keys of the Map. */
  function Years(buckets: seq<TimelineData>): (r: seq<string>)
    ensures |r| == |buckets|
    ensures forall j :: 0 <= j < |buckets| ==> r[j] == buckets[j].year
  {
    seq(|buckets|, j requires 0 <= j < |buckets| => buckets[j].year)
  }

  /**
   * What the forEach does with one record: a record with a valid year bumps
   * that year's entry in place, adding its project, or appends a new entry;
   * any other record leaves the Map alone.
   */
  function AddRecord(b: seq<TimelineData>, item: InnovationData): seq<TimelineData> {
    var y := Trim(item.when);
    var j := IndexOf(Years(b), y);
    if !HasYear(item) then b
    else if j >= 0 then b[j := TimelineData(y, b[j].count + 1, b[j].projects + ProjectOf(item))]
    else b + [TimelineData(y, 1, ProjectOf(item))]
  }

  /** What getTimelineData returns. */
  function TimelineOf(rawData: seq<InnovationData>): seq<TimelineData> {
    SortBy(Buckets(rawData), Year)
  }

  /**
   * getTimelineData: the years of the forEach's Map, sorted. They come out
   * strictly ascending, each a four-digit year, each with the number of
   * records that carry it and at most that many projects.
   */
  method GetTimelineData(rawData: seq<InnovationData>) returns (r: seq<TimelineData>)
    ensures r == TimelineOf(rawData)
    ensures Ascending(r, Year)
    ensures forall t :: t in r ==>
      && IsYear(t.year)
      && t.count == Occurrences(ValidYears(rawData), t.year) >= 1
      && |t.projects| <= t.count
  {
    var yearData := CollectYears(rawData);
    r := SortBy(yearData, Year);
    TimelineFacts(rawData);
  }

  /** The forEach of getTimelineData, filling the Map record by record. */
  method CollectYears(rawData: seq<InnovationData>) returns (yearData: seq<TimelineData>)
    ensures yearData == Buckets(rawData)
  {
    yearData := [];
    var i := 0;
    while i < |rawData|
      invariant 0 <= i <= |rawData|
      invariant yearData == Buckets(rawData[..i])
    {
      yearData := AddYear(yearData, rawData[i]);
      BucketsStep(rawData, i);
      i := i + 1;
    }
    assert rawData[..i] == rawData;
  }

  /**
   * The forEach callback: it looks the year up in the Map, bumps the count
   * of its entry (a fresh one with no projects if the year is new), adds
   * the trimmed name when there is one and stores the entry back in the
   * same place.
   */
  method AddYear(yearData: seq<TimelineData>, item: InnovationData) returns (next: seq<TimelineData>)
    ensures next == AddRecord(yearData, item)
  {
    next := yearData;
    var year := Trim(item.when);
    if year != "" && IsYear(year) {
      var j := IndexOf(Years(yearData), year);
      var existing := if j >= 0 then yearData[j] else TimelineData(year, 0, []);
      existing := existing.(count := existing.count + 1);
      if item.name != "" && Trim(item.name) != "" {
        existing := existing.(projects := existing.projects + [Trim(item.name)]);
      } else {
        assert existing.projects + ProjectOf(item) == existing.projects;
      }
      if j >= 0 {
        assert existing == TimelineData(year, yearData[j].count + 1, yearData[j].projects + ProjectOf(item));
        next := yearData[j := existing];
      } else {
        assert existing == TimelineData(year, 1, ProjectOf(item));
        next := yearData + [existing];
      }
    }
  }

  lemma ValidYearsSnoc(rawData: seq<InnovationData>, item: InnovationData)
    ensures ValidYears(rawData + [item]) == ValidYears(rawData) + if HasYear(item) then [Trim(item.when)] else []
  {
    assert (rawData + [item])[..|rawData|] == rawData;
  }

  lemma ProjectsOfSnoc(rawData: seq<InnovationData>, item: InnovationData, y: string)
    ensures ProjectsOf(rawData + [item], y) ==
      ProjectsOf(rawData, y) + if HasYear(item) && Trim(item.when) == y then ProjectOf(item) else []
  {
    assert (rawData + [item])[..|rawData|] == rawData;
  }

  /** A record without a valid year leaves the Map as it was. */
  lemma BucketsSkip(rawData: seq<InnovationData>, item: InnovationData)
    requires !HasYear(item)
    ensures Buckets(rawData + [item]) == Buckets(rawData)
  {
    ValidYearsSnoc(rawData, item);
    assert ValidYears(rawData + [item]) == ValidYears(rawData);
    forall y ensures ProjectsOf(rawData + [item], y) == ProjectsOf(rawData, y) {
      ProjectsOfSnoc(rawData, item, y);
    }
  }

  /** Adding a record to the data does to the Map what one step of the forEach does. */
  lemma BucketsSnoc(rawData: seq<InnovationData>, item: InnovationData)
    ensures Buckets(rawData + [item]) == AddRecord(Buckets(rawData), item)
  {
    if !HasYear(item) {
      BucketsSkip(rawData, item);
    } else {
      var ys := ValidYears(rawData);
      var y := Trim(item.when);
      var b := Buckets(rawData);
      var j := IndexOf(Years(b), y);
      DistinctFacts(ys);
      if j >= 0 {
        BucketsBump(rawData, item, j);
      } else {
        assert y !in Distinct(ys) by {
          assert Years(b) == Distinct(ys);
        }
        BucketsAppend(rawData, item);
      }
    }
  }

  /** A record whose year is already in the Map bumps that entry in place and leaves the others alone. */
  lemma BucketsBump(rawData: seq<InnovationData>, item: InnovationData, j: nat)
    requires HasYear(item)
    requires j < |Buckets(rawData)| && Buckets(rawData)[j].year == Trim(item.when)
    ensures var b := Buckets(rawData);
      var y := Trim(item.when);
      Buckets(rawData + [item]) == b[j := TimelineData(y, b[j].count + 1, b[j].projects + ProjectOf(item))]
  {
    var ys := ValidYears(rawData);
    var y := Trim(item.when);
    var d := Distinct(ys);
    var b := Buckets(rawData);
    var b' := Buckets(rawData + [item]);
    DistinctFacts(ys);
    assert d[j] == y && y in ys;
    ValidYearsSnoc(rawData, item);
    DistinctSnoc(ys, y);
    var e := b[j := TimelineData(y, b[j].count + 1, b[j].projects + ProjectOf(item))];
    assert |b'| == |e|;
    forall i | 0 <= i < |b'| ensures b'[i] == e[i] {
      BucketsKept(rawData, item, i);
      assert i != j ==> b[i].year == d[i] != d[j];
    }
  }

  /** A record whose year is new to the Map leaves every entry alone and appends a fresh one. */
  lemma BucketsAppend(rawData: seq<InnovationData>, item: InnovationData)
    requires HasYear(item)
    requires Trim(item.when) !in ValidYears(rawData)
    ensures Buckets(rawData + [item]) == Buckets(rawData) + [TimelineData(Trim(item.when), 1, ProjectOf(item))]
  {
    var ys := ValidYears(rawData);
    var y := Trim(item.when);
    var d := Distinct(ys);
    var b := Buckets(rawData);
    var b' := Buckets(rawData + [item]);
    DistinctFacts(ys);
    BucketsNew(rawData, item);
    var e := b + [TimelineData(y, 1, ProjectOf(item))];
    forall i | 0 <= i < |b'| ensures b'[i] == e[i] {
      if i < |b| {
        BucketsKept(rawData, item, i);
        assert b[i].year == d[i] && d[i] in ys;
      }
    }
  }

  /** The entries already in the Map: the one for the record's year is bumped, the others stay. */
  lemma BucketsKept(rawData: seq<InnovationData>, item: InnovationData, i: nat)
    requires HasYear(item)
    requires i < |Buckets(rawData)|
    ensures var b := Buckets(rawData);
      var y := Trim(item.when);
      && i < |Buckets(rawData + [item])|
      && Buckets(rawData + [item])[i] ==
        if b[i].year == y then TimelineData(y, b[i].count + 1, b[i].projects + ProjectOf(item)) else b[i]
  {
    var ys := ValidYears(rawData);
    var y := Trim(item.when);
    var d := Distinct(ys);
    ValidYearsSnoc(rawData, item);
    DistinctSnoc(ys, y);
    assert Distinct(ys + [y])[i] == d[i];
    OccurrencesSnoc(ys, y, d[i]);
    ProjectsOfSnoc(rawData, item, d[i]);
  }

  /** The entry a new year gets: one record and at most its one project. */
  lemma BucketsNew(rawData: seq<InnovationData>, item: InnovationData)
    requires HasYear(item)
    requires Trim(item.when) !in ValidYears(rawData)
    ensures var b := Buckets(rawData);
      var b' := Buckets(rawData + [item]);
      |b'| == |b| + 1 && b'[|b|] == TimelineData(Trim(item.when), 1, ProjectOf(item))
  {
    var ys := ValidYears(rawData);
    var y := Trim(item.when);
    ValidYearsSnoc(rawData, item);
    DistinctSnoc(ys, y);
    OccurrencesSnoc(ys, y, y);
    assert Occurrences(ys, y) == 0;
    ProjectsOfSnoc(rawData, item, y);
    NoYearNoProjects(rawData, y);
    assert [] + ProjectOf(item) == ProjectOf(item);
  }

  /** A year no record carries has no projects. */
  lemma {:induction false} NoYearNoProjects(rawData: seq<InnovationData>, y: string)
    requires y !in ValidYears(rawData)
    ensures ProjectsOf(rawData, y) == []
  {
    if rawData != [] {
      var p := rawData[..|rawData| - 1];
      NoYearNoProjects(p, y);
    }
  }

  /** One step of the forEach. */
  lemma BucketsStep(rawData: seq<InnovationData>, i: nat)
    requires i < |rawData|
    ensures Buckets(rawData[..i + 1]) == AddRecord(Buckets(rawData[..i]), rawData[i])
  {
    assert rawData[..i + 1] == rawData[..i] + [rawData[i]];
    BucketsSnoc(rawData[..i], rawData[i]);
  }

  /** The valid years are exactly the trimmed `when` fields that pass the test. */
  lemma {:induction false} ValidYearsMembers(rawData: seq<InnovationData>)
    ensures forall y :: y in ValidYears(rawData) <==>
      exists k :: 0 <= k < |rawData| && HasYear(rawData[k]) && Trim(rawData[k].when) == y
  {
    if rawData != [] {
      var n := |rawData|;
      var p := rawData[..n - 1];
      var item := rawData[n - 1];
      ValidYearsMembers(p);
      assert rawData == p + [item];
      ValidYearsSnoc(p, item);
      forall y | y in ValidYears(rawData)
        ensures exists k :: 0 <= k < n && HasYear(rawData[k]) && Trim(rawData[k].when) == y
      {
        if y in ValidYears(p) {
          var k :| 0 <= k < n - 1 && HasYear(p[k]) && Trim(p[k].when) == y;
          assert rawData[k] == p[k];
        } else {
          assert HasYear(rawData[n - 1]);
        }
      }
      forall y | exists k :: 0 <= k < n && HasYear(rawData[k]) && Trim(rawData[k].when) == y
        ensures y in ValidYears(rawData)
      {
        var k :| 0 <= k < n && HasYear(rawData[k]) && Trim(rawData[k].when) == y;
        if k < n - 1 {
          assert p[k] == rawData[k];
        }
      }
    }
  }

  /** Every valid year is four digits. */
  lemma {:induction false} ValidYearsAreYears(rawData: seq<InnovationData>)
    ensures forall y :: y in ValidYears(rawData) ==> IsYear(y)
  {
    if rawData != [] {
      var n := |rawData|;
      var p := rawData[..n - 1];
      ValidYearsAreYears(p);
      ValidYearsSnoc(p, rawData[n - 1]);
      assert rawData == p + [rawData[n - 1]];
    }
  }

  /** A year has at most one project per record that carries it. */
  lemma {:induction false} ProjectsBounded(rawData: seq<InnovationData>, y: string)
    ensures |ProjectsOf(rawData, y)| <= Occurrences(ValidYears(rawData), y)
  {
    if rawData != [] {
      var n := |rawData|;
      var q := rawData[..n - 1];
      var item := rawData[n - 1];
      ProjectsBounded(q, y);
      ValidYearsSnoc(q, item);
      ProjectsOfSnoc(q, item, y);
      assert rawData == q + [item];
      if HasYear(item) {
        OccurrencesSnoc(ValidYears(q), Trim(item.when), y);
      }
    }
  }

  /** Each project is a record's name, trimmed and not empty. */
  lemma {:induction false} ProjectsTrimmed(rawData: seq<InnovationData>, y: string)
    ensures forall p :: p in ProjectsOf(rawData, y) ==> p != "" && IsTrimmed(p)
  {
    if rawData != [] {
      var n := |rawData|;
      ProjectsTrimmed(rawData[..n - 1], y);
      TrimIsTrimmed(rawData[n - 1].name);
    }
  }

  /** The Map's entries before sorting: distinct valid years, each with its count and its projects. */
  lemma BucketsFacts(rawData: seq<InnovationData>)
    ensures var b := Buckets(rawData);
      var ys := ValidYears(rawData);
      && DistinctKeys(b, Year)
      && (forall y :: y in ys <==> exists t :: t in b && t.year == y)
      && (forall t :: t in b ==>
        && IsYear(t.year)
        && t.count == Occurrences(ys, t.year) >= 1
        && t.projects == ProjectsOf(rawData, t.year)
        && |t.projects| <= t.count
        && (forall p :: p in t.projects ==> p != "" && IsTrimmed(p)))
  {
    var ys := ValidYears(rawData);
    var b := Buckets(rawData);
    var d := Distinct(ys);
    DistinctFacts(ys);
    ValidYearsAreYears(rawData);
    forall i, j | 0 <= i < j < |b| ensures Year(b[i]) != Year(b[j]) {
      assert b[i].year == d[i] && b[j].year == d[j];
    }
    forall t | t in b
      ensures && IsYear(t.year)
        && t.count == Occurrences(ys, t.year) >= 1
        && t.projects == ProjectsOf(rawData, t.year)
        && |t.projects| <= t.count
        && (forall p :: p in t.projects ==> p != "" && IsTrimmed(p))
    {
      var j :| 0 <= j < |b| && b[j] == t;
      assert t.year == d[j] && t.year in ys;
      assert t.year in multiset(ys);
      ProjectsBounded(rawData, t.year);
      ProjectsTrimmed(rawData, t.year);
    }
    forall y | y in ys ensures exists t :: t in b && t.year == y {
      assert y in d;
      var j :| 0 <= j < |d| && d[j] == y;
      assert b[j].year == y;
    }
  }

  /**
   * What getTimelineData promises: years strictly ascending (so each at
   * most once); exactly the valid years of the records; each with the
   * number of records that carry it and, in record order, their trimmed
   * non-empty names, never more than one per record.
   */
  lemma TimelineFacts(rawData: seq<InnovationData>)
    ensures var r := TimelineOf(rawData);
      var ys := ValidYears(rawData);
      && Ascending(r, Year)
      && (forall y :: y in ys <==> exists t :: t in r && t.year == y)
      && (forall t :: t in r ==>
        && IsYear(t.year)
        && t.count == Occurrences(ys, t.year) >= 1
        && t.projects == ProjectsOf(rawData, t.year)
        && |t.projects| <= t.count
        && (forall p :: p in t.projects ==> p != "" && IsTrimmed(p)))
  {
    var b := Buckets(rawData);
    var r := TimelineOf(rawData);
    BucketsFacts(rawData);
    SortByAscending(b, Year);
    forall t ensures t in r <==> t in b {
      assert t in r <==> t in multiset(r);
      assert t in b <==> t in multiset(b);
    }
  }
}
