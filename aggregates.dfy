/**
 * The two count aggregators over the loaded records: filterDataByCategories
 * (innovations per country, for the map) and getCategoryCounts (innovations
 * per category). Each fills a Map with `m.set(k, (m.get(k) || 0) + 1)`, turns
 * its entries into an array and sorts it by count, largest first.
 */
module Aggregates {
  import opened Text
  import opened Counting
  import opened Sorting
  import opened Loader

  // ---------------------------------------------------------------------
  // Innovations per country

  /** `rawData.filter(item => selectedCategories.includes(item.category))`. */
  function Selected(rawData: seq<InnovationData>, selectedCategories: seq<string>): (r: seq<InnovationData>)
    ensures |r| <= |rawData|
  {
    if rawData == [] then []
    else
      var last := rawData[|rawData| - 1];
      Selected(rawData[..|rawData| - 1], selectedCategories)
        + (if last.category in selectedCategories then [last] else [])
  }

  /** The records that are counted: all of them when no category is selected. */
  function Contributors(rawData: seq<InnovationData>, selectedCategories: seq<string>): seq<InnovationData> {
    if |selectedCategories| == 0 then rawData else Selected(rawData, selectedCategories)
  }

  /** `item.country.toLowerCase()` for each record, in record order. */
  function CountryKeys(items: seq<InnovationData>): (r: seq<string>)
    ensures |r| == |items|
    ensures forall j :: 0 <= j < |items| ==> r[j] == Lower(items[j].country)
  {
    seq(|items|, j requires 0 <= j < |items| => Lower(items[j].country))
  }

  /** `.map(([country, count]) => ({ country: <capitalised>, count }))`. */
  function Display(m: seq<Tally>): (r: seq<Tally>)
    ensures |r| == |m|
    ensures forall j :: 0 <= j < |m| ==> r[j] == Tally(Capitalize(m[j].key), m[j].count)
  {
    seq(|m|, j requires 0 <= j < |m| => Tally(Capitalize(m[j].key), m[j].count))
  }

  /** What filterDataByCategories returns. */
  function CountryCounts(rawData: seq<InnovationData>, selectedCategories: seq<string>): seq<Tally> {
    SortByCountDesc(Display(Tallies(CountryKeys(Contributors(rawData, selectedCategories)))))
  }

  /**
   * The forEach that fills `countryCount`, shared by both branches of
   * filterDataByCategories: one entry per lower-cased country, in order of
   * first appearance, holding its number of records.
   */
  method CountCountries(items: seq<InnovationData>) returns (countryCount: seq<Tally>)
    ensures countryCount == Tallies(CountryKeys(items))
  {
    countryCount := [];
    var i := 0;
    while i < |items|
      invariant 0 <= i <= |items|
      invariant countryCount == Tallies(CountryKeys(items[..i]))
    {
      var country := Lower(items[i].country);
      assert CountryKeys(items[..i + 1]) == CountryKeys(items[..i]) + [country];
      TalliesSnoc(CountryKeys(items[..i]), country);
      countryCount := Bump(countryCount, country);
      i := i + 1;
    }
    assert items[..i] == items;
  }

  /**
   * filterDataByCategories: with no selection every record counts, otherwise
   * only those whose category is one of the selected ones. The result is
   * sorted by count, largest first, holds one entry per country with a
   * positive count, and the counts add up to the number of records counted.
   */
  method FilterDataByCategories(rawData: seq<InnovationData>, selectedCategories: seq<string>)
    returns (r: seq<Tally>)
    ensures r == CountryCounts(rawData, selectedCategories)
    ensures NonIncreasing(r)
    ensures Sum(r) == |Contributors(rawData, selectedCategories)|
    ensures forall t :: t in r ==> t.count >= 1
  {
    CountryCountsFacts(rawData, selectedCategories);
    if |selectedCategories| == 0 {
      var countryCount := CountCountries(rawData);
      return SortByCountDesc(Display(countryCount));
    }
    var filteredData := Selected(rawData, selectedCategories);
    var countryCount := CountCountries(filteredData);
    return SortByCountDesc(Display(countryCount));
  }

  /** The filter keeps every copy of a selected record and no copy of any other: duplicates are counted as often as they occur. */
  lemma {:induction false} SelectedMultiplicity(rawData: seq<InnovationData>, selectedCategories: seq<string>, x: InnovationData)
    ensures multiset(Selected(rawData, selectedCategories))[x] ==
      if x.category in selectedCategories then multiset(rawData)[x] else 0
  {
    if rawData != [] {
      var p := rawData[..|rawData| - 1];
      var last := rawData[|rawData| - 1];
      SelectedMultiplicity(p, selectedCategories, x);
      assert rawData == p + [last];
      assert multiset(rawData) == multiset(p) + multiset{last};
    }
  }

  /** A selected record is a record of the input whose category is, exactly, one of the selected ones. */
  lemma {:induction false} SelectedMembers(rawData: seq<InnovationData>, selectedCategories: seq<string>)
    ensures forall x :: x in Selected(rawData, selectedCategories) <==>
      x in rawData && x.category in selectedCategories
  {
    if rawData != [] {
      var p := rawData[..|rawData| - 1];
      SelectedMembers(p, selectedCategories);
      assert rawData == p + [rawData[|rawData| - 1]];
    }
  }

  lemma {:induction false} SumDisplay(m: seq<Tally>)
    ensures Sum(Display(m)) == Sum(m)
  {
    if m != [] {
      var n := |m|;
      SumDisplay(m[..n - 1]);
      assert Display(m)[..n - 1] == Display(m[..n - 1]);
    }
  }

  predicate DistinctTallyKeys(xs: seq<Tally>) {
    forall i, j :: 0 <= i < j < |xs| ==> xs[i].key != xs[j].key
  }

  lemma ConsDistinct(x: Tally, s: seq<Tally>)
    requires DistinctTallyKeys(s)
    requires forall y :: y in s ==> y.key != x.key
    ensures DistinctTallyKeys([x] + s)
  {
    var r := [x] + s;
    forall i, j | 0 <= i < j < |r| ensures r[i].key != r[j].key {
      if i > 0 {
        assert r[i] == s[i - 1] && r[j] == s[j - 1];
      } else {
        assert r[j] in s;
      }
    }
  }

  lemma {:induction false} InsertByCountDistinct(x: Tally, s: seq<Tally>)
    requires DistinctTallyKeys(s)
    requires forall y :: y in s ==> y.key != x.key
    ensures DistinctTallyKeys(InsertByCount(x, s))
  {
    if s != [] && s[0].count > x.count {
      var rest := InsertByCount(x, s[1..]);
      assert DistinctTallyKeys(s[1..]);
      InsertByCountDistinct(x, s[1..]);
      forall y | y in rest ensures y.key != s[0].key {
        assert y in multiset(rest);
        if y != x {
          assert y in s[1..];
          var k :| 1 <= k < |s| && s[k] == y;
        }
      }
      ConsDistinct(s[0], rest);
    } else {
      ConsDistinct(x, s);
    }
  }

  /** Sorting by count neither merges nor duplicates keys. */
  lemma {:induction false} SortByCountDescDistinct(xs: seq<Tally>)
    requires DistinctTallyKeys(xs)
    ensures DistinctTallyKeys(SortByCountDesc(xs))
  {
    if xs != [] {
      var rest := SortByCountDesc(xs[1..]);
      SortByCountDescDistinct(xs[1..]);
      forall y | y in rest ensures y.key != xs[0].key {
        assert y in multiset(rest);
        var k :| 1 <= k < |xs| && xs[k] == y;
      }
      InsertByCountDistinct(xs[0], rest);
    }
  }

  /** Sorting by count keeps exactly the entries it is given. */
  lemma SortByCountDescMembers(xs: seq<Tally>)
    ensures forall t :: t in SortByCountDesc(xs) <==> t in xs
  {
    forall t ensures t in SortByCountDesc(xs) <==> t in xs {
      assert t in SortByCountDesc(xs) <==> t in multiset(SortByCountDesc(xs));
      assert t in xs <==> t in multiset(xs);
    }
  }

  /** The Map's entries, capitalised: one per key counted, holding its number of occurrences, and nothing else. */
  lemma DisplayTalliesMembers(keys: seq<string>)
    ensures var d := Display(Tallies(keys));
      && (forall k :: k in keys ==> Tally(Capitalize(k), Occurrences(keys, k)) in d)
      && (forall t :: t in d ==> t.count >= 1 && exists k :: k in keys && t == Tally(Capitalize(k), Occurrences(keys, k)))
  {
    DisplayTalliesComplete(keys);
    DisplayTalliesSound(keys);
  }

  lemma DisplayTalliesComplete(keys: seq<string>)
    ensures forall k :: k in keys ==> Tally(Capitalize(k), Occurrences(keys, k)) in Display(Tallies(keys))
  {
    var m := Tallies(keys);
    var d := Display(m);
    TalliesPositive(keys);
    forall k | k in keys ensures Tally(Capitalize(k), Occurrences(keys, k)) in d {
      var j :| 0 <= j < |m| && Keys(m)[j] == k;
      assert d[j] == Tally(Capitalize(k), Occurrences(keys, k));
    }
  }

  lemma DisplayTalliesSound(keys: seq<string>)
    ensures forall t :: t in Display(Tallies(keys)) ==>
      t.count >= 1 && exists k :: k in keys && t == Tally(Capitalize(k), Occurrences(keys, k))
  {
    var m := Tallies(keys);
    var d := Display(m);
    TalliesPositive(keys);
    forall t | t in d ensures t.count >= 1 && exists k :: k in keys && t == Tally(Capitalize(k), Occurrences(keys, k)) {
      var j :| 0 <= j < |d| && d[j] == t;
      assert m[j].key in keys;
    }
  }

  /** Distinct lower-cased countries stay distinct once capitalised. */
  lemma DisplayCountriesDistinct(items: seq<InnovationData>)
    ensures DistinctTallyKeys(Display(Tallies(CountryKeys(items))))
  {
    var keys := CountryKeys(items);
    var d := Display(Tallies(keys));
    DistinctFacts(keys);
    forall i, j | 0 <= i < j < |d| ensures d[i].key != d[j].key {
      var a, b := Distinct(keys)[i], Distinct(keys)[j];
      assert a in keys && b in keys;
      var x :| 0 <= x < |items| && keys[x] == a;
      var y :| 0 <= y < |items| && keys[y] == b;
      CapitalizeInjective(items[x].country, items[y].country);
    }
  }

  /**
   * What filterDataByCategories promises: entries sorted by count, largest
   * first; for every lower-cased country among the counted records exactly
   * one entry, shown capitalised, holding how many counted records have
   * that country; nothing else; and the counts add up to the number of
   * records counted.
   */
  lemma CountryCountsFacts(rawData: seq<InnovationData>, selectedCategories: seq<string>)
    ensures var keys := CountryKeys(Contributors(rawData, selectedCategories));
      var r := CountryCounts(rawData, selectedCategories);
      && NonIncreasing(r)
      && Sum(r) == |Contributors(rawData, selectedCategories)|
      && (forall t :: t in r ==> t.count >= 1)
      && (forall k :: k in keys ==> Tally(Capitalize(k), Occurrences(keys, k)) in r)
      && (forall t :: t in r ==> exists k :: k in keys && t == Tally(Capitalize(k), Occurrences(keys, k)))
      && DistinctTallyKeys(r)
  {
    var items := Contributors(rawData, selectedCategories);
    var keys := CountryKeys(items);
    var m := Tallies(keys);
    var d := Display(m);
    TalliesSum(keys);
    SumDisplay(m);
    SumSortByCountDesc(d);
    SortByCountDescMembers(d);
    DisplayTalliesMembers(keys);
    DisplayCountriesDistinct(items);
    SortByCountDescDistinct(d);
  }

  /** Entries with equal counts keep their order of first appearance. */
  lemma CountryCountsStable(rawData: seq<InnovationData>, selectedCategories: seq<string>, c: nat)
    ensures WithCount(CountryCounts(rawData, selectedCategories), c) ==
      WithCount(Display(Tallies(CountryKeys(Contributors(rawData, selectedCategories)))), c)
  {
    SortByCountDescStable(Display(Tallies(CountryKeys(Contributors(rawData, selectedCategories)))), c);
  }

  // ---------------------------------------------------------------------
  // Innovations per category

  /** The non-empty categories of the records, in record order. */
  function NonEmptyCategories(rawData: seq<InnovationData>): (r: seq<string>)
    ensures |r| <= |rawData|
  {
    if rawData == [] then []
    else
      var category := rawData[|rawData| - 1].category;
      NonEmptyCategories(rawData[..|rawData| - 1]) + (if category != "" then [category] else [])
  }

  /** What getCategoryCounts returns. */
  function CategoryCounts(rawData: seq<InnovationData>): seq<Tally> {
    SortByCountDesc(Tallies(NonEmptyCategories(rawData)))
  }

  /**
   * getCategoryCounts: records with an empty category are skipped; the
   * result is sorted by count, largest first, every count is positive and
   * the counts add up to the number of records with a category.
   */
  method GetCategoryCounts(rawData: seq<InnovationData>) returns (r: seq<Tally>)
    ensures r == CategoryCounts(rawData)
    ensures NonIncreasing(r)
    ensures Sum(r) == |NonEmptyCategories(rawData)|
    ensures forall t :: t in r ==> t.key != "" && t.count >= 1
  {
    var categoryCount: seq<Tally> := [];
    var i := 0;
    while i < |rawData|
      invariant 0 <= i <= |rawData|
      invariant categoryCount == Tallies(NonEmptyCategories(rawData[..i]))
    {
      var category := rawData[i].category;
      NonEmptyCategoriesSnoc(rawData, i);
      if category != "" {
        TalliesSnoc(NonEmptyCategories(rawData[..i]), category);
        categoryCount := Bump(categoryCount, category);
      } else {
        assert NonEmptyCategories(rawData[..i + 1]) == NonEmptyCategories(rawData[..i]);
      }
      i := i + 1;
    }
    assert rawData[..i] == rawData;
    r := SortByCountDesc(categoryCount);
    CategoryCountsFacts(rawData);
  }

  lemma NonEmptyCategoriesSnoc(rawData: seq<InnovationData>, i: nat)
    requires i < |rawData|
    ensures NonEmptyCategories(rawData[..i + 1]) ==
      NonEmptyCategories(rawData[..i]) + if rawData[i].category != "" then [rawData[i].category] else []
  {
    assert rawData[..i + 1][..i] == rawData[..i];
  }

  /** Skipping the empty category and counting the rest counts each non-empty category's records. */
  lemma {:induction false} NonEmptyCategoriesCount(rawData: seq<InnovationData>, c: string)
    requires c != ""
    ensures Occurrences(NonEmptyCategories(rawData), c) == Occurrences(CategoriesOf(rawData), c)
  {
    if rawData != [] {
      var n := |rawData|;
      var p := rawData[..n - 1];
      var x := rawData[n - 1].category;
      NonEmptyCategoriesCount(p, c);
      CategoriesOfLast(rawData);
      assert NonEmptyCategories(rawData) == NonEmptyCategories(p) + if x != "" then [x] else [];
      SkipEmptyStep(NonEmptyCategories(p), CategoriesOf(p), x, c);
    }
  }

  /** One record: skipping an empty category leaves every non-empty count as it was. */
  lemma SkipEmptyStep(kept: seq<string>, all: seq<string>, x: string, c: string)
    requires c != "" && Occurrences(kept, c) == Occurrences(all, c)
    ensures Occurrences(kept + if x != "" then [x] else [], c) == Occurrences(all + [x], c)
  {
    OccurrencesSnoc(all, x, c);
    if x != "" {
      OccurrencesSnoc(kept, x, c);
    } else {
      assert kept + [] == kept;
    }
  }

  /** Exactly the records with an empty category are skipped. */
  lemma {:induction false} NonEmptyCategoriesLength(rawData: seq<InnovationData>)
    ensures |NonEmptyCategories(rawData)| == |rawData| - multiset(CategoriesOf(rawData))[""]
  {
    if rawData != [] {
      var n := |rawData|;
      var p := rawData[..n - 1];
      NonEmptyCategoriesLength(p);
      CategoriesOfLast(rawData);
    }
  }

  lemma {:induction false} NonEmptyCategoriesMembers(rawData: seq<InnovationData>)
    ensures forall c :: c in NonEmptyCategories(rawData) <==> c != "" && c in CategoriesOf(rawData)
  {
    if rawData != [] {
      var n := |rawData|;
      var p := rawData[..n - 1];
      NonEmptyCategoriesMembers(p);
      CategoriesOfLast(rawData);
    }
  }

  /** The Map's entries: one per key counted, holding its number of occurrences, and nothing else. */
  lemma TalliesMembers(keys: seq<string>)
    ensures forall k :: k in keys ==> Tally(k, Occurrences(keys, k)) in Tallies(keys)
    ensures forall t :: t in Tallies(keys) ==> t.key in keys && t.count == Occurrences(keys, t.key) && t.count >= 1
    ensures DistinctTallyKeys(Tallies(keys))
  {
    var m := Tallies(keys);
    TalliesPositive(keys);
    DistinctFacts(keys);
    forall k | k in keys ensures Tally(k, Occurrences(keys, k)) in m {
      assert k in Keys(m);
      var j :| 0 <= j < |m| && Keys(m)[j] == k;
      assert m[j] == Tally(k, Occurrences(keys, k));
    }
  }

  /**
   * What getCategoryCounts promises: entries sorted by count, largest
   * first; one entry for each non-empty category of the records, holding
   * how many records have it; nothing else; and the counts add up to the
   * number of records whose category is not empty.
   */
  lemma CategoryCountsFacts(rawData: seq<InnovationData>)
    ensures var r := CategoryCounts(rawData);
      var categories := CategoriesOf(rawData);
      && NonIncreasing(r)
      && Sum(r) == |NonEmptyCategories(rawData)| == |rawData| - multiset(categories)[""]
      && (forall t :: t in r ==> t.key != "" && t.count >= 1 && t.count == multiset(categories)[t.key])
      && (forall c :: c != "" && c in categories ==> Tally(c, multiset(categories)[c]) in r)
      && DistinctTallyKeys(r)
  {
    var ks := NonEmptyCategories(rawData);
    var m := Tallies(ks);
    var categories := CategoriesOf(rawData);
    TalliesSum(ks);
    SumSortByCountDesc(m);
    NonEmptyCategoriesLength(rawData);
    NonEmptyCategoriesMembers(rawData);
    TalliesMembers(ks);
    SortByCountDescMembers(m);
    SortByCountDescDistinct(m);
    forall c | c != "" ensures Occurrences(ks, c) == multiset(categories)[c] {
      NonEmptyCategoriesCount(rawData, c);
    }
  }

  /** Entries with equal counts keep their order of first appearance. */
  lemma CategoryCountsStable(rawData: seq<InnovationData>, c: nat)
    ensures WithCount(CategoryCounts(rawData), c) == WithCount(Tallies(NonEmptyCategories(rawData)), c)
  {
    SortByCountDescStable(Tallies(NonEmptyCategories(rawData)), c);
  }
}
