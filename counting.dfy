/**
 * The `Map<string, number>` that the two count aggregators,
 * filterDataByCategories and getCategoryCounts, fill with
 * `m.set(k, (m.get(k) || 0) + 1)`. The timeline's Map of year buckets is
 * modelled separately, in the Timeline module. A JavaScript Map iterates
 * in insertion order, so its entries are a sequence of key/count pairs
 * ordered by the first appearance of each key.
 */
module Counting {
  import opened Text

  /** One Map entry; also the shape of CountryInnovationCount and CategoryCount. */
  datatype Tally = Tally(key: string, count: nat)

  /** The keys in first-appearance order, each once (a Set's iteration order). */
  function Distinct(xs: seq<string>): seq<string>
  {
    if xs == [] then []
    else
      var d := Distinct(xs[..|xs| - 1]);
      if xs[|xs| - 1] in d then d else d + [xs[|xs| - 1]]
  }

  /** The distinct keys are exactly the keys, each once. */
  lemma {:induction false} DistinctFacts(xs: seq<string>)
    ensures forall x :: x in Distinct(xs) <==> x in xs
    ensures forall i, j :: 0 <= i < j < |Distinct(xs)| ==> Distinct(xs)[i] != Distinct(xs)[j]
  {
    if xs != [] {
      var p := xs[..|xs| - 1];
      DistinctFacts(p);
      assert xs == p + [xs[|xs| - 1]];
    }
  }

  /** Appending a key changes the distinct keys only when the key is new, and then appends it. */
  lemma DistinctSnoc(xs: seq<string>, x: string)
    ensures Distinct(xs + [x]) == if x in xs then Distinct(xs) else Distinct(xs) + [x]
  {
    DistinctFacts(xs);
    assert (xs + [x])[..|xs|] == xs;
  }

  /** A key's position among the distinct keys follows the position of its first occurrence. */
  lemma {:induction false} DistinctFirstAppearance(xs: seq<string>, i: nat, j: nat)
    requires i < j < |Distinct(xs)|
    ensures IndexOf(xs, Distinct(xs)[i]) < IndexOf(xs, Distinct(xs)[j])
  {
    var n := |xs|;
    var p := xs[..n - 1];
    var x := xs[n - 1];
    assert xs == p + [x];
    DistinctSnoc(p, x);
    DistinctFacts(p);
    var d := Distinct(p);
    IndexOfSnoc(p, x, d[i]);
    if j < |d| {
      DistinctFirstAppearance(p, i, j);
      IndexOfSnoc(p, x, d[j]);
    } else {
      assert Distinct(xs)[j] == x && x !in p;
      assert IndexOf(xs, x) == n - 1 by {
        assert xs[..n - 1] == p;
      }
    }
  }

  lemma IndexOfSnoc(p: seq<string>, x: string, y: string)
    requires y in p
    ensures IndexOf(p + [x], y) == IndexOf(p, y)
  {
    var k := IndexOf(p, y);
    assert (p + [x])[..k] == p[..k];
    IndexOfUnique(p + [x], y, k);
  }

  /** Occurrences of k in ks. */
  function Occurrences(ks: seq<string>, k: string): nat {
    multiset(ks)[k]
  }

  /**
   * The entries of a Map filled by counting ks one by one: one entry per
   * distinct key, in first-appearance order, holding its number of occurrences.
   */
  function Tallies(ks: seq<string>): (r: seq<Tally>)
    ensures |r| == |Distinct(ks)|
    ensures forall j :: 0 <= j < |r| ==> r[j] == Tally(Distinct(ks)[j], Occurrences(ks, Distinct(ks)[j]))
  {
    var d := Distinct(ks);
    seq(|d|, j requires 0 <= j < |d| => Tally(d[j], Occurrences(ks, d[j])))
  }

  function Keys(m: seq<Tally>): (r: seq<string>)
    ensures |r| == |m| && forall j :: 0 <= j < |m| ==> r[j] == m[j].key
  {
    seq(|m|, j requires 0 <= j < |m| => m[j].key)
  }

  /** `m.set(k, (m.get(k) || 0) + 1)`: bump an existing entry in place, or append a new one. */
  function Bump(m: seq<Tally>, k: string): (r: seq<Tally>)
  {
    var j := IndexOf(Keys(m), k);
    if j >= 0 then m[j := Tally(k, m[j].count + 1)] else m + [Tally(k, 1)]
  }

  /** Sum of the counts. */
  function Sum(m: seq<Tally>): nat {
    if m == [] then 0 else Sum(m[..|m| - 1]) + m[|m| - 1].count
  }

  lemma OccurrencesSnoc(ks: seq<string>, k: string, y: string)
    ensures Occurrences(ks + [k], y) == Occurrences(ks, y) + (if y == k then 1 else 0)
  {
    assert multiset(ks + [k]) == multiset(ks) + multiset{k};
  }

  /** Counting one more key is one Bump of the Map: the loop step of every count aggregator. */
  lemma TalliesSnoc(ks: seq<string>, k: string)
    ensures Tallies(ks + [k]) == Bump(Tallies(ks), k)
  {
    var t := Tallies(ks);
    var d := Distinct(ks);
    DistinctFacts(ks);
    assert Keys(t) == d;
    var j := IndexOf(d, k);
    if j >= 0 {
      var t' := Tallies(ks + [k]);
      var b := t[j := Tally(k, t[j].count + 1)];
      DistinctSnoc(ks, k);
      assert |t'| == |b|;
      forall i | 0 <= i < |t'| ensures t'[i] == b[i] {
        TalliesKept(ks, k, i);
        assert i != j ==> d[i] != d[j];
      }
    } else {
      TalliesNew(ks, k);
    }
  }

  /** The entries already in the Map: the one for k is bumped, the others stay. */
  lemma TalliesKept(ks: seq<string>, k: string, i: nat)
    requires i < |Distinct(ks)|
    ensures var t := Tallies(ks);
      && i < |Tallies(ks + [k])|
      && Tallies(ks + [k])[i] == if t[i].key == k then Tally(k, t[i].count + 1) else t[i]
  {
    var d := Distinct(ks);
    DistinctSnoc(ks, k);
    assert Distinct(ks + [k])[i] == d[i];
    OccurrencesSnoc(ks, k, d[i]);
  }

  /** A new key gets a fresh entry at the end, counted once. */
  lemma TalliesNew(ks: seq<string>, k: string)
    requires k !in ks
    ensures Tallies(ks + [k]) == Tallies(ks) + [Tally(k, 1)]
  {
    var t := Tallies(ks);
    var t' := Tallies(ks + [k]);
    var e := t + [Tally(k, 1)];
    DistinctSnoc(ks, k);
    assert |t'| == |e|;
    forall i | 0 <= i < |t'| ensures t'[i] == e[i] {
      if i < |t| {
        TalliesKept(ks, k, i);
        DistinctFacts(ks);
        assert Distinct(ks)[i] in ks;
      } else {
        OccurrencesSnoc(ks, k, k);
        assert Occurrences(ks, k) == 0;
      }
    }
  }

  lemma {:induction false} SumUpdate(m: seq<Tally>, j: nat, t: Tally)
    requires j < |m|
    ensures Sum(m[j := t]) + m[j].count == Sum(m) + t.count
  {
    var n := |m|;
    if j < n - 1 {
      assert m[j := t][..n - 1] == m[..n - 1][j := t];
      SumUpdate(m[..n - 1], j, t);
    } else {
      assert m[j := t][..n - 1] == m[..n - 1];
    }
  }

  lemma SumSnoc(m: seq<Tally>, t: Tally)
    ensures Sum(m + [t]) == Sum(m) + t.count
  {
    assert (m + [t])[..|m|] == m;
  }

  /** The counts add up to the number of keys counted. */
  lemma {:induction false} TalliesSum(ks: seq<string>)
    ensures Sum(Tallies(ks)) == |ks|
  {
    if ks != [] {
      var p := ks[..|ks| - 1];
      var k := ks[|ks| - 1];
      assert ks == p + [k];
      TalliesSum(p);
      TalliesSnoc(p, k);
      var t := Tallies(p);
      var j := IndexOf(Keys(t), k);
      if j >= 0 {
        SumUpdate(t, j, Tally(k, t[j].count + 1));
      } else {
        SumSnoc(t, Tally(k, 1));
      }
    }
  }

  /** Every entry has a positive count, and the keys are exactly the distinct keys counted. */
  lemma TalliesPositive(ks: seq<string>)
    ensures forall j :: 0 <= j < |Tallies(ks)| ==> Tallies(ks)[j].count >= 1 && Tallies(ks)[j].key in ks
    ensures forall k :: k in ks <==> k in Keys(Tallies(ks))
  {
    var t := Tallies(ks);
    var d := Distinct(ks);
    DistinctFacts(ks);
    assert Keys(t) == d;
    forall j | 0 <= j < |t| ensures t[j].count >= 1 && t[j].key in ks {
      assert d[j] in d;
      assert d[j] in multiset(ks);
    }
  }
}
