/**
 * The two uses of Array.prototype.sort in the CSV layer. Both are insertion
 * sorts here; the engine's sort is stable, and so are these.
 *  - `.sort((a, b) => b.count - a.count)`: by count, largest first, equal
 *    counts keeping their order;
 *  - `.sort()` and `.sort((a, b) => a.year.localeCompare(b.year))`: by a
 *    string key, smallest first, on keys that are all distinct.
 */
module Sorting {
  import opened Text
  import opened Counting

  // ---------------------------------------------------------------------
  // By count, descending, stable

  predicate NonIncreasing(xs: seq<Tally>) {
    forall i, j :: 0 <= i < j < |xs| ==> xs[i].count >= xs[j].count
  }

  /** The entries with count c, in their order in xs. */
  function WithCount(xs: seq<Tally>, c: nat): seq<Tally> {
    if xs == [] then []
    else (if xs[0].count == c then [xs[0]] else []) + WithCount(xs[1..], c)
  }

  /** Places x in front of the first entry whose count is not larger than x's. */
  function InsertByCount(x: Tally, s: seq<Tally>): (r: seq<Tally>)
    ensures multiset(r) == multiset(s) + multiset{x}
    ensures |r| == |s| + 1
    ensures r[0] == x || (s != [] && r[0] == s[0])
  {
    if s == [] || s[0].count <= x.count then [x] + s
    else
      assert s == [s[0]] + s[1..];
      [s[0]] + InsertByCount(x, s[1..])
  }

  lemma {:induction false} InsertByCountNonIncreasing(x: Tally, s: seq<Tally>)
    requires NonIncreasing(s)
    ensures NonIncreasing(InsertByCount(x, s))
  {
    if s == [] || s[0].count <= x.count {
      ConsNonIncreasing(x, s);
    } else {
      var rest := InsertByCount(x, s[1..]);
      InsertByCountNonIncreasing(x, s[1..]);
      assert rest[0] == x || rest[0] == s[1];
      ConsNonIncreasing(s[0], rest);
    }
  }

  /** A head no smaller than the first count keeps a non-increasing sequence non-increasing. */
  lemma ConsNonIncreasing(h: Tally, s: seq<Tally>)
    requires NonIncreasing(s)
    requires s == [] || h.count >= s[0].count
    ensures NonIncreasing([h] + s)
  {
    var r := [h] + s;
    forall i, j | 0 <= i < j < |r| ensures r[i].count >= r[j].count {
      assert r[j] == s[j - 1];
      if i > 0 {
        assert r[i] == s[i - 1];
      }
    }
  }

  /** `.sort((a, b) => b.count - a.count)` on a Map's entries. */
  function SortByCountDesc(xs: seq<Tally>): (r: seq<Tally>)
    ensures multiset(r) == multiset(xs)
    ensures |r| == |xs|
    ensures NonIncreasing(r)
  {
    if xs == [] then []
    else
      assert xs == [xs[0]] + xs[1..];
      var rest := SortByCountDesc(xs[1..]);
      InsertByCountNonIncreasing(xs[0], rest);
      InsertByCount(xs[0], rest)
  }

  /** Inserting x leaves the order among the entries of any one count as it was, with x first among its own. */
  lemma {:induction false} InsertByCountStable(x: Tally, s: seq<Tally>, c: nat)
    ensures WithCount(InsertByCount(x, s), c) == (if x.count == c then [x] else []) + WithCount(s, c)
  {
    if s != [] && s[0].count > x.count {
      var rest := InsertByCount(x, s[1..]);
      InsertByCountStable(x, s[1..], c);
      assert ([s[0]] + rest)[1..] == rest;
    }
  }

  /** Stability: the entries of each count come out in the order they went in. */
  lemma {:induction false} SortByCountDescStable(xs: seq<Tally>, c: nat)
    ensures WithCount(SortByCountDesc(xs), c) == WithCount(xs, c)
  {
    if xs != [] {
      SortByCountDescStable(xs[1..], c);
      InsertByCountStable(xs[0], SortByCountDesc(xs[1..]), c);
    }
  }

  lemma {:induction false} SumInsertByCount(x: Tally, s: seq<Tally>)
    ensures Sum(InsertByCount(x, s)) == Sum(s) + x.count
  {
    if s != [] && s[0].count > x.count {
      SumInsertByCount(x, s[1..]);
      SumCons(s[0], s[1..]);
      assert s == [s[0]] + s[1..];
      SumCons(s[0], InsertByCount(x, s[1..]));
    } else {
      SumCons(x, s);
    }
  }

  lemma {:induction false} SumCons(t: Tally, s: seq<Tally>)
    ensures Sum([t] + s) == t.count + Sum(s)
  {
    if s != [] {
      var n := |s|;
      assert ([t] + s)[..n] == [t] + s[..n - 1];
      SumCons(t, s[..n - 1]);
    }
  }

  /** Sorting moves the entries around and leaves their total alone. */
  lemma {:induction false} SumSortByCountDesc(xs: seq<Tally>)
    ensures Sum(SortByCountDesc(xs)) == Sum(xs)
  {
    if xs != [] {
      SumSortByCountDesc(xs[1..]);
      SumInsertByCount(xs[0], SortByCountDesc(xs[1..]));
      SumCons(xs[0], xs[1..]);
      assert xs == [xs[0]] + xs[1..];
    }
  }

  // ---------------------------------------------------------------------
  // By a string key, ascending

  predicate DistinctKeys<T>(xs: seq<T>, key: T -> string) {
    forall i, j :: 0 <= i < j < |xs| ==> key(xs[i]) != key(xs[j])
  }

  predicate Ascending<T>(xs: seq<T>, key: T -> string) {
    forall i, j :: 0 <= i < j < |xs| ==> Less(key(xs[i]), key(xs[j]))
  }

  /** Places x in front of the first element whose key is larger than x's. */
  function InsertBy<T>(x: T, s: seq<T>, key: T -> string): (r: seq<T>)
    ensures multiset(r) == multiset(s) + multiset{x}
    ensures |r| == |s| + 1
    ensures r[0] == x || (s != [] && r[0] == s[0])
  {
    if s == [] || Less(key(x), key(s[0])) then [x] + s
    else
      assert s == [s[0]] + s[1..];
      [s[0]] + InsertBy(x, s[1..], key)
  }

  lemma {:induction false} InsertByAscending<T>(x: T, s: seq<T>, key: T -> string)
    requires Ascending(s, key)
    requires forall y :: y in s ==> key(y) != key(x)
    ensures Ascending(InsertBy(x, s, key), key)
  {
    var r := InsertBy(x, s, key);
    if s == [] {
    } else if Less(key(x), key(s[0])) {
      forall j | 1 <= j < |r| ensures Less(key(r[0]), key(r[j])) {
        if j > 1 {
          LessTransitive(key(x), key(s[0]), key(s[j - 1]));
        }
      }
    } else {
      var rest := InsertBy(x, s[1..], key);
      assert s == [s[0]] + s[1..];
      InsertByAscending(x, s[1..], key);
      LessTotal(key(x), key(s[0]));
      forall j | 1 <= j < |r| ensures Less(key(s[0]), key(r[j])) {
        var y := rest[j - 1];
        assert y in multiset(rest);
        if y != x {
          assert y in s[1..];
        }
      }
    }
  }

  /** `.sort()` on distinct strings and `.sort((a, b) => a.year.localeCompare(b.year))` on distinct years. */
  function SortBy<T>(xs: seq<T>, key: T -> string): (r: seq<T>)
    ensures multiset(r) == multiset(xs)
    ensures |r| == |xs|
  {
    if xs == [] then []
    else
      assert xs == [xs[0]] + xs[1..];
      InsertBy(xs[0], SortBy(xs[1..], key), key)
  }

  /** On distinct keys the sorted sequence is strictly ascending. */
  lemma {:induction false} SortByAscending<T>(xs: seq<T>, key: T -> string)
    requires DistinctKeys(xs, key)
    ensures Ascending(SortBy(xs, key), key)
  {
    if xs != [] {
      var rest := SortBy(xs[1..], key);
      SortByAscending(xs[1..], key);
      forall y | y in rest ensures key(y) != key(xs[0]) {
        assert y in multiset(rest);
        var j :| 1 <= j < |xs| && xs[j] == y;
      }
      InsertByAscending(xs[0], rest, key);
    }
  }

  /** The identity key, for sorting strings themselves. */
  function Self(s: string): string { s }
}
