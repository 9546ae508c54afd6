/**
 * parseCSVLine: splits one line into trimmed fields. A double quote flips
 * an "inside quotes" flag and is dropped; a comma outside quotes ends a
 * field; every other character, commas inside quotes included, is content.
 * A doubled quote is not an escape (section 2, item 7 of RFC 4180 is not
 * followed): `""` simply flips the flag twice.
 */
module CsvLine {
  import opened Text

  /**
   * The untrimmed fields of s, read starting with the quote flag at
   * inQuotes: a recursive reading of the same rule, used to specify the loop.
   */
  function Pieces(s: string, inQuotes: bool): (r: seq<string>)
    ensures |r| >= 1
  {
    if s == [] then [[]]
    else if s[0] == '"' then Pieces(s[1..], !inQuotes)
    else if s[0] == ',' && !inQuotes then [[]] + Pieces(s[1..], inQuotes)
    else Glue([s[0]], Pieces(s[1..], inQuotes))
  }

  /** One step of the reading: what the first character does. */
  lemma PiecesCons(c: char, rest: string, inQuotes: bool)
    ensures Pieces([c] + rest, inQuotes) ==
      if c == '"' then Pieces(rest, !inQuotes)
      else if c == ',' && !inQuotes then [[]] + Pieces(rest, inQuotes)
      else Glue([c], Pieces(rest, inQuotes))
  {
    assert ([c] + rest)[1..] == rest;
  }

  /** Prefixes the first of the pieces with p. */
  function Glue(p: string, pieces: seq<string>): (r: seq<string>)
    requires |pieces| >= 1
    ensures |r| == |pieces| && r[0] == p + pieces[0] && r[1..] == pieces[1..]
  {
    [p + pieces[0]] + pieces[1..]
  }

  /** Every piece trimmed. */
  function TrimAll(xs: seq<string>): (r: seq<string>)
    ensures |r| == |xs|
  {
    if xs == [] then [] else TrimAll(xs[..|xs| - 1]) + [Trim(xs[|xs| - 1])]
  }

  lemma TrimAllSnoc(xs: seq<string>, x: string)
    ensures TrimAll(xs + [x]) == TrimAll(xs) + [Trim(x)]
  {
    assert (xs + [x])[..|xs|] == xs;
  }

  /** The fields parseCSVLine returns for line. */
  function Fields(line: string): seq<string> {
    TrimAll(Pieces(line, false))
  }

  /** The line with every double quote removed. */
  function RemoveQuotes(s: string): (r: string)
    ensures '"' !in r
  {
    if s == [] then []
    else (if s[0] == '"' then [] else [s[0]]) + RemoveQuotes(s[1..])
  }

  /** A comma at position k separates fields when an even number of quotes precede it. */
  predicate IsSeparator(line: string, k: nat)
    requires k < |line|
  {
    line[k] == ',' && CountChar(line[..k], '"') % 2 == 0
  }

  /** Number of separating commas among the first n characters. */
  function SeparatorCount(line: string, n: nat): nat
    requires n <= |line|
  {
    if n == 0 then 0
    else SeparatorCount(line, n - 1) + (if IsSeparator(line, n - 1) then 1 else 0)
  }

  /**
   * The tokenizer as written: one pass over the characters with `current`,
   * `inQuotes` and `result`. It returns Fields(line); there is one field more
   * than there are commas outside quotes; no field holds a quote; every field
   * is trimmed.
   */
  method ParseCSVLine(line: string) returns (result: seq<string>)
    ensures result == Fields(line)
    ensures |result| == 1 + SeparatorCount(line, |line|)
    ensures forall f :: f in result ==> '"' !in f && IsTrimmed(f)
  {
    result := [];
    var current := "";
    var inQuotes := false;
    ghost var raw: seq<string> := [];
    var i := 0;
    assert line[0..] == line;
    assert Glue("", Pieces(line, false)) == Pieces(line, false) by {
      var p := Pieces(line, false);
      assert [] + p[0] == p[0] && p == [p[0]] + p[1..];
    }
    while i < |line|
      invariant 0 <= i <= |line|
      invariant inQuotes == (CountChar(line[..i], '"') % 2 == 1)
      invariant |result| == SeparatorCount(line, i)
      invariant result == TrimAll(raw)
      invariant Pieces(line, false) == raw + Glue(current, Pieces(line[i..], inQuotes))
      invariant '"' !in current
      invariant forall f :: f in result ==> '"' !in f && IsTrimmed(f)
    {
      var c := line[i];
      PiecesAdvance(line, i, inQuotes, raw, current);
      QuoteStep(line, i, inQuotes);
      if c == '"' {
        inQuotes := !inQuotes;
      } else if c == ',' && !inQuotes {
        TrimKeepsOnly(current, '"');
        TrimIsTrimmed(current);
        TrimAllSnoc(raw, current);
        result := result + [Trim(current)];
        raw := raw + [current];
        current := "";
      } else {
        current := current + [c];
      }
      i := i + 1;
    }
    assert line[i..] == [];
    assert Glue(current, [[]]) == [current] by {
      assert current + [] == current;
    }
    assert Pieces(line, false) == raw + [current];
    TrimKeepsOnly(current, '"');
    TrimIsTrimmed(current);
    TrimAllSnoc(raw, current);
    result := result + [Trim(current)];
  }

  /** Reading one more character: a quote flips the parity, a comma outside quotes is one more separator. */
  lemma QuoteStep(line: string, i: nat, inQuotes: bool)
    requires i < |line|
    requires inQuotes == (CountChar(line[..i], '"') % 2 == 1)
    ensures (CountChar(line[..i + 1], '"') % 2 == 1) == (inQuotes != (line[i] == '"'))
    ensures SeparatorCount(line, i + 1) == SeparatorCount(line, i) + if line[i] == ',' && !inQuotes then 1 else 0
  {
    assert line[..i + 1][..i] == line[..i];
  }

  /** How the loop's view of the line moves when one more character is read. */
  lemma PiecesAdvance(line: string, i: nat, inQuotes: bool, raw: seq<string>, current: string)
    requires i < |line|
    requires Pieces(line, false) == raw + Glue(current, Pieces(line[i..], inQuotes))
    ensures line[i] == '"' ==>
      Pieces(line, false) == raw + Glue(current, Pieces(line[i + 1..], !inQuotes))
    ensures line[i] == ',' && !inQuotes ==>
      Pieces(line, false) == (raw + [current]) + Glue("", Pieces(line[i + 1..], inQuotes))
    ensures line[i] != '"' && !(line[i] == ',' && !inQuotes) ==>
      Pieces(line, false) == raw + Glue(current + [line[i]], Pieces(line[i + 1..], inQuotes))
  {
    var c := line[i];
    assert line[i..] == [c] + line[i + 1..];
    PiecesCons(c, line[i + 1..], inQuotes);
    var rest := Pieces(line[i + 1..], inQuotes);
    if c == ',' && !inQuotes {
      GlueSeparator(raw, current, rest);
    } else if c != '"' {
      GlueChar(current, c, rest);
    }
  }

  /** A separator closes the current field. */
  lemma GlueSeparator(raw: seq<string>, current: string, rest: seq<string>)
    requires |rest| >= 1
    ensures raw + Glue(current, [[]] + rest) == (raw + [current]) + Glue("", rest)
  {
    assert current + [] == current && [] + rest[0] == rest[0];
    assert rest == [rest[0]] + rest[1..];
    assert Glue(current, [[]] + rest) == [current] + Glue("", rest);
  }

  /** Any other character extends the current field. */
  lemma GlueChar(current: string, c: char, rest: seq<string>)
    requires |rest| >= 1
    ensures Glue(current, Glue([c], rest)) == Glue(current + [c], rest)
  {
    assert current + ([c] + rest[0]) == (current + [c]) + rest[0];
  }

  /** Joining the untrimmed fields with commas gives back the line without its quotes. */
  lemma {:induction false} PiecesJoin(s: string, inQuotes: bool)
    ensures Join(Pieces(s, inQuotes), ',') == RemoveQuotes(s)
  {
    if s != [] {
      PiecesJoin(s[1..], inQuotes != (s[0] == '"'));
      if s[0] != '"' && !(s[0] == ',' && !inQuotes) {
        JoinGlue([s[0]], Pieces(s[1..], inQuotes), ',');
      } else if s[0] == ',' {
        var rest := Pieces(s[1..], inQuotes);
        assert ([[]] + rest)[1..] == rest;
      }
    }
  }

  /** No field of any line holds a double quote. */
  lemma {:induction false} PiecesHaveNoQuotes(s: string, inQuotes: bool)
    ensures forall f :: f in Pieces(s, inQuotes) ==> '"' !in f
  {
    if s != [] {
      PiecesHaveNoQuotes(s[1..], inQuotes != (s[0] == '"'));
    }
  }

  /** The quoted comma stays in its field: `a,"b,c",d` gives a, b,c and d. */
  lemma QuotedCommaExample(line: string)
    requires line == "a,\"b,c\",d"
    ensures Fields(line) == ["a", "b,c", "d"]
  {
    var a, bc, d := ['a'], ['b', ',', 'c'], ['d'];
    QuotedCommaPieces(line);
    assert Pieces(line, false) == [a] + [bc] + [d];
    TrimOfTrimmed(a);
    TrimOfTrimmed(bc);
    TrimOfTrimmed(d);
    TrimAllSnoc([], a);
    TrimAllSnoc([a], bc);
    TrimAllSnoc([a] + [bc], d);
  }

  /** The reading of the example, one character at a time from the end. */
  lemma QuotedCommaPieces(line: string)
    requires line == "a,\"b,c\",d"
    ensures Pieces(line, false) == [['a'], ['b', ',', 'c'], ['d']]
  {
    var bc, d := ['b', ',', 'c'], ['d'];
    QuotedCommaMiddle(line);
    PiecesStep(line, 2, false);
    PiecesStep(line, 1, false);
    assert [[]] + [bc, d] == [[], bc, d];
    PiecesStep(line, 0, false);
    GlueCons(['a'], [], [bc, d]);
    assert ['a'] + [] == ['a'];
    assert line[0..] == line;
  }

  /** The quoted field and what follows it, `b,c",d`, read inside the quotes. */
  lemma QuotedCommaMiddle(line: string)
    requires line == "a,\"b,c\",d"
    ensures Pieces(line[3..], true) == [['b', ',', 'c'], ['d']]
  {
    var d := ['d'];
    QuotedCommaTail(line);
    PiecesStep(line, 4, true);
    GlueCons([','], ['c'], [d]);
    assert [','] + ['c'] == [',', 'c'];
    PiecesStep(line, 3, true);
    GlueCons(['b'], [',', 'c'], [d]);
    assert ['b'] + [',', 'c'] == ['b', ',', 'c'];
  }

  /** The end of the example, `c",d`, read inside the quotes. */
  lemma QuotedCommaTail(line: string)
    requires line == "a,\"b,c\",d"
    ensures Pieces(line[5..], true) == [['c'], ['d']]
  {
    assert line[9..] == [];
    assert Pieces(line[9..], false) == [[]];
    PiecesStep(line, 8, false);
    assert line[8] == 'd';
    GlueLast(['d']);
    assert Pieces(line[8..], false) == [['d']];
    PiecesStep(line, 7, false);
    assert Pieces(line[7..], false) == [[], ['d']];
    PiecesStep(line, 6, true);
    assert Pieces(line[6..], true) == [[], ['d']];
    PiecesStep(line, 5, true);
    GlueCons(['c'], [], [['d']]);
    assert [[]] + [['d']] == [[], ['d']];
    assert ['c'] + [] == ['c'];
  }

  /** Reading the character at k of a line. */
  lemma PiecesStep(line: string, k: nat, inQuotes: bool)
    requires k < |line|
    ensures Pieces(line[k..], inQuotes) ==
      if line[k] == '"' then Pieces(line[k + 1..], !inQuotes)
      else if line[k] == ',' && !inQuotes then [[]] + Pieces(line[k + 1..], inQuotes)
      else Glue([line[k]], Pieces(line[k + 1..], inQuotes))
  {
    assert line[k..][1..] == line[k + 1..];
  }

  /** Gluing onto the last, empty piece. */
  lemma GlueLast(p: string)
    ensures Glue(p, [[]]) == [p]
  {
    assert p + [] == p;
  }

  /** Gluing onto a known first piece. */
  lemma GlueCons(p: string, x: string, rest: seq<string>)
    ensures Glue(p, [x] + rest) == [p + x] + rest
  {
    assert ([x] + rest)[1..] == rest;
  }
}
