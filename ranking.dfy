/**
 * The score Series of `make_mi_scores` and its two orderings: the ranking
 * `sort_values(ascending=False)` (app.py:162-163) and the re-sort
 * `sort_values(ascending=True)` that `plot_mi_scores` draws (app.py:167).
 * pandas' default sort is not stable, so the order of equal scores is left
 * open: a ranking is any permutation of the entries in the requested order.
 */
module Ranking {
  import opened Wrappers
  import opened Frames

  /** One labelled value of the score Series: a feature name and its score. */
  datatype Entry = Entry(name: string, score: real)

  predicate Ordered(a: Entry, b: Entry, ascending: bool) {
    if ascending then a.score <= b.score else a.score >= b.score
  }

  ghost predicate Sorted(s: seq<Entry>, ascending: bool) {
    forall i, j :: 0 <= i < j < |s| ==> Ordered(s[i], s[j], ascending)
  }

  /** Places one entry before the first entry it may precede. */
  function Insert(e: Entry, s: seq<Entry>, ascending: bool): seq<Entry> {
    if s == [] then [e]
    else if Ordered(e, s[0], ascending) then [e] + s
    else [s[0]] + Insert(e, s[1..], ascending)
  }

  /** Inserting adds the entry to what the sequence holds. */
  lemma {:induction false} InsertPermutes(e: Entry, s: seq<Entry>, ascending: bool)
    ensures multiset(Insert(e, s, ascending)) == multiset(s) + multiset{e}
  {
    if s != [] && !Ordered(e, s[0], ascending) {
      var rest := Insert(e, s[1..], ascending);
      InsertPermutes(e, s[1..], ascending);
      assert Insert(e, s, ascending) == [s[0]] + rest;
      assert multiset([s[0]] + rest) == multiset{s[0]} + multiset(rest);
      assert s == [s[0]] + s[1..];
      assert multiset(s) == multiset{s[0]} + multiset(s[1..]);
    }
  }

  /** Inserting adds the entry's name to the names. */
  lemma {:induction false} InsertNames(e: Entry, s: seq<Entry>, ascending: bool)
    ensures multiset(NamesOf(Insert(e, s, ascending))) == multiset(NamesOf(s)) + multiset{e.name}
  {
    if s != [] && !Ordered(e, s[0], ascending) {
      InsertNames(e, s[1..], ascending);
      var r := [s[0]] + Insert(e, s[1..], ascending);
      assert r[1..] == Insert(e, s[1..], ascending);
    } else if s != [] {
      assert ([e] + s)[1..] == s;
    }
  }

  lemma SortedTail(s: seq<Entry>, ascending: bool)
    requires s != [] && Sorted(s, ascending)
    ensures Sorted(s[1..], ascending)
  {
    var rest := s[1..];
    forall i, j | 0 <= i < j < |rest| ensures Ordered(rest[i], rest[j], ascending) {
      assert rest[i] == s[i + 1] && rest[j] == s[j + 1];
    }
  }

  /** Inserting into a sorted sequence keeps it sorted. */
  lemma {:induction false} InsertSorted(e: Entry, s: seq<Entry>, ascending: bool)
    requires Sorted(s, ascending)
    ensures Sorted(Insert(e, s, ascending), ascending)
  {
    if s == [] {
    } else if Ordered(e, s[0], ascending) {
      PrependSorted(e, s, ascending);
    } else {
      SortedTail(s, ascending);
      InsertSorted(e, s[1..], ascending);
      InsertPermutes(e, s[1..], ascending);
      var rest := Insert(e, s[1..], ascending);
      forall x | x in rest ensures Ordered(s[0], x, ascending) {
        assert x in multiset(rest);
        if x != e {
          assert x in multiset(s[1..]);
          var j :| 0 <= j < |s[1..]| && s[1..][j] == x;
          assert s[1 + j] == x;
        }
      }
      PrependSorted(s[0], rest, ascending);
    }
  }

  /** An entry that precedes every element of a sorted sequence can head it. */
  lemma PrependSorted(h: Entry, s: seq<Entry>, ascending: bool)
    requires Sorted(s, ascending)
    requires forall x :: x in s ==> Ordered(h, x, ascending)
    ensures Sorted([h] + s, ascending)
  {
    var r := [h] + s;
    forall i, j | 0 <= i < j < |r| ensures Ordered(r[i], r[j], ascending) {
      if i > 0 {
        assert r[i] == s[i - 1] && r[j] == s[j - 1];
      } else {
        assert r[j] in s;
      }
    }
  }

  /** `sort_values(ascending=...)` on the Series' entries. */
  function SortValues(s: seq<Entry>, ascending: bool): (r: seq<Entry>)
    ensures Sorted(r, ascending)
    ensures multiset(r) == multiset(s)
  {
    if s == [] then []
    else
      var sorted := SortValues(s[1..], ascending);
      InsertSorted(s[0], sorted, ascending);
      InsertPermutes(s[0], sorted, ascending);
      assert multiset(s) == multiset{s[0]} + multiset(s[1..]) by { assert s == [s[0]] + s[1..]; }
      Insert(s[0], sorted, ascending)
  }

  function Zip(names: seq<string>, scores: seq<real>): (s: seq<Entry>)
    requires |names| == |scores|
    ensures |s| == |names|
    ensures forall k :: 0 <= k < |s| ==> s[k].name == names[k] && s[k].score == scores[k]
  {
    seq(|names|, k requires 0 <= k < |names| => Entry(names[k], scores[k]))
  }

  function NamesOf(s: seq<Entry>): (r: seq<string>)
    ensures |r| == |s|
    ensures forall k :: 0 <= k < |s| ==> r[k] == s[k].name
  {
    if s == [] then [] else [s[0].name] + NamesOf(s[1..])
  }

  /**
   * `pd.Series(scores, index=columns).sort_values(ascending=False)`: raises
   * ValueError when there are not as many scores as columns; otherwise the
   * pairs (column, score), highest score first.
   */
  function Rank(names: seq<string>, scores: seq<real>): (r: Result<seq<Entry>, Error>)
    ensures r.Ok? <==> |scores| == |names|
    ensures r.Err? ==> r.error == LengthMismatch(|scores|, |names|)
    ensures r.Ok? ==> Sorted(r.value, false) && multiset(r.value) == multiset(Zip(names, scores))
  {
    if |scores| != |names| then Err(LengthMismatch(|scores|, |names|))
    else Ok(SortValues(Zip(names, scores), false))
  }

  /** The order `plot_mi_scores` draws the bars in: lowest score first. */
  function PlotOrder(ranking: seq<Entry>): (r: seq<Entry>)
    ensures Sorted(r, true)
    ensures multiset(r) == multiset(ranking)
  {
    SortValues(ranking, true)
  }

  /** Sorting permutes the names along with the entries. */
  lemma {:induction false} SortNames(s: seq<Entry>, ascending: bool)
    ensures multiset(NamesOf(SortValues(s, ascending))) == multiset(NamesOf(s))
  {
    if s != [] {
      SortNames(s[1..], ascending);
      InsertNames(s[0], SortValues(s[1..], ascending), ascending);
    }
  }

  /** The ranking lists every feature exactly once, each with its own score. */
  lemma RankIsPermutation(names: seq<string>, scores: seq<real>)
    requires |names| == |scores|
    ensures multiset(NamesOf(Rank(names, scores).value)) == multiset(names)
    ensures forall e :: e in Rank(names, scores).value ==>
      exists k :: 0 <= k < |names| && e.name == names[k] && e.score == scores[k]
  {
    var z := Zip(names, scores);
    SortNames(z, false);
    assert NamesOf(z) == names;
    forall e | e in Rank(names, scores).value
      ensures exists k :: 0 <= k < |names| && e.name == names[k] && e.score == scores[k]
    {
      assert e in multiset(z);
      var k :| 0 <= k < |z| && z[k] == e;
    }
  }

  /** Mutual-information scores are never negative, and ranking keeps them so. */
  lemma RankNonNegative(names: seq<string>, scores: seq<real>)
    requires |names| == |scores|
    requires forall k :: 0 <= k < |scores| ==> scores[k] >= 0.0
    ensures forall e :: e in Rank(names, scores).value ==> e.score >= 0.0
  {
    forall e | e in Rank(names, scores).value ensures e.score >= 0.0 {
      RankIsPermutation(names, scores);
    }
  }

  ghost predicate StrictlySorted(s: seq<Entry>, ascending: bool) {
    forall i, j :: 0 <= i < j < |s| ==> Ordered(s[i], s[j], ascending) && s[i].score != s[j].score
  }

  /** A strictly ordered arrangement is the only ordered arrangement of its entries. */
  lemma {:induction false} StrictlySortedUnique(s: seq<Entry>, t: seq<Entry>, ascending: bool)
    requires StrictlySorted(s, ascending) && Sorted(t, ascending)
    requires multiset(s) == multiset(t)
    ensures s == t
  {
    if s != [] {
      SameHead(s, t, ascending);
      assert s == [s[0]] + s[1..];
      assert t == [t[0]] + t[1..];
      assert multiset(s[1..]) == multiset(s) - multiset{s[0]};
      assert multiset(t[1..]) == multiset(t) - multiset{t[0]};
      StrictTail(s, ascending);
      SortedTail(t, ascending);
      StrictlySortedUnique(s[1..], t[1..], ascending);
    }
  }

  lemma StrictTail(s: seq<Entry>, ascending: bool)
    requires s != [] && StrictlySorted(s, ascending)
    ensures StrictlySorted(s[1..], ascending)
  {
    var rest := s[1..];
    forall i, j | 0 <= i < j < |rest| ensures Ordered(rest[i], rest[j], ascending) && rest[i].score != rest[j].score {
      assert rest[i] == s[i + 1] && rest[j] == s[j + 1];
    }
  }

  /** The first entry of a strictly ordered arrangement heads every ordered arrangement of its entries. */
  lemma SameHead(s: seq<Entry>, t: seq<Entry>, ascending: bool)
    requires s != [] && StrictlySorted(s, ascending) && Sorted(t, ascending)
    requires multiset(s) == multiset(t)
    ensures t != [] && s[0] == t[0]
  {
    assert s[0] in multiset(t);
    assert t[0] in multiset(s);
    var i :| 0 <= i < |s| && s[i] == t[0];
    var j :| 0 <= j < |t| && t[j] == s[0];
    if i > 0 {
      assert Ordered(s[0], s[i], ascending) && s[0].score != s[i].score;
    }
  }

  function Reverse<T>(s: seq<T>): (r: seq<T>)
    ensures |r| == |s|
    ensures forall k :: 0 <= k < |s| ==> r[k] == s[|s| - 1 - k]
  {
    seq(|s|, k requires 0 <= k < |s| => s[|s| - 1 - k])
  }

  lemma {:induction false} ReverseMultiset<T>(s: seq<T>)
    ensures multiset(Reverse(s)) == multiset(s)
  {
    if s != [] {
      var n := |s|;
      ReverseMultiset(s[1..]);
      assert Reverse(s) == Reverse(s[1..]) + [s[0]];
      assert s == [s[0]] + s[1..];
    }
  }

  /**
   * When no two features tie, the plot shows the ranking upside down: the bar
   * drawn last, at the top of the chart, is the feature ranked first.
   */
  lemma PlotReversesRanking(ranking: seq<Entry>)
    requires StrictlySorted(ranking, false)
    ensures PlotOrder(ranking) == Reverse(ranking)
  {
    var r := Reverse(ranking);
    ReverseMultiset(ranking);
    assert StrictlySorted(r, true) by {
      forall i, j | 0 <= i < j < |r| ensures Ordered(r[i], r[j], true) && r[i].score != r[j].score {
        var n := |ranking|;
        assert Ordered(ranking[n - 1 - j], ranking[n - 1 - i], false);
      }
    }
    StrictlySortedUnique(r, PlotOrder(ranking), true);
  }
}
