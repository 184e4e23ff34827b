/**
 * `Series.factorize()` as `make_mi_scores` uses it (app.py:153-154 and 158):
 * every distinct present value gets an integer code, in order of first
 * appearance, and a missing cell gets the sentinel -1. The distinct values,
 * in that order, are the "uniques" pandas returns beside the codes.
 */
module Encoding {
  import opened Wrappers
  import opened Frames

  /** pandas' code for a missing cell (`use_na_sentinel=True`). */
  const Sentinel: int := -1

  datatype Factorized = Factorized(codes: seq<int>, uniques: seq<Value>)

  ghost predicate Distinct<T>(u: seq<T>) {
    forall i, j :: 0 <= i < j < |u| ==> u[i] != u[j]
  }

  /** The distinct present values of a column, in order of first appearance. */
  function Uniques(s: seq<Cell>): (u: seq<Value>)
    ensures Distinct(u)
    ensures forall v :: v in u <==> Some(v) in s
  {
    if s == [] then []
    else
      var init, last := s[..|s| - 1], s[|s| - 1];
      var u := Uniques(init);
      assert s == init + [last];
      if last.Some? && last.value !in u then u + [last.value] else u
  }

  /** The position of a value in a sequence of distinct values. */
  function IndexOf(u: seq<Value>, v: Value): (i: nat)
    requires v in u
    ensures i < |u| && u[i] == v
    ensures forall j :: 0 <= j < i ==> u[j] != v
  {
    if u[0] == v then 0 else 1 + IndexOf(u[1..], v)
  }

  /** Reads codes back through the uniques: the sentinel, or any code out of range, is a missing cell. */
  function Decode(codes: seq<int>, uniques: seq<Value>): (s: seq<Cell>)
    ensures |s| == |codes|
  {
    seq(|codes|, k requires 0 <= k < |codes| =>
      if 0 <= codes[k] < |uniques| then Some(uniques[codes[k]]) else None)
  }

  /** `s.factorize()`: codes that read back to the column, over distinct uniques. */
  function Factorize(s: seq<Cell>): (f: Factorized)
    ensures |f.codes| == |s| && Distinct(f.uniques)
    ensures forall k :: 0 <= k < |s| ==> Sentinel <= f.codes[k] < |f.uniques|
    ensures forall k :: 0 <= k < |s| ==> (f.codes[k] == Sentinel <==> s[k].None?)
    ensures Decode(f.codes, f.uniques) == s
  {
    var u := Uniques(s);
    var codes := seq(|s|, k requires 0 <= k < |s| => if s[k].None? then Sentinel else IndexOf(u, s[k].value));
    assert forall k :: 0 <= k < |s| && s[k].Some? ==> s[k].value in u by {
      forall k | 0 <= k < |s| && s[k].Some? ensures s[k].value in u {
        assert Some(s[k].value) in s;
      }
    }
    assert Decode(codes, u) == s by {
      forall k | 0 <= k < |s| ensures Decode(codes, u)[k] == s[k] {
      }
    }
    Factorized(codes, u)
  }

  /** The uniques of a prefix of the column are a prefix of the column's uniques. */
  lemma {:induction false} UniquesPrefix(s: seq<Cell>, n: nat)
    requires n <= |s|
    ensures Uniques(s[..n]) <= Uniques(s)
  {
    if n < |s| {
      var init := s[..|s| - 1];
      UniquesPrefix(init, n);
      assert init[..n] == s[..n];
    } else {
      assert s[..n] == s;
    }
  }

  /**
   * Codes follow first appearance: a value not seen before position k gets the
   * next code, the number of distinct values before it; a value seen before
   * keeps a code already handed out.
   */
  lemma FirstAppearance(s: seq<Cell>, k: nat)
    requires k < |s| && s[k].Some?
    ensures Some(s[k].value) !in s[..k] ==> Factorize(s).codes[k] == |Uniques(s[..k])|
    ensures Some(s[k].value) in s[..k] ==> Factorize(s).codes[k] < |Uniques(s[..k])|
  {
    var v := s[k].value;
    var u, before := Uniques(s), Uniques(s[..k]);
    UniquesPrefix(s, k);
    UniquesPrefix(s, k + 1);
    var code := Factorize(s).codes[k];
    assert u[code] == v;
    if Some(v) !in s[..k] {
      assert s[..k + 1][..k] == s[..k];
      assert Uniques(s[..k + 1]) == before + [v];
      assert u[|before|] == v;
    } else {
      var i :| 0 <= i < |before| && before[i] == v;
      assert u[i] == v;
    }
  }

  /** Two present cells share a code exactly when they hold the same value. */
  lemma SameCodeIffSameValue(s: seq<Cell>, i: nat, j: nat)
    requires i < |s| && j < |s| && s[i].Some? && s[j].Some?
    ensures Factorize(s).codes[i] == Factorize(s).codes[j] <==> s[i] == s[j]
  {
    var f := Factorize(s);
    assert Decode(f.codes, f.uniques)[i] == s[i];
    assert Decode(f.codes, f.uniques)[j] == s[j];
  }

  /** Every code from 0 to the number of uniques minus one is used by some cell. */
  lemma CodesCoverUniques(s: seq<Cell>, c: nat)
    requires c < |Factorize(s).uniques|
    ensures exists k :: 0 <= k < |s| && Factorize(s).codes[k] == c
  {
    var f := Factorize(s);
    var v := f.uniques[c];
    assert Some(v) in s;
    var k :| 0 <= k < |s| && s[k] == Some(v);
    assert Decode(f.codes, f.uniques)[k] == Some(v);
    assert f.uniques[f.codes[k]] == v;
  }
}
