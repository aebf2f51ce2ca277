/** The ordering step shared by `title_prefilter` and `prefilter_literal` in
    search_catalog.py: candidates collected in document order are sorted by
    descending score with Python's stable `list.sort`, so equal scores keep
    document order. */
module Ranking {
  import opened Json

  /** A candidate: its score and the position of its document in the input. */
  datatype Hit = Hit(score: nat, pos: nat)

  /** Candidates collected by one pass over the documents: positions increase. */
  predicate InInputOrder(hs: seq<Hit>) {
    forall i, j :: 0 <= i < j < |hs| ==> hs[i].pos < hs[j].pos
  }

  /** a comes before b in a stable sort by descending score of candidates
      collected in input order. */
  predicate Before(a: Hit, b: Hit) {
    a.score > b.score || (a.score == b.score && a.pos < b.pos)
  }

  predicate Ranked(hs: seq<Hit>) {
    forall i, j :: 0 <= i < j < |hs| ==> Before(hs[i], hs[j])
  }

  /** The candidates with score s, in their original order. */
  function WithScore(hs: seq<Hit>, s: nat): (r: seq<Hit>)
    ensures forall h :: h in r <==> h in hs && h.score == s
  {
    if hs == [] then []
    else
      var rest := WithScore(hs[1..], s);
      assert forall h :: h in hs <==> h == hs[0] || h in hs[1..];
      if hs[0].score == s then [hs[0]] + rest else rest
  }

  /** Filtering keeps the candidates in input order. */
  lemma {:induction false} WithScoreInOrder(hs: seq<Hit>, s: nat)
    requires InInputOrder(hs)
    ensures InInputOrder(WithScore(hs, s))
    decreases |hs|
  {
    if hs != [] {
      var tail := hs[1..];
      TailInOrder(hs);
      WithScoreInOrder(tail, s);
      if hs[0].score == s {
        var rest := WithScore(tail, s);
        forall h | h in rest ensures hs[0].pos < h.pos {
          var k :| 0 <= k < |tail| && tail[k] == h;
          assert hs[k + 1] == h;
        }
        ConsInOrder(hs[0], rest);
      }
    }
  }

  lemma TailInOrder(hs: seq<Hit>)
    requires hs != [] && InInputOrder(hs)
    ensures InInputOrder(hs[1..])
  {
    forall i, j | 0 <= i < j < |hs| - 1 ensures hs[1..][i].pos < hs[1..][j].pos {
      assert hs[1..][i] == hs[i + 1] && hs[1..][j] == hs[j + 1];
    }
  }

  lemma ConsInOrder(h: Hit, t: seq<Hit>)
    requires InInputOrder(t) && forall x :: x in t ==> h.pos < x.pos
    ensures InInputOrder([h] + t)
  {
    var r := [h] + t;
    forall i, j | 0 <= i < j < |r| ensures r[i].pos < r[j].pos {
      assert r[j] == t[j - 1] && r[j] in t;
      if i > 0 {
        assert r[i] == t[i - 1];
      }
    }
  }

  /** Filtering keeps every candidate with score s as often as it occurs. */
  lemma {:induction false} WithScoreCount(hs: seq<Hit>, s: nat, h: Hit)
    ensures multiset(WithScore(hs, s))[h] == if h.score == s then multiset(hs)[h] else 0
    decreases |hs|
  {
    if hs != [] {
      WithScoreCount(hs[1..], s, h);
      assert hs == [hs[0]] + hs[1..];
      assert multiset(hs) == multiset{hs[0]} + multiset(hs[1..]);
    }
  }

  /** Stable sort by descending score of candidates whose scores are at most
      top: the candidates with score top, then top - 1, ..., then 0, each
      group in its original order. */
  function SortByScore(hs: seq<Hit>, top: nat): (r: seq<Hit>)
    ensures forall h :: h in r <==> h in hs && h.score <= top
    decreases top
  {
    if top == 0 then WithScore(hs, 0)
    else WithScore(hs, top) + SortByScore(hs, top - 1)
  }

  /** The sort keeps every candidate with score at most top as often as it
      occurs, and drops the others. */
  lemma {:induction false} SortByScoreCount(hs: seq<Hit>, top: nat, h: Hit)
    ensures multiset(SortByScore(hs, top))[h] == if h.score <= top then multiset(hs)[h] else 0
    decreases top
  {
    WithScoreCount(hs, top, h);
    if top > 0 {
      SortByScoreCount(hs, top - 1, h);
    }
  }

  /** One score group, collected in input order, is already ranked. */
  lemma WithScoreRanked(hs: seq<Hit>, s: nat)
    requires InInputOrder(hs)
    ensures Ranked(WithScore(hs, s))
  {
    var group := WithScore(hs, s);
    WithScoreInOrder(hs, s);
    forall i, j | 0 <= i < j < |group| ensures Before(group[i], group[j]) {
      assert group[i] in group && group[j] in group;
    }
  }

  /** The sort orders its output: higher scores first, ties in input order. */
  lemma {:induction false} SortByScoreRanked(hs: seq<Hit>, top: nat)
    requires InInputOrder(hs)
    ensures Ranked(SortByScore(hs, top))
    decreases top
  {
    WithScoreRanked(hs, top);
    if top > 0 {
      var group := WithScore(hs, top);
      var rest := SortByScore(hs, top - 1);
      SortByScoreRanked(hs, top - 1);
      var r := group + rest;
      forall i, j | 0 <= i < j < |r| ensures Before(r[i], r[j]) {
        if j < |group| {
          assert r[i] == group[i] && r[j] == group[j];
        } else if i < |group| {
          assert r[i] == group[i] && r[j] == rest[j - |group|];
          assert group[i] in group && rest[j - |group|] in rest;
        } else {
          assert r[i] == rest[i - |group|] && r[j] == rest[j - |group|];
        }
      }
    }
  }

  /** When every score is at most top, the sort is a permutation. */
  lemma SortByScorePermutation(hs: seq<Hit>, top: nat)
    requires forall h :: h in hs ==> h.score <= top
    ensures multiset(SortByScore(hs, top)) == multiset(hs)
  {
    var r := SortByScore(hs, top);
    forall h ensures multiset(r)[h] == multiset(hs)[h] {
      SortByScoreCount(hs, top, h);
      if h.score > top {
        assert h !in hs;
      }
    }
  }

  /** Two ranked sequences with the same elements start alike. */
  lemma RankedHeads(a: seq<Hit>, b: seq<Hit>)
    requires Ranked(a) && Ranked(b) && multiset(a) == multiset(b) && a != []
    ensures b != [] && a[0] == b[0]
  {
    assert a[0] in multiset(a);
    var k :| 0 <= k < |b| && b[k] == a[0];
    assert b[0] in multiset(a);
    var m :| 0 <= m < |a| && a[m] == b[0];
  }

  lemma TailMultiset(a: seq<Hit>, b: seq<Hit>)
    requires a != [] && b != [] && a[0] == b[0] && multiset(a) == multiset(b)
    ensures multiset(a[1..]) == multiset(b[1..])
  {
    assert a == [a[0]] + a[1..];
    assert b == [b[0]] + b[1..];
    assert multiset(a) == multiset{a[0]} + multiset(a[1..]);
    assert multiset(b) == multiset{b[0]} + multiset(b[1..]);
    forall h ensures multiset(a[1..])[h] == multiset(b[1..])[h] {
      assert multiset(a)[h] == multiset(b)[h];
    }
  }

  /** A ranked sequence is determined by its elements: any stable sort by
      descending score yields the same sequence as SortByScore. */
  lemma {:induction false} RankedUnique(a: seq<Hit>, b: seq<Hit>)
    requires Ranked(a) && Ranked(b) && multiset(a) == multiset(b)
    ensures a == b
    decreases |a|
  {
    if a == [] {
      assert |b| == |multiset(b)| == 0;
    } else {
      RankedHeads(a, b);
      TailMultiset(a, b);
      assert Ranked(a[1..]) by {
        forall i, j | 0 <= i < j < |a| - 1 ensures Before(a[1..][i], a[1..][j]) {
          assert a[1..][i] == a[i + 1] && a[1..][j] == a[j + 1];
        }
      }
      assert Ranked(b[1..]) by {
        forall i, j | 0 <= i < j < |b| - 1 ensures Before(b[1..][i], b[1..][j]) {
          assert b[1..][i] == b[i + 1] && b[1..][j] == b[j + 1];
        }
      }
      RankedUnique(a[1..], b[1..]);
      assert a == [a[0]] + a[1..] && b == [b[0]] + b[1..];
    }
  }

  /** A ranked selection of candidates collected in input order names each
      document at most once. */
  lemma RankedDistinct(hs: seq<Hit>, r: seq<Hit>)
    requires InInputOrder(hs) && Ranked(r)
    requires forall h :: h in r ==> h in hs
    ensures forall i, j :: 0 <= i < j < |r| ==> r[i].pos != r[j].pos
  {
    forall i, j | 0 <= i < j < |r| ensures r[i].pos != r[j].pos {
      assert Before(r[i], r[j]);
      assert r[i] in hs && r[j] in hs;
      var x :| 0 <= x < |hs| && hs[x] == r[i];
      var y :| 0 <= y < |hs| && hs[y] == r[j];
      assert x != y;
    }
  }

  /** The candidates one pass over the documents collects: document p is a
      candidate with score s when its score is Some(s). */
  function Candidates(scores: seq<Option<nat>>): (r: seq<Hit>)
    ensures forall h :: h in r <==> h.pos < |scores| && scores[h.pos] == Some(h.score)
  {
    if scores == [] then []
    else
      var init := scores[..|scores| - 1];
      var last := scores[|scores| - 1];
      Candidates(init) + (if last.Some? then [Hit(last.value, |scores| - 1)] else [])
  }

  lemma CandidatesStep(scores: seq<Option<nat>>, i: nat)
    requires i < |scores|
    ensures Candidates(scores[..i + 1]) ==
      Candidates(scores[..i]) + (if scores[i].Some? then [Hit(scores[i].value, i)] else [])
  {
    assert scores[..i + 1][..i] == scores[..i];
  }

  lemma {:induction false} CandidatesInOrder(scores: seq<Option<nat>>)
    ensures InInputOrder(Candidates(scores))
    decreases |scores|
  {
    if scores != [] {
      var init := scores[..|scores| - 1];
      CandidatesInOrder(init);
      var c := Candidates(init);
      var r := Candidates(scores);
      forall i, j | 0 <= i < j < |r| ensures r[i].pos < r[j].pos {
        assert r[i] in r && r[j] in r;
        if j < |c| {
          assert r[i] == c[i] && r[j] == c[j];
        } else {
          assert r[i] == c[i] && c[i] in c;
        }
      }
    }
  }

  /** The candidates ranked by descending score, ties in document order. */
  function Rank(scores: seq<Option<nat>>, top: nat): (r: seq<Hit>)
    ensures forall h :: h in r ==> h.pos < |scores|
  {
    SortByScore(Candidates(scores), top)
  }

  /** What ranking guarantees when no score exceeds top: exactly the documents
      with a score appear, each once and with its score, ordered by descending
      score with ties in document order, as a stable sort of the candidates
      would order them. */
  lemma RankSpec(scores: seq<Option<nat>>, top: nat)
    requires forall p :: 0 <= p < |scores| && scores[p].Some? ==> scores[p].value <= top
    ensures forall h :: h in Rank(scores, top) <==> h.pos < |scores| && scores[h.pos] == Some(h.score)
    ensures forall p :: 0 <= p < |scores| ==>
      (scores[p].Some? <==> exists i :: 0 <= i < |Rank(scores, top)| && Rank(scores, top)[i].pos == p)
    ensures forall i, j :: 0 <= i < j < |Rank(scores, top)| ==> Rank(scores, top)[i].pos != Rank(scores, top)[j].pos
    ensures Ranked(Rank(scores, top))
    ensures multiset(Rank(scores, top)) == multiset(Candidates(scores))
  {
    var c := Candidates(scores);
    var r := Rank(scores, top);
    CandidatesInOrder(scores);
    SortByScoreRanked(c, top);
    SortByScorePermutation(c, top);
    RankedDistinct(c, r);
    forall p | 0 <= p < |scores|
      ensures scores[p].Some? <==> exists i :: 0 <= i < |r| && r[i].pos == p
    {
      if scores[p].Some? {
        var h := Hit(scores[p].value, p);
        assert h in r;
        var i :| 0 <= i < |r| && r[i] == h;
      }
    }
  }

  /** `[d for _, d in out]`: the documents the ranked candidates name. */
  function Select<T>(items: seq<T>, hs: seq<Hit>): (r: seq<T>)
    requires forall h :: h in hs ==> h.pos < |items|
    ensures |r| == |hs|
    ensures forall i :: 0 <= i < |hs| ==> r[i] == items[hs[i].pos]
  {
    seq(|hs|, i requires 0 <= i < |hs| => items[hs[i].pos])
  }
}
