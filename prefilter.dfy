/** `title_prefilter` and `prefilter_literal` of search_catalog.py: score each
    row against the query's tokens, keep the rows whose recall reaches 60 %,
    and rank them by descending score with ties in row order.

    Scores are integers scaled by the token count n: a recall of hits / n is
    the score hits, and the title's substring hit (recall 1.0) is the score n.
    A recall of at least 0.6 is `5 * hits >= 3 * n`. */
module Prefilter {
  import opened Json
  import opened Text
  import opened Rows
  import opened Ranking

  /** How many query tokens (counted with repetition) are among words. */
  function CountIn(tokens: seq<string>, words: seq<string>): (r: nat)
    ensures r <= |tokens|
    ensures r == 0 <==> forall i :: 0 <= i < |tokens| ==> tokens[i] !in words
  {
    if tokens == [] then 0
    else
      var init := tokens[..|tokens| - 1];
      assert forall i :: 0 <= i < |init| ==> init[i] == tokens[i];
      CountIn(init, words) + (if tokens[|tokens| - 1] in words then 1 else 0)
  }

  /** How many query tokens (counted with repetition) occur as substrings of blob. */
  function CountContained(tokens: seq<string>, blob: string): (r: nat)
    ensures r <= |tokens|
    ensures r == 0 <==> forall i :: 0 <= i < |tokens| ==> !Contains(blob, tokens[i])
  {
    if tokens == [] then 0
    else
      var init := tokens[..|tokens| - 1];
      assert forall i :: 0 <= i < |init| ==> init[i] == tokens[i];
      CountContained(init, blob) + (if Contains(blob, tokens[|tokens| - 1]) then 1 else 0)
  }

  /** The recall threshold `hits / n >= 0.6`, in integers. */
  predicate Enough(hits: nat, n: nat) {
    5 * hits >= 3 * n
  }

  /** The query and a title contain one another. */
  predicate TitleSubstring(t: string, normQ: string) {
    normQ != "" && (Contains(t, normQ) || Contains(normQ, t))
  }

  /** The title score of a row whose normalised title is t. */
  function TitleScore(t: string, normQ: string, tokens: seq<string>): (r: Option<nat>)
    ensures r.Some? ==> r.value <= |tokens|
  {
    if TitleSubstring(t, normQ) then Some(|tokens|)
    else
      var hits := CountIn(tokens, SplitWords(t));
      if hits == 0 then None
      else if Enough(hits, |tokens|) then Some(hits)
      else None
  }

  /** The literal score of a row whose blob is blob. */
  function LiteralScore(blob: string, tokens: seq<string>): (r: Option<nat>)
    ensures r.Some? ==> r.value <= |tokens|
  {
    var hits := CountContained(tokens, blob);
    if hits == 0 then None
    else if Enough(hits, |tokens|) then Some(hits)
    else None
  }

  function TitleScores(docs: seq<Row>, normQ: string): seq<Option<nat>> {
    var tokens := SplitWords(normQ);
    seq(|docs|, i requires 0 <= i < |docs| => TitleScore(docs[i].titleNorm, normQ, tokens))
  }

  function LiteralScores(docs: seq<Row>, normQ: string): seq<Option<nat>> {
    var tokens := SplitWords(normQ);
    seq(|docs|, i requires 0 <= i < |docs| => LiteralScore(docs[i].blob, tokens))
  }

  /** The ranked candidates of `title_prefilter`; none when the query has no tokens. */
  function TitleRanking(docs: seq<Row>, normQ: string): (r: seq<Hit>)
    ensures forall h :: h in r ==> h.pos < |docs|
  {
    if SplitWords(normQ) == [] then [] else Rank(TitleScores(docs, normQ), |SplitWords(normQ)|)
  }

  /** The ranked candidates of `prefilter_literal`; none when the query has no tokens. */
  function LiteralRanking(docs: seq<Row>, normQ: string): (r: seq<Hit>)
    ensures forall h :: h in r ==> h.pos < |docs|
  {
    if SplitWords(normQ) == [] then [] else Rank(LiteralScores(docs, normQ), |SplitWords(normQ)|)
  }

  /** `title_prefilter(docs, norm_q)` */
  function TitleHits(docs: seq<Row>, normQ: string): seq<Row> {
    Select(docs, TitleRanking(docs, normQ))
  }

  /** `prefilter_literal(docs, norm_q)` */
  function LiteralHits(docs: seq<Row>, normQ: string): seq<Row> {
    Select(docs, LiteralRanking(docs, normQ))
  }

  // ----- the loops -----

  /** `sum(1 for tok in q_tokens if tok in t_tokens)` */
  method CountTitleHits(tokens: seq<string>, words: seq<string>) returns (hits: nat)
    ensures hits == CountIn(tokens, words)
  {
    hits := 0;
    for k := 0 to |tokens|
      invariant hits == CountIn(tokens[..k], words)
    {
      assert tokens[..k + 1][..k] == tokens[..k];
      if tokens[k] in words {
        hits := hits + 1;
      }
    }
    assert tokens[..|tokens|] == tokens;
  }

  /** `sum(1 for t in q_tokens if t in blob)` */
  method CountBlobHits(tokens: seq<string>, blob: string) returns (hits: nat)
    ensures hits == CountContained(tokens, blob)
  {
    hits := 0;
    for k := 0 to |tokens|
      invariant hits == CountContained(tokens[..k], blob)
    {
      assert tokens[..k + 1][..k] == tokens[..k];
      if Contains(blob, tokens[k]) {
        hits := hits + 1;
      }
    }
    assert tokens[..|tokens|] == tokens;
  }

  /** `title_prefilter`: the scoring loop, then the stable sort by descending
      score (Python's `list.sort`, modelled by Rank), then the projection. */
  method TitlePrefilter(docs: seq<Row>, normQ: string) returns (out: seq<Row>)
    ensures out == TitleHits(docs, normQ)
  {
    var tokens := SplitWords(normQ);
    if tokens == [] {
      return [];
    }
    ghost var scores := TitleScores(docs, normQ);
    var cands: seq<Hit> := [];
    for i := 0 to |docs|
      invariant cands == Candidates(scores[..i])
    {
      CandidatesStep(scores, i);
      var t := docs[i].titleNorm;
      if normQ != "" && (Contains(t, normQ) || Contains(normQ, t)) {
        cands := cands + [Hit(|tokens|, i)];
        continue;
      }
      var hits := CountTitleHits(tokens, SplitWords(t));
      if hits == 0 {
        continue;
      }
      if 5 * hits >= 3 * |tokens| {
        cands := cands + [Hit(hits, i)];
      }
    }
    assert scores[..|docs|] == scores;
    var ranked := SortByScore(cands, |tokens|);
    out := Select(docs, ranked);
  }

  /** `prefilter_literal`: the scoring loop, then the stable sort by
      (-recall, -hits), which for a fixed token count is descending hits. */
  method PrefilterLiteral(docs: seq<Row>, normQ: string) returns (out: seq<Row>)
    ensures out == LiteralHits(docs, normQ)
  {
    var tokens := SplitWords(normQ);
    if tokens == [] {
      return [];
    }
    ghost var scores := LiteralScores(docs, normQ);
    var scored: seq<Hit> := [];
    for i := 0 to |docs|
      invariant scored == Candidates(scores[..i])
    {
      CandidatesStep(scores, i);
      var hits := CountBlobHits(tokens, docs[i].blob);
      if hits == 0 {
        continue;
      }
      if 5 * hits >= 3 * |tokens| {
        scored := scored + [Hit(hits, i)];
      }
    }
    assert scores[..|docs|] == scores;
    var ranked := SortByScore(scored, |tokens|);
    out := Select(docs, ranked);
  }

  // ----- properties -----

  /** The source's own threshold, in rationals: the recall hits / n is at least 0.6. */
  predicate RecallReached(hits: nat, n: nat) {
    n > 0 && (hits as real) / (n as real) >= 0.6
  }

  lemma EnoughIsRecall(hits: nat, n: nat)
    requires n > 0
    ensures Enough(hits, n) <==> RecallReached(hits, n)
  {
    var h := hits as real;
    var m := n as real;
    var recall := h / m;
    assert recall * m == h;
    Distributes(recall, 0.6, m);
    SignOfProduct(recall - 0.6, m);
    assert Enough(hits, n) <==> 5.0 * h >= 3.0 * m;
  }

  lemma Distributes(a: real, b: real, m: real)
    ensures (a - b) * m == a * m - b * m
  {
  }

  /** Multiplying by a positive number keeps the sign. */
  lemma SignOfProduct(d: real, m: real)
    requires m > 0.0
    ensures d >= 0.0 <==> d * m >= 0.0
  {
    if d >= 0.0 {
      NonNegativeProduct(d, m);
    } else {
      PositiveProduct(-d, m);
      assert (-d) * m == -(d * m);
    }
  }

  lemma PositiveProduct(a: real, b: real)
    requires a > 0.0 && b > 0.0
    ensures a * b > 0.0
  {
  }

  lemma NonNegativeProduct(a: real, b: real)
    requires a >= 0.0 && b > 0.0
    ensures a * b >= 0.0
  {
  }

  /** A row enters `title_prefilter` exactly when the query and its title
      contain one another, or when some query tokens are title words and
      their share reaches 60 %. */
  predicate TitleQualifies(t: string, normQ: string) {
    var tokens := SplitWords(normQ);
    var hits := CountIn(tokens, SplitWords(t));
    tokens != [] && (TitleSubstring(t, normQ) || (hits > 0 && RecallReached(hits, |tokens|)))
  }

  /** A row enters `prefilter_literal` exactly when some query tokens occur in
      its blob and their share reaches 60 %. */
  predicate LiteralQualifies(blob: string, normQ: string) {
    var tokens := SplitWords(normQ);
    var hits := CountContained(tokens, blob);
    tokens != [] && hits > 0 && RecallReached(hits, |tokens|)
  }

  lemma TitleQualifiesIff(t: string, normQ: string)
    requires SplitWords(normQ) != []
    ensures TitleQualifies(t, normQ) <==> TitleScore(t, normQ, SplitWords(normQ)).Some?
  {
    var tokens := SplitWords(normQ);
    EnoughIsRecall(CountIn(tokens, SplitWords(t)), |tokens|);
  }

  lemma LiteralQualifiesIff(blob: string, normQ: string)
    requires SplitWords(normQ) != []
    ensures LiteralQualifies(blob, normQ) <==> LiteralScore(blob, SplitWords(normQ)).Some?
  {
    var tokens := SplitWords(normQ);
    EnoughIsRecall(CountContained(tokens, blob), |tokens|);
  }

  /** `title_prefilter` returns exactly the qualifying rows; with no query
      tokens it returns none. */
  lemma TitleSelection(docs: seq<Row>, normQ: string)
    ensures SplitWords(normQ) == [] ==> TitleHits(docs, normQ) == []
    ensures forall p :: 0 <= p < |docs| ==>
      (TitleQualifies(docs[p].titleNorm, normQ) <==>
       exists i :: 0 <= i < |TitleRanking(docs, normQ)| && TitleRanking(docs, normQ)[i].pos == p)
  {
    var tokens := SplitWords(normQ);
    if tokens != [] {
      var scores := TitleScores(docs, normQ);
      var r := TitleRanking(docs, normQ);
      assert r == Rank(scores, |tokens|);
      RankSpec(scores, |tokens|);
      forall p | 0 <= p < |docs|
        ensures TitleQualifies(docs[p].titleNorm, normQ) <==> exists i :: 0 <= i < |r| && r[i].pos == p
      {
        TitleQualifiesIff(docs[p].titleNorm, normQ);
        assert scores[p] == TitleScore(docs[p].titleNorm, normQ, tokens);
      }
    }
  }

  /** `title_prefilter` names each row once, with its title score, ordered by
      descending score with ties in row order: the stable sort of the
      collected candidates. */
  lemma TitleOrder(docs: seq<Row>, normQ: string)
    ensures forall i, j :: 0 <= i < j < |TitleRanking(docs, normQ)| ==>
      TitleRanking(docs, normQ)[i].pos != TitleRanking(docs, normQ)[j].pos
    ensures Ranked(TitleRanking(docs, normQ))
    ensures forall h :: h in TitleRanking(docs, normQ) ==>
      TitleScore(docs[h.pos].titleNorm, normQ, SplitWords(normQ)) == Some(h.score)
    ensures SplitWords(normQ) != [] ==>
      multiset(TitleRanking(docs, normQ)) == multiset(Candidates(TitleScores(docs, normQ)))
  {
    var tokens := SplitWords(normQ);
    if tokens != [] {
      var scores := TitleScores(docs, normQ);
      assert TitleRanking(docs, normQ) == Rank(scores, |tokens|);
      RankSpec(scores, |tokens|);
    }
  }

  /** `prefilter_literal` returns exactly the qualifying rows; with no query
      tokens it returns none. */
  lemma LiteralSelection(docs: seq<Row>, normQ: string)
    ensures SplitWords(normQ) == [] ==> LiteralHits(docs, normQ) == []
    ensures forall p :: 0 <= p < |docs| ==>
      (LiteralQualifies(docs[p].blob, normQ) <==>
       exists i :: 0 <= i < |LiteralRanking(docs, normQ)| && LiteralRanking(docs, normQ)[i].pos == p)
  {
    var tokens := SplitWords(normQ);
    if tokens != [] {
      var scores := LiteralScores(docs, normQ);
      var r := LiteralRanking(docs, normQ);
      assert r == Rank(scores, |tokens|);
      RankSpec(scores, |tokens|);
      forall p | 0 <= p < |docs|
        ensures LiteralQualifies(docs[p].blob, normQ) <==> exists i :: 0 <= i < |r| && r[i].pos == p
      {
        LiteralQualifiesIff(docs[p].blob, normQ);
        assert scores[p] == LiteralScore(docs[p].blob, tokens);
      }
    }
  }

  /** `prefilter_literal` names each row once, with its literal score, ordered
      by descending score with ties in row order. */
  lemma LiteralOrder(docs: seq<Row>, normQ: string)
    ensures forall i, j :: 0 <= i < j < |LiteralRanking(docs, normQ)| ==>
      LiteralRanking(docs, normQ)[i].pos != LiteralRanking(docs, normQ)[j].pos
    ensures Ranked(LiteralRanking(docs, normQ))
    ensures forall h :: h in LiteralRanking(docs, normQ) ==>
      LiteralScore(docs[h.pos].blob, SplitWords(normQ)) == Some(h.score)
    ensures SplitWords(normQ) != [] ==>
      multiset(LiteralRanking(docs, normQ)) == multiset(Candidates(LiteralScores(docs, normQ)))
  {
    var tokens := SplitWords(normQ);
    if tokens != [] {
      var scores := LiteralScores(docs, normQ);
      assert LiteralRanking(docs, normQ) == Rank(scores, |tokens|);
      RankSpec(scores, |tokens|);
    }
  }

  /** `title_prefilter` returns nothing exactly when no row qualifies. */
  lemma TitleHitsEmptyIff(docs: seq<Row>, normQ: string)
    ensures TitleHits(docs, normQ) == [] <==>
      forall q :: 0 <= q < |docs| ==> !TitleQualifies(docs[q].titleNorm, normQ)
  {
    TitleSelection(docs, normQ);
    var r := TitleRanking(docs, normQ);
    if r != [] {
      assert TitleQualifies(docs[r[0].pos].titleNorm, normQ);
    }
  }

  /** `prefilter_literal` returns nothing exactly when no row qualifies. */
  lemma LiteralHitsEmptyIff(docs: seq<Row>, normQ: string)
    ensures LiteralHits(docs, normQ) == [] <==>
      forall q :: 0 <= q < |docs| ==> !LiteralQualifies(docs[q].blob, normQ)
  {
    LiteralSelection(docs, normQ);
    var r := LiteralRanking(docs, normQ);
    if r != [] {
      assert LiteralQualifies(docs[r[0].pos].blob, normQ);
    }
  }

  /** Every row `title_prefilter` returns is an input row whose title qualifies. */
  lemma TitleHitsQualify(docs: seq<Row>, normQ: string)
    ensures forall i :: 0 <= i < |TitleHits(docs, normQ)| ==>
      TitleHits(docs, normQ)[i] in docs && TitleQualifies(TitleHits(docs, normQ)[i].titleNorm, normQ)
  {
    TitleSelection(docs, normQ);
    var r := TitleRanking(docs, normQ);
    forall i | 0 <= i < |TitleHits(docs, normQ)|
      ensures TitleHits(docs, normQ)[i] in docs && TitleQualifies(TitleHits(docs, normQ)[i].titleNorm, normQ)
    {
      assert TitleHits(docs, normQ)[i] == docs[r[i].pos];
    }
  }

  /** Every row `prefilter_literal` returns is an input row whose blob qualifies. */
  lemma LiteralHitsQualify(docs: seq<Row>, normQ: string)
    ensures forall i :: 0 <= i < |LiteralHits(docs, normQ)| ==>
      LiteralHits(docs, normQ)[i] in docs && LiteralQualifies(LiteralHits(docs, normQ)[i].blob, normQ)
  {
    LiteralSelection(docs, normQ);
    var r := LiteralRanking(docs, normQ);
    forall i | 0 <= i < |LiteralHits(docs, normQ)|
      ensures LiteralHits(docs, normQ)[i] in docs && LiteralQualifies(LiteralHits(docs, normQ)[i].blob, normQ)
    {
      assert LiteralHits(docs, normQ)[i] == docs[r[i].pos];
    }
  }

  /** Both prefilters return rows of the input only. */
  lemma HitsFromDocs(docs: seq<Row>, normQ: string)
    ensures forall d :: d in TitleHits(docs, normQ) ==> d in docs
    ensures forall d :: d in LiteralHits(docs, normQ) ==> d in docs
  {
  }

  /** A row whose title normalises to "" is contained in every query, so it
      enters `title_prefilter` with the top score for every query that has
      tokens. */
  lemma EmptyTitleAlwaysHits(normQ: string)
    requires SplitWords(normQ) != []
    ensures TitleScore("", normQ, SplitWords(normQ)) == Some(|SplitWords(normQ)|)
  {
    assert "" <= normQ;
  }
}
