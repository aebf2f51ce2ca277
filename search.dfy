/** Steps 0 to 4 of `search` in search_catalog.py over rows already in memory:
    a fixed-priority cascade in which the first stage with an answer wins.
    What the fuzzy (step 5) and semantic (step 6) stages would return is not
    modelled: reaching them is the outcome Deferred. */
module Search {
  import opened Json
  import opened Text
  import opened Rows
  import opened Ranking
  import opened Prefilter

  datatype Outcome =
    | Found(rows: seq<Row>)  // the list `search` returns
    | Deferred               // the query reaches the fuzzy and semantic stages

  /** `re.search(r"\d", s)` */
  predicate HasDigit(s: string) {
    exists i :: 0 <= i < |s| && IsDigit(s[i])
  }

  /** Step 0: a normalised query of at most three characters without a digit
      is left to the chat bot. */
  predicate TooShort(normQ: string) {
    |normQ| <= 3 && !HasDigit(normQ)
  }

  /** The key step 1 compares: `s.strip().lower()`. */
  function ExactKey(s: string): string {
    Lower(Strip(s))
  }

  /** Step 1 compares the row's order number with the raw query, both stripped and lower-cased. */
  predicate ExactMatch(d: Row, query: string) {
    ExactKey(d.bestellNr) == ExactKey(query)
  }

  /** Step 2 compares `_bestell_digits` with the digits of the raw query. */
  predicate DigitsMatch(d: Row, qDigits: string) {
    d.bestellDigits == qDigits
  }

  /** The index of the first true flag, if any. */
  function First(flags: seq<bool>): (r: Option<nat>)
    ensures r.Some? ==> r.value < |flags| && flags[r.value]
    ensures r.Some? ==> forall j :: 0 <= j < r.value ==> !flags[j]
    ensures r.None? <==> forall j :: 0 <= j < |flags| ==> !flags[j]
  {
    if flags == [] then None
    else if flags[0] then Some(0)
    else
      match First(flags[1..])
      case None => None
      case Some(k) => Some(k + 1)
  }

  /** Which rows step 1 would accept. */
  function ExactFlags(docs: seq<Row>, query: string): (r: seq<bool>)
    ensures |r| == |docs|
  {
    seq(|docs|, i requires 0 <= i < |docs| => ExactMatch(docs[i], query))
  }

  /** Which rows step 2 would accept. */
  function DigitsFlags(docs: seq<Row>, qDigits: string): (r: seq<bool>)
    ensures |r| == |docs|
  {
    seq(|docs|, i requires 0 <= i < |docs| => DigitsMatch(docs[i], qDigits))
  }

  /** The first row matching the query exactly, if any. */
  function FirstExact(docs: seq<Row>, query: string): Option<nat> {
    First(ExactFlags(docs, query))
  }

  /** The first row whose order-number digits are qDigits, if any. */
  function FirstDigits(docs: seq<Row>, qDigits: string): Option<nat> {
    First(DigitsFlags(docs, qDigits))
  }

  /** A true flag at i with none before it is the first one. */
  lemma FirstAt(flags: seq<bool>, i: nat)
    requires i < |flags| && flags[i] && forall j :: 0 <= j < i ==> !flags[j]
    ensures First(flags) == Some(i)
  {
  }

  /** Python's slice `s[:k]`; a negative k drops that many items from the end. */
  function Take<T>(s: seq<T>, k: int): (r: seq<T>)
    ensures r <= s
    ensures k >= 0 ==> |r| == if k <= |s| then k else |s|
    ensures k < 0 ==> |r| == if -k <= |s| then |s| + k else 0
  {
    if k >= 0 then (if k <= |s| then s[..k] else s)
    else if -k <= |s| then s[..|s| + k]
    else []
  }

  /** Steps 0 to 4 of `search` for the raw query and its normalised form normQ. */
  function Cascade(docs: seq<Row>, query: string, normQ: string, topK: int, bestellOnly: bool): Outcome {
    var qDigits := DigitsOnly(query);
    if TooShort(normQ) then Found([])
    else if FirstExact(docs, query).Some? then Found([docs[FirstExact(docs, query).value]])
    else if qDigits != "" && FirstDigits(docs, qDigits).Some? then Found([docs[FirstDigits(docs, qDigits).value]])
    else if bestellOnly then Found([])
    else if TitleHits(docs, normQ) != [] then Found(Take(TitleHits(docs, normQ), topK))
    else if LiteralHits(docs, normQ) != [] then Found(Take(LiteralHits(docs, normQ), topK))
    else Deferred
  }

  /** Steps 0 to 4 of `search(query, top_k, bestell_only)` over docs. */
  function SearchSpec(docs: seq<Row>, query: string, topK: int, bestellOnly: bool): Outcome {
    Cascade(docs, query, NormalizeText(query), topK, bestellOnly)
  }

  /** Step 1's loop: the first row whose stripped, lower-cased order number
      is the stripped, lower-cased query. */
  method FindExact(docs: seq<Row>, query: string) returns (found: Option<nat>)
    ensures found == FirstExact(docs, query)
  {
    ghost var exact := ExactFlags(docs, query);
    for i := 0 to |docs|
      invariant forall j :: 0 <= j < i ==> !exact[j]
    {
      if ExactMatch(docs[i], query) {
        assert exact[i];
        FirstAt(exact, i);
        return Some(i);
      }
      assert !exact[i];
    }
    return None;
  }

  /** Step 2's loop: the first row whose `_bestell_digits` are qDigits. */
  method FindDigits(docs: seq<Row>, qDigits: string) returns (found: Option<nat>)
    ensures found == FirstDigits(docs, qDigits)
  {
    ghost var digits := DigitsFlags(docs, qDigits);
    for i := 0 to |docs|
      invariant forall j :: 0 <= j < i ==> !digits[j]
    {
      if docs[i].bestellDigits == qDigits {
        assert digits[i];
        FirstAt(digits, i);
        return Some(i);
      }
      assert !digits[i];
    }
    return None;
  }

  /** The body of `search` after the index is loaded: steps with early returns. */
  method Search(docs: seq<Row>, query: string, topK: int, bestellOnly: bool) returns (out: Outcome)
    ensures out == SearchSpec(docs, query, topK, bestellOnly)
  {
    var normQ := NormalizeText(query);
    if |normQ| <= 3 && !HasDigit(normQ) {
      return Found([]);
    }
    var exact := FindExact(docs, query);
    if exact.Some? {
      return Found([docs[exact.value]]);
    }
    var qDigits := DigitsOnly(query);
    if qDigits != "" {
      var byDigits := FindDigits(docs, qDigits);
      if byDigits.Some? {
        return Found([docs[byDigits.value]]);
      }
    }
    if bestellOnly {
      return Found([]);
    }
    var titleHits := TitlePrefilter(docs, normQ);
    if titleHits != [] {
      return Found(Take(titleHits, topK));
    }
    var literalHits := PrefilterLiteral(docs, normQ);
    if literalHits != [] {
      return Found(Take(literalHits, topK));
    }
    return Deferred;
  }

  // ----- properties -----

  /** Step 0: short queries without a digit find nothing, whatever the rows. */
  lemma ShortQueryFindsNothing(docs: seq<Row>, query: string, normQ: string, topK: int, bestellOnly: bool)
    requires |normQ| <= 3
    requires forall i :: 0 <= i < |normQ| ==> !IsDigit(normQ[i])
    ensures Cascade(docs, query, normQ, topK, bestellOnly) == Found([])
  {
  }

  /** Step 1: past step 0, a row whose order number equals the query (stripped,
      case-insensitively) wins, and the first such row is the only result. */
  lemma ExactOrderNumberWins(docs: seq<Row>, query: string, normQ: string, topK: int, bestellOnly: bool, i: nat)
    requires !TooShort(normQ)
    requires i < |docs| && ExactMatch(docs[i], query)
    ensures exists k :: 0 <= k <= i && Cascade(docs, query, normQ, topK, bestellOnly) == Found([docs[k]]) &&
                        ExactMatch(docs[k], query) && forall j :: 0 <= j < k ==> !ExactMatch(docs[j], query)
  {
    var flags := ExactFlags(docs, query);
    assert flags[i];
    var k := FirstExact(docs, query).value;
    assert Cascade(docs, query, normQ, topK, bestellOnly) == Found([docs[k]]);
    assert flags[k];
    forall j | 0 <= j < k ensures !ExactMatch(docs[j], query) {
      assert !flags[j];
    }
  }

  /** Step 2: without an exact match, the first row whose order-number digits
      equal the query's (non-empty) digits is the only result. */
  lemma DigitsOrderNumberWins(docs: seq<Row>, query: string, normQ: string, topK: int, bestellOnly: bool, i: nat)
    requires !TooShort(normQ)
    requires forall j :: 0 <= j < |docs| ==> !ExactMatch(docs[j], query)
    requires DigitsOnly(query) != [] && i < |docs| && DigitsMatch(docs[i], DigitsOnly(query))
    ensures exists k :: 0 <= k <= i && Cascade(docs, query, normQ, topK, bestellOnly) == Found([docs[k]]) &&
                        DigitsMatch(docs[k], DigitsOnly(query)) &&
                        forall j :: 0 <= j < k ==> !DigitsMatch(docs[j], DigitsOnly(query))
  {
    var exact := ExactFlags(docs, query);
    forall j | 0 <= j < |docs| ensures !exact[j] {
      assert !ExactMatch(docs[j], query);
    }
    var qDigits := DigitsOnly(query);
    var flags := DigitsFlags(docs, qDigits);
    assert flags[i];
    var k := FirstDigits(docs, qDigits).value;
    assert Cascade(docs, query, normQ, topK, bestellOnly) == Found([docs[k]]);
    assert flags[k];
    forall j | 0 <= j < k ensures !DigitsMatch(docs[j], qDigits) {
      assert !flags[j];
    }
  }

  /** Order-number mode answers from steps 0 to 2 only: at most one row, and
      that row matches the query's order number exactly or by its digits. */
  lemma BestellOnlyAnswers(docs: seq<Row>, query: string, normQ: string, topK: int)
    ensures Cascade(docs, query, normQ, topK, true).Found?
    ensures |Cascade(docs, query, normQ, topK, true).rows| <= 1
    ensures forall d :: d in Cascade(docs, query, normQ, topK, true).rows ==>
      d in docs && (ExactMatch(d, query) || (DigitsOnly(query) != "" && DigitsMatch(d, DigitsOnly(query))))
  {
    var qDigits := DigitsOnly(query);
    var out := Cascade(docs, query, normQ, topK, true);
    if TooShort(normQ) {
      assert out == Found([]);
    } else if FirstExact(docs, query).Some? {
      var k := FirstExact(docs, query).value;
      assert ExactFlags(docs, query)[k];
      assert out == Found([docs[k]]);
    } else if qDigits != "" && FirstDigits(docs, qDigits).Some? {
      var k := FirstDigits(docs, qDigits).value;
      assert DigitsFlags(docs, qDigits)[k];
      assert out == Found([docs[k]]);
    } else {
      assert out == Found([]);
    }
  }

  /** The search got past steps 0 to 2 and is not in order-number mode. */
  predicate PastOrderNumber(docs: seq<Row>, query: string, normQ: string, bestellOnly: bool) {
    && !TooShort(normQ)
    && FirstExact(docs, query).None?
    && (DigitsOnly(query) == "" || FirstDigits(docs, DigitsOnly(query)).None?)
    && !bestellOnly
  }

  /** Past the order-number steps, steps 3 and 4 decide the outcome. */
  lemma PrefilterStages(docs: seq<Row>, query: string, normQ: string, topK: int, bestellOnly: bool)
    requires PastOrderNumber(docs, query, normQ, bestellOnly)
    ensures Cascade(docs, query, normQ, topK, bestellOnly) ==
      if TitleHits(docs, normQ) != [] then Found(Take(TitleHits(docs, normQ), topK))
      else if LiteralHits(docs, normQ) != [] then Found(Take(LiteralHits(docs, normQ), topK))
      else Deferred
  {
  }

  /** A prefix of rows drawn from docs holds only rows of docs. */
  lemma TakeFrom(hits: seq<Row>, docs: seq<Row>, k: int)
    requires forall d :: d in hits ==> d in docs
    ensures forall d :: d in Take(hits, k) ==> d in docs
  {
  }

  /** The prefix `[:top_k]` starts like the whole list. */
  lemma TakeKeeps(hits: seq<Row>, k: int)
    ensures forall i :: 0 <= i < |Take(hits, k)| ==> Take(hits, k)[i] == hits[i]
  {
  }

  /** Step 3: past the order-number steps, when some title qualifies the
      result is the first top_k title hits, and every returned row is an
      input row whose title qualifies. */
  lemma TitleStage(docs: seq<Row>, query: string, normQ: string, topK: int, bestellOnly: bool, p: nat)
    requires PastOrderNumber(docs, query, normQ, bestellOnly)
    requires p < |docs| && TitleQualifies(docs[p].titleNorm, normQ)
    ensures Cascade(docs, query, normQ, topK, bestellOnly) == Found(Take(TitleHits(docs, normQ), topK))
    ensures forall i :: 0 <= i < |Cascade(docs, query, normQ, topK, bestellOnly).rows| ==>
      Cascade(docs, query, normQ, topK, bestellOnly).rows[i] in docs &&
      TitleQualifies(Cascade(docs, query, normQ, topK, bestellOnly).rows[i].titleNorm, normQ)
  {
    PrefilterStages(docs, query, normQ, topK, bestellOnly);
    TitleHitsEmptyIff(docs, normQ);
    TitleHitsQualify(docs, normQ);
    TakeKeeps(TitleHits(docs, normQ), topK);
  }

  /** Step 4: past the order-number steps, when no title qualifies but some
      blob does, the result is the first top_k literal hits, and every
      returned row is an input row whose blob qualifies. */
  lemma LiteralStage(docs: seq<Row>, query: string, normQ: string, topK: int, bestellOnly: bool, p: nat)
    requires PastOrderNumber(docs, query, normQ, bestellOnly)
    requires forall q :: 0 <= q < |docs| ==> !TitleQualifies(docs[q].titleNorm, normQ)
    requires p < |docs| && LiteralQualifies(docs[p].blob, normQ)
    ensures Cascade(docs, query, normQ, topK, bestellOnly) == Found(Take(LiteralHits(docs, normQ), topK))
    ensures forall i :: 0 <= i < |Cascade(docs, query, normQ, topK, bestellOnly).rows| ==>
      Cascade(docs, query, normQ, topK, bestellOnly).rows[i] in docs &&
      LiteralQualifies(Cascade(docs, query, normQ, topK, bestellOnly).rows[i].blob, normQ)
  {
    PrefilterStages(docs, query, normQ, topK, bestellOnly);
    TitleHitsEmptyIff(docs, normQ);
    LiteralHitsEmptyIff(docs, normQ);
    LiteralHitsQualify(docs, normQ);
    TakeKeeps(LiteralHits(docs, normQ), topK);
  }

  /** The outcome is Deferred exactly when the search got past steps 0 to 2
      and neither prefilter returns a row. */
  lemma DeferredHits(docs: seq<Row>, query: string, normQ: string, topK: int, bestellOnly: bool)
    ensures Cascade(docs, query, normQ, topK, bestellOnly).Deferred? <==>
      PastOrderNumber(docs, query, normQ, bestellOnly) && TitleHits(docs, normQ) == [] && LiteralHits(docs, normQ) == []
  {
  }

  /** The cascade reaches the fuzzy and semantic stages exactly when it got
      past the order-number steps and no row qualifies for either prefilter. */
  lemma DeferredIff(docs: seq<Row>, query: string, normQ: string, topK: int, bestellOnly: bool)
    ensures Cascade(docs, query, normQ, topK, bestellOnly).Deferred? <==>
      PastOrderNumber(docs, query, normQ, bestellOnly) &&
      (forall q :: 0 <= q < |docs| ==> !TitleQualifies(docs[q].titleNorm, normQ)) &&
      (forall q :: 0 <= q < |docs| ==> !LiteralQualifies(docs[q].blob, normQ))
  {
    DeferredHits(docs, query, normQ, topK, bestellOnly);
    TitleHitsEmptyIff(docs, normQ);
    LiteralHitsEmptyIff(docs, normQ);
  }

  /** Every row steps 0 to 2 return is an input row. */
  lemma OrderNumberRowsFromDocs(docs: seq<Row>, query: string, normQ: string, topK: int, bestellOnly: bool)
    requires !PastOrderNumber(docs, query, normQ, bestellOnly)
    ensures Cascade(docs, query, normQ, topK, bestellOnly).Found?
    ensures |Cascade(docs, query, normQ, topK, bestellOnly).rows| <= 1
    ensures forall d :: d in Cascade(docs, query, normQ, topK, bestellOnly).rows ==> d in docs
  {
  }

  /** Every row steps 3 and 4 return is an input row, at most top_k of them. */
  lemma PrefilterRowsFromDocs(docs: seq<Row>, query: string, normQ: string, topK: int, bestellOnly: bool)
    requires PastOrderNumber(docs, query, normQ, bestellOnly)
    ensures Cascade(docs, query, normQ, topK, bestellOnly).Found? ==>
      forall d :: d in Cascade(docs, query, normQ, topK, bestellOnly).rows ==> d in docs
    ensures Cascade(docs, query, normQ, topK, bestellOnly).Found? && topK >= 0 ==>
      |Cascade(docs, query, normQ, topK, bestellOnly).rows| <= topK
  {
    PrefilterStages(docs, query, normQ, topK, bestellOnly);
    HitsFromDocs(docs, normQ);
    TakeFrom(TitleHits(docs, normQ), docs, topK);
    TakeFrom(LiteralHits(docs, normQ), docs, topK);
  }

  /** Every returned row is one of the input rows, and for a non-negative
      top_k a result of more than one row (one from the prefilters) holds at
      most top_k rows. */
  lemma ResultsFromDocs(docs: seq<Row>, query: string, normQ: string, topK: int, bestellOnly: bool)
    ensures Cascade(docs, query, normQ, topK, bestellOnly).Found? ==>
      forall d :: d in Cascade(docs, query, normQ, topK, bestellOnly).rows ==> d in docs
    ensures Cascade(docs, query, normQ, topK, bestellOnly).Found? && topK >= 0 ==>
      |Cascade(docs, query, normQ, topK, bestellOnly).rows| <= 1 ||
      |Cascade(docs, query, normQ, topK, bestellOnly).rows| <= topK
  {
    if !PastOrderNumber(docs, query, normQ, bestellOnly) {
      OrderNumberRowsFromDocs(docs, query, normQ, topK, bestellOnly);
    } else {
      PrefilterRowsFromDocs(docs, query, normQ, topK, bestellOnly);
    }
  }
}
