# Catalog search of the WhatsApp product bot, in Dafny

This project models the catalog-search core of the bot's `rag-pdf` tool and
proves properties of the model. The tool turns a product catalogue, a JSON
list of products each with a list of variants, into one searchable row per
variant. It then answers a query by a fixed cascade of stages:

1. a short query without digits finds nothing;
2. an exact order number (Bestell-Nr.) wins;
3. an order number compared by its digits wins;
4. in order-number mode the search stops;
5. the rows whose title matches the query;
6. the rows whose text blob matches the query;
7. fuzzy matching and semantic search, which are not modelled.

It also models `prepare_index.py`, which builds the embedding documents:
one document per variant, with a normalised order number, a list of
measurements and a flat text.

Modules, one per file:

- `Json` (json.dfy): parsed JSON values and the Python operations the code
  applies to them: truthiness, `dict.get`, `or` and `str()`. Raising
  `AttributeError` or `TypeError` is a `Result` value.
- `Text` (text.dfy): `normalize_text`, `split_words`, `norm_bestell`,
  `digits_only` and `expand_synonyms`. Also the string primitives they use:
  `strip`, `lower`, NFKD for German umlauts, `split`, substring `in` and
  `join`.
- `Rows` (rows.dfy): `_map_variant_fields` and `flatten_products`. The
  loops are methods proved equal to specification functions, and lemmas
  state row count, order and the derived keys of each row.
- `Ranking` (ranking.dfy): the stable sort by descending score that both
  prefilters use. A ranked list is shown to be unique, so any stable sort
  agrees with the specification.
- `Prefilter` (prefilter.dfy): `title_prefilter` and `prefilter_literal`.
  Recall is integer arithmetic: `5 * hits >= 3 * n` is proved equivalent
  to the rational `hits / n >= 0.6`.
- `Search` (search.dfy): steps 0 to 4 of `search`. Reaching the fuzzy or
  semantic stage is the outcome `Deferred`.
- `PrepareIndex` (prepare_index.dfy): `norm_id` and `build_docs`.

The code's own behaviour is followed where it is surprising:

- `normalize_text` decomposes umlauts before blanking everything outside
  its pattern, so it never outputs `ä`. The synonym key "flächenspachtel"
  therefore never fires (`Text.UmlautKeyNeverMatches`).
- A row whose normalised title is empty is a substring of every query, so
  it is a top-score title hit for any query with tokens
  (`Prefilter.EmptyTitleAlwaysHits`).

## Model

| member | source | states |
|---|---|---|
| Json.Or | whatsapp-gpt-bot/rag-pdf/search_catalog.py:45-52 | `a or b` is a when a is truthy and b otherwise; the result is truthy exactly when one operand is |
| Json.Display | whatsapp-gpt-bot/rag-pdf/search_catalog.py:54-55 | `str(v)` of a string is the string itself; every other value renders as a non-empty text |
| Json.NatToString | whatsapp-gpt-bot/rag-pdf/search_catalog.py:96-97 | `str()` of a natural number is a non-empty run of decimal digits with a leading 0 only for zero |
| Json.NatToStringValue | whatsapp-gpt-bot/rag-pdf/search_catalog.py:96-97 | the decimal digits `str()` gives for a natural number denote that number |
| Json.IntToString | whatsapp-gpt-bot/rag-pdf/search_catalog.py:96-97 | `str()` of an int starts with '-' exactly when it is negative, followed by the digits of its absolute value |
| Json.IntToStringRoundTrip | whatsapp-gpt-bot/rag-pdf/search_catalog.py:96-97 | `int(str(i)) == i` for every int |
| Text.Strip | whatsapp-gpt-bot/rag-pdf/search_catalog.py:21 | `strip()` leaves no whitespace at either end and never lengthens its input |
| Text.StripSpec | whatsapp-gpt-bot/rag-pdf/search_catalog.py:21 | the stripped text is a slice of the input with only whitespace cut on either side, so it holds only input characters |
| Text.StripOfStripped | whatsapp-gpt-bot/rag-pdf/search_catalog.py:28 | `strip()` leaves an already stripped text unchanged |
| Text.Decompose | whatsapp-gpt-bot/rag-pdf/search_catalog.py:19 | after NFKD no precomposed ä, ö or ü remains |
| Text.NormalizeText | whatsapp-gpt-bot/rag-pdf/search_catalog.py:15-17 | an empty input gives "" |
| Text.CollapseSpacesKeepsText | whatsapp-gpt-bot/rag-pdf/search_catalog.py:21 | `re.sub(r"\s+", " ", s)` keeps every non-whitespace character of s, in order, and adds none |
| Text.CollapseSpacesRun | whatsapp-gpt-bot/rag-pdf/search_catalog.py:21 | a maximal whitespace run becomes exactly one ' ' |
| Text.CollapseSpacesKeep | whatsapp-gpt-bot/rag-pdf/search_catalog.py:21 | a non-whitespace character stays in place, whatever follows it |
| Text.CollapseSpacesShape | whatsapp-gpt-bot/rag-pdf/search_catalog.py:21 | after `re.sub(r"\s+", " ", s)` no two neighbours are whitespace and each character is a space or a non-space character of the input |
| Text.NormalizeTextAlphabet | whatsapp-gpt-bot/rag-pdf/search_catalog.py:15-22 | normalised text holds only a-z, 0-9, ß, '.' and ' ': no hyphen and no umlaut |
| Text.SplitWords | whatsapp-gpt-bot/rag-pdf/search_catalog.py:24-25 | every word is non-empty and holds no whitespace; there are no words exactly when the text is all whitespace |
| Text.SplitWordsKeepsText | whatsapp-gpt-bot/rag-pdf/search_catalog.py:24-25 | the words put back together are exactly the non-whitespace characters of the text, in order |
| Text.SplitWordsRun | whatsapp-gpt-bot/rag-pdf/search_catalog.py:24-25 | `split()` cuts exactly at whitespace runs: leading whitespace is skipped, the first word runs to the next whitespace, and the rest is split alike |
| Text.NormBestell | whatsapp-gpt-bot/rag-pdf/search_catalog.py:27-28 | the normalised order number holds no space, is stripped, and is "" for "" |
| Text.NormBestellIdempotent | whatsapp-gpt-bot/rag-pdf/search_catalog.py:27-28 | `norm_bestell` is idempotent |
| Text.NormBestellKeepsText | whatsapp-gpt-bot/rag-pdf/search_catalog.py:27-28 | `norm_bestell` drops only whitespace: every other character of the order number survives, in order |
| Text.DigitsOnly | whatsapp-gpt-bot/rag-pdf/search_catalog.py:30-31 | `digits_only` outputs only digits and never lengthens its input |
| Text.DigitsOnlyAppend | whatsapp-gpt-bot/rag-pdf/search_catalog.py:30-31 | `digits_only` distributes over concatenation, so it keeps the order of the digits |
| Text.DigitsOnlyKeepsDigits | whatsapp-gpt-bot/rag-pdf/search_catalog.py:30-31 | every digit is kept as often as it occurs; the result is empty exactly when the input has no digit |
| Text.DigitsOnlyIdempotent | whatsapp-gpt-bot/rag-pdf/search_catalog.py:30-31 | `digits_only` is idempotent |
| Text.ContainsIff | whatsapp-gpt-bot/rag-pdf/search_catalog.py:130 | `needle in hay` holds exactly when the needle starts at some position of hay |
| Text.NonEmpty | whatsapp-gpt-bot/rag-pdf/search_catalog.py:94-98 | every kept part is non-empty, and a value is kept exactly when it is a non-empty part |
| Text.NonEmptySpec | whatsapp-gpt-bot/rag-pdf/search_catalog.py:94-98 | the filter works part by part, keeping order and repetitions: it distributes over concatenation, drops "" and keeps any other part |
| Text.JoinNonEmptyShape | whatsapp-gpt-bot/rag-pdf/search_catalog.py:94-98 | the joined text is empty exactly when every part is, and otherwise starts with the first non-empty part |
| Text.UmlautKeyNeverMatches | whatsapp-gpt-bot/rag-pdf/search_catalog.py:60-71 | the key "flächenspachtel" never occurs in normalised text |
| Text.ExpandSynonymsShape | whatsapp-gpt-bot/rag-pdf/search_catalog.py:65-71 | `expand_synonyms` is the normalised text, followed by the herzgriffspachtel synonyms exactly when that key occurs in it |
| Text.ExpandSynonymsUnchangedIff | whatsapp-gpt-bot/rag-pdf/search_catalog.py:65-71 | the expansion starts with the normalised text and equals it exactly when no key of the table occurs |
| Rows.MapVariantFields | whatsapp-gpt-bot/rag-pdf/search_catalog.py:44-58 | the mapped order number is stripped |
| Rows.MapVariantFieldsText | whatsapp-gpt-bot/rag-pdf/search_catalog.py:45-46 | the order number is `str()` of the first truthy of its three aliases, stripped, or ""; the finish is `str()` of the first truthy alias, or "" |
| Rows.MapVariantFieldsDims | whatsapp-gpt-bot/rag-pdf/search_catalog.py:47-50 | the mapped dict has exactly the four dimension keys, each the first truthy of its aliases or else its last fallback key |
| Rows.MapVariantFieldsPrice | whatsapp-gpt-bot/rag-pdf/search_catalog.py:51-52 | the price is the first truthy of its aliases or else "Preis"; ve is "ve" when truthy, else "VE" |
| Rows.ProductText | whatsapp-gpt-bot/rag-pdf/search_catalog.py:76-78 | a product text is the first truthy alias, stripped, or ""; a truthy non-string raises AttributeError |
| Rows.ProductHeader | whatsapp-gpt-bot/rag-pdf/search_catalog.py:76-78 | the header exists exactly when title, category and description all do, holds those three texts, and otherwise the exception is AttributeError |
| Rows.Alias | whatsapp-gpt-bot/rag-pdf/search_catalog.py:45-52 | an `or` chain of `get`s yields the first truthy alias, and the fallback when none is truthy |
| Rows.VariantList | whatsapp-gpt-bot/rag-pdf/search_catalog.py:79-80 | a list under "items" wins; otherwise a list under "variants"; a falsy "variants" gives no variants; iteration raises exactly when "variants" is truthy but not a list |
| Rows.BuildRow | whatsapp-gpt-bot/rag-pdf/search_catalog.py:81-104 | the row dict, its kept dimensions and its derived keys are the specification row MakeRow |
| Rows.FlattenProduct | whatsapp-gpt-bot/rag-pdf/search_catalog.py:75-105 | one pass of the outer loop yields the product's rows or its exception, as ProductRows |
| Rows.FlattenProducts | whatsapp-gpt-bot/rag-pdf/search_catalog.py:73-106 | the loop returns Flatten: all rows in product order, or the first exception |
| Rows.VariantRowsShape | whatsapp-gpt-bot/rag-pdf/search_catalog.py:80-105 | a product yields one row per variant, row j built from variant j |
| Rows.MakeRowWellFormed | whatsapp-gpt-bot/rag-pdf/search_catalog.py:82-104 | a built row is well formed: stripped texts, normalised title, category and ausfuehrung, `_bestell_norm`, `_bestell_digits`, only present dimensions, and the synonym-expanded blob |
| Rows.ProductHeaderStripped | whatsapp-gpt-bot/rag-pdf/search_catalog.py:76-78 | the product's title, category and description are stripped |
| Rows.ProductRowsWellFormed | whatsapp-gpt-bot/rag-pdf/search_catalog.py:75-105 | every row of a product is well formed |
| Rows.FlattenOkIff | whatsapp-gpt-bot/rag-pdf/search_catalog.py:73-106 | `flatten_products` returns exactly when no product raises |
| Rows.FlattenCount | whatsapp-gpt-bot/rag-pdf/search_catalog.py:73-106 | it returns one row per variant |
| Rows.FlattenWellFormed | whatsapp-gpt-bot/rag-pdf/search_catalog.py:73-106 | every returned row is well formed |
| Rows.FlattenAppend | whatsapp-gpt-bot/rag-pdf/search_catalog.py:73-106 | the rows of a concatenated catalogue are the rows of its parts, in order |
| Ranking.Candidates | whatsapp-gpt-bot/rag-pdf/search_catalog.py:126-139 | the collected candidates are exactly the rows with a score, each with that score |
| Ranking.CandidatesInOrder | whatsapp-gpt-bot/rag-pdf/search_catalog.py:126-139 | candidates are collected in row order |
| Ranking.SortByScoreRanked | whatsapp-gpt-bot/rag-pdf/search_catalog.py:140 | the sort orders by descending score, ties in original order |
| Ranking.SortByScorePermutation | whatsapp-gpt-bot/rag-pdf/search_catalog.py:140 | the sort is a permutation of the candidates |
| Ranking.RankedUnique | whatsapp-gpt-bot/rag-pdf/search_catalog.py:140 | two ranked lists with the same elements are equal, so any stable sort by descending score gives the specification's order |
| Ranking.RankSpec | whatsapp-gpt-bot/rag-pdf/search_catalog.py:126-141 | the ranking holds exactly the scored rows, each once with its score, ranked, as a permutation of the candidates |
| Prefilter.CountIn | whatsapp-gpt-bot/rag-pdf/search_catalog.py:134-135 | the title hit count is at most the token count, and zero exactly when no token is a title word |
| Prefilter.CountContained | whatsapp-gpt-bot/rag-pdf/search_catalog.py:150 | the blob hit count is at most the token count, and zero exactly when no token occurs in the blob |
| Prefilter.CountTitleHits | whatsapp-gpt-bot/rag-pdf/search_catalog.py:134-135 | the counting loop computes CountIn |
| Prefilter.CountBlobHits | whatsapp-gpt-bot/rag-pdf/search_catalog.py:150 | the counting loop computes CountContained |
| Prefilter.TitlePrefilter | whatsapp-gpt-bot/rag-pdf/search_catalog.py:122-141 | the loop, sort and projection return TitleHits |
| Prefilter.PrefilterLiteral | whatsapp-gpt-bot/rag-pdf/search_catalog.py:143-156 | the loop, sort and projection return LiteralHits |
| Prefilter.EnoughIsRecall | whatsapp-gpt-bot/rag-pdf/search_catalog.py:137-138 | `5 * hits >= 3 * n` holds exactly when the recall hits / n is at least 0.6 |
| Prefilter.TitleQualifiesIff | whatsapp-gpt-bot/rag-pdf/search_catalog.py:128-139 | a row gets a title score exactly when the query and title contain one another or the token recall reaches 0.6 |
| Prefilter.LiteralQualifiesIff | whatsapp-gpt-bot/rag-pdf/search_catalog.py:148-154 | a row gets a literal score exactly when its blob token recall is positive and reaches 0.6 |
| Prefilter.TitleSelection | whatsapp-gpt-bot/rag-pdf/search_catalog.py:122-141 | without query tokens nothing is returned; otherwise a row is returned exactly when it qualifies |
| Prefilter.TitleOrder | whatsapp-gpt-bot/rag-pdf/search_catalog.py:140-141 | each row appears once, with its title score, by descending score with ties in row order |
| Prefilter.LiteralSelection | whatsapp-gpt-bot/rag-pdf/search_catalog.py:143-156 | without query tokens nothing is returned; otherwise a row is returned exactly when it qualifies |
| Prefilter.LiteralOrder | whatsapp-gpt-bot/rag-pdf/search_catalog.py:155-156 | each row appears once, with its literal score, by descending score with ties in row order |
| Prefilter.TitleHitsEmptyIff | whatsapp-gpt-bot/rag-pdf/search_catalog.py:122-141 | the title prefilter returns nothing exactly when no row qualifies |
| Prefilter.LiteralHitsEmptyIff | whatsapp-gpt-bot/rag-pdf/search_catalog.py:143-156 | the literal prefilter returns nothing exactly when no row qualifies |
| Prefilter.TitleHitsQualify | whatsapp-gpt-bot/rag-pdf/search_catalog.py:122-141 | every returned row is an input row whose title qualifies |
| Prefilter.LiteralHitsQualify | whatsapp-gpt-bot/rag-pdf/search_catalog.py:143-156 | every returned row is an input row whose blob qualifies |
| Prefilter.EmptyTitleAlwaysHits | whatsapp-gpt-bot/rag-pdf/search_catalog.py:130-131 | an empty normalised title is contained in every query and scores the top score |
| Search.First | whatsapp-gpt-bot/rag-pdf/search_catalog.py:185-187 | the first accepted row is found: it matches, no earlier row does, and none is found only when no row matches |
| Search.Take | whatsapp-gpt-bot/rag-pdf/search_catalog.py:203 | `[:top_k]` is a prefix of length min(top_k, n), and for negative top_k drops that many rows from the end |
| Search.FindExact | whatsapp-gpt-bot/rag-pdf/search_catalog.py:185-187 | the loop finds the first row whose stripped, lower-cased order number equals the query's |
| Search.FindDigits | whatsapp-gpt-bot/rag-pdf/search_catalog.py:190-194 | the loop finds the first row whose order-number digits equal the query's |
| Search.Search | whatsapp-gpt-bot/rag-pdf/search_catalog.py:177-208 | the steps with early returns compute SearchSpec |
| Search.ShortQueryFindsNothing | whatsapp-gpt-bot/rag-pdf/search_catalog.py:180-182 | a normalised query of at most 3 characters without a digit finds nothing |
| Search.ExactOrderNumberWins | whatsapp-gpt-bot/rag-pdf/search_catalog.py:184-187 | past step 0, an exact order-number match returns exactly the first matching row |
| Search.DigitsOrderNumberWins | whatsapp-gpt-bot/rag-pdf/search_catalog.py:189-194 | without an exact match, a digits match returns exactly the first row with the query's digits |
| Search.BestellOnlyAnswers | whatsapp-gpt-bot/rag-pdf/search_catalog.py:196-198 | order-number mode returns at most one row, and it matches the order number exactly or by digits |
| Search.TitleStage | whatsapp-gpt-bot/rag-pdf/search_catalog.py:200-203 | past the order-number steps, when a title qualifies the first top_k title hits are returned, all qualifying input rows |
| Search.LiteralStage | whatsapp-gpt-bot/rag-pdf/search_catalog.py:205-208 | when no title but some blob qualifies, the first top_k literal hits are returned, all qualifying input rows |
| Search.DeferredIff | whatsapp-gpt-bot/rag-pdf/search_catalog.py:210-218 | fuzzy and semantic search are reached exactly when steps 0 to 2 find nothing, order-number mode is off, and no row qualifies for either prefilter |
| Search.ResultsFromDocs | whatsapp-gpt-bot/rag-pdf/search_catalog.py:177-208 | every returned row is an input row; for top_k >= 0 a result holds at most one row or at most top_k rows |
| PrepareIndex.NormId | whatsapp-gpt-bot/rag-pdf/prepare_index.py:10-11 | `norm_id` outputs only characters of [0-9a-z] and maps "" to "" |
| PrepareIndex.NormIdFixed | whatsapp-gpt-bot/rag-pdf/prepare_index.py:10-11 | a text is its own `norm_id` exactly when it holds only [0-9a-z] |
| PrepareIndex.NormIdIdempotent | whatsapp-gpt-bot/rag-pdf/prepare_index.py:10-11 | `norm_id` is idempotent |
| PrepareIndex.NormIdAppend | whatsapp-gpt-bot/rag-pdf/prepare_index.py:10-11 | `norm_id` distributes over concatenation |
| PrepareIndex.NormIdKeepsDigits | whatsapp-gpt-bot/rag-pdf/prepare_index.py:10-11 | the digits of `norm_id(s)` are the digits of s |
| PrepareIndex.Extra | whatsapp-gpt-bot/rag-pdf/prepare_index.py:26-30 | every entry of `extra` is non-empty |
| PrepareIndex.ExtraSpec | whatsapp-gpt-bot/rag-pdf/prepare_index.py:26-30 | `extra` holds one labelled entry per present key among l_mm, b_mm, h_mm, mm, ø_mm, d_mm, ve and price_eur, in that order, and nothing else |
| PrepareIndex.PresentKeys | whatsapp-gpt-bot/rag-pdf/prepare_index.py:27-30 | the keys visited are exactly those of the fixed list present in the variant |
| PrepareIndex.GatherExtra | whatsapp-gpt-bot/rag-pdf/prepare_index.py:26-30 | the loop builds Extra |
| PrepareIndex.DocHeader | whatsapp-gpt-bot/rag-pdf/prepare_index.py:17-19 | the header exists exactly when title, category and description all do, holds those three texts, and otherwise the exception is AttributeError |
| PrepareIndex.Field | whatsapp-gpt-bot/rag-pdf/prepare_index.py:17-23 | `(d.get(k) or "").strip()` is stripped, raises exactly on a truthy non-string, strips a string, and is "" for a missing or falsy value |
| PrepareIndex.Variants | whatsapp-gpt-bot/rag-pdf/prepare_index.py:21 | a missing key gives no variants; iteration succeeds exactly on a list, "" or {}; None, booleans and numbers raise TypeError |
| PrepareIndex.BuildProductDocs | whatsapp-gpt-bot/rag-pdf/prepare_index.py:16-43 | one pass of the outer loop yields ProductDocs |
| PrepareIndex.BuildDocs | whatsapp-gpt-bot/rag-pdf/prepare_index.py:13-44 | the nested loops return Docs: all documents in order, or the first exception |
| PrepareIndex.VariantDocsShape | whatsapp-gpt-bot/rag-pdf/prepare_index.py:21-43 | a product yields one document per variant, document j built from variant j |
| PrepareIndex.VariantDocWellFormed | whatsapp-gpt-bot/rag-pdf/prepare_index.py:22-43 | a variant's document is well formed: stripped texts, `bestell_nr_norm` equal to `norm_id(bestell_nr)`, non-empty extra entries, and the joined text |
| PrepareIndex.ProductDocsWellFormed | whatsapp-gpt-bot/rag-pdf/prepare_index.py:16-43 | every document of a product is well formed |
| PrepareIndex.NoVariantsNoDocs | whatsapp-gpt-bot/rag-pdf/prepare_index.py:21 | a product without "variants" contributes no document |
| PrepareIndex.DocsOkIff | whatsapp-gpt-bot/rag-pdf/prepare_index.py:13-44 | `build_docs` returns exactly when no product raises |
| PrepareIndex.DocsCount | whatsapp-gpt-bot/rag-pdf/prepare_index.py:13-44 | it returns one document per variant |
| PrepareIndex.DocsWellFormed | whatsapp-gpt-bot/rag-pdf/prepare_index.py:13-44 | every document is well formed |
| PrepareIndex.DocsAppend | whatsapp-gpt-bot/rag-pdf/prepare_index.py:13-44 | the documents of a concatenated catalogue are those of its parts, in order |
| PrepareIndex.DocTextShape | whatsapp-gpt-bot/rag-pdf/prepare_index.py:32 | the text is empty exactly when every part is, and starts with the title when there is one |

## Left out

- Fuzzy matching (`fuzzy_multi`, rapidfuzz) and semantic search (sentence-transformers, `util.semantic_search`) are left out. These are foreign numeric libraries over floats; reaching them is the outcome `Deferred`.
- `build_index`, `main`, the command line, `_print_result`, file reads and writes, `json.load`/`json.dump`, `np.save`/`np.load` and the embedding of the document texts are left out. This is I/O; the models take the parsed data as a parameter.
- `_to_float` is not modelled: a row keeps the raw JSON price value, because floats are not modelled.
- JSON numbers are integers only, since floats are not modelled. `str()` of a list or dict is a fixed placeholder rather than Python's repr.
- `lower()` maps only ASCII letters, Ä, Ö, Ü and ẞ; other characters are left unchanged. NFKD decomposes only ä, ö and ü. In `norm_id` this leaves out the few non-ASCII characters whose lower case is ASCII, such as U+0130 and U+212A.
- `PrepareIndex.Upper` is `upper()` only on ASCII letters and ø, the characters the measurement keys are made of.
- `\d` and `\D` match ASCII digits only; Python's str patterns also match other Unicode decimal digits.
- A `None` query (`query or ""`) and `norm_id(None)` are not modelled. Queries and order numbers are strings, and `build_docs` only passes strings to `norm_id`.
- Float rounding of `hits / len(q_tokens) >= 0.6` is not modelled: the comparison is exact in the rationals. Rounding cannot change it for any realistic token count.
- Iterating a non-empty dict or string as a variant list raises on its first item. The model returns that exception directly, without the key order of the dict.
- Search.TitleStage, Search.LiteralStage, Search.DeferredIff and the other Search lemmas are stated for the cascade with any normalised query; `SearchSpec` instantiates it with `normalize_text(query)`.
- Search.ResultsFromDocs: bounds the number of rows only for a non-negative top_k. With a negative top_k, `[:top_k]` drops rows from the end, as `Search.Take` states.
