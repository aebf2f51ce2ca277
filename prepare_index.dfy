/** `norm_id` and `build_docs` of prepare_index.py over already-parsed product
    data: one searchable document per product variant, with a normalised
    order number, a list of measurements and a flat text for embedding. */
module PrepareIndex {
  import opened Json
  import opened Text
  import opened Rows

  // ----- norm_id -----

  /** The characters `[0-9a-z]` keeps. */
  predicate IsIdChar(c: char) {
    IsDigit(c) || IsLowerAscii(c)
  }

  /** `re.sub(r"[^0-9a-z]+", "", s)`: every character outside [0-9a-z] is dropped. */
  function KeepIdChars(s: string): (r: string)
    ensures forall i :: 0 <= i < |r| ==> IsIdChar(r[i])
    ensures |r| <= |s|
  {
    if s == [] then []
    else (if IsIdChar(s[0]) then [s[0]] else []) + KeepIdChars(s[1..])
  }

  /** `norm_id(s)` for a string s, for which `s or ""` is s. */
  function NormId(s: string): (r: string)
    ensures forall i :: 0 <= i < |r| ==> IsIdChar(r[i])
    ensures s == "" ==> r == ""
  {
    KeepIdChars(Lower(s))
  }

  lemma {:induction false} LowerAppend(a: string, b: string)
    ensures Lower(a + b) == Lower(a) + Lower(b)
    decreases |a|
  {
    if a != [] {
      assert (a + b)[1..] == a[1..] + b;
      LowerAppend(a[1..], b);
    } else {
      assert a + b == b;
    }
  }

  lemma {:induction false} KeepIdCharsAppend(a: string, b: string)
    ensures KeepIdChars(a + b) == KeepIdChars(a) + KeepIdChars(b)
    decreases |a|
  {
    if a != [] {
      assert (a + b)[1..] == a[1..] + b;
      KeepIdCharsAppend(a[1..], b);
    } else {
      assert a + b == b;
    }
  }

  /** `norm_id` works character by character. */
  lemma NormIdAppend(a: string, b: string)
    ensures NormId(a + b) == NormId(a) + NormId(b)
  {
    LowerAppend(a, b);
    KeepIdCharsAppend(Lower(a), Lower(b));
  }

  lemma {:induction false} LowerOfId(s: string)
    requires forall i :: 0 <= i < |s| ==> IsIdChar(s[i])
    ensures Lower(s) == s
    decreases |s|
  {
    if s != [] {
      LowerOfId(s[1..]);
    }
  }

  lemma {:induction false} KeepIdCharsOfId(s: string)
    requires forall i :: 0 <= i < |s| ==> IsIdChar(s[i])
    ensures KeepIdChars(s) == s
    decreases |s|
  {
    if s != [] {
      KeepIdCharsOfId(s[1..]);
    }
  }

  /** A string is its own normal form exactly when it holds only [0-9a-z]. */
  lemma NormIdFixed(s: string)
    ensures NormId(s) == s <==> forall i :: 0 <= i < |s| ==> IsIdChar(s[i])
  {
    if forall i :: 0 <= i < |s| ==> IsIdChar(s[i]) {
      LowerOfId(s);
      KeepIdCharsOfId(s);
    }
  }

  /** `norm_id` is idempotent. */
  lemma NormIdIdempotent(s: string)
    ensures NormId(NormId(s)) == NormId(s)
  {
    NormIdFixed(NormId(s));
  }

  /** `norm_id` keeps every digit, in order: the digits of the normalised
      order number are those of the raw one. */
  lemma {:induction false} NormIdKeepsDigits(s: string)
    ensures DigitsOnly(NormId(s)) == DigitsOnly(s)
    decreases |s|
  {
    if s != [] {
      NormIdKeepsDigits(s[1..]);
      var c := s[0];
      assert s == [c] + s[1..];
      assert NormId(s) == KeepIdChars([LowerChar(c)]) + NormId(s[1..]) by {
        assert Lower(s) == [LowerChar(c)] + Lower(s[1..]);
        KeepIdCharsAppend([LowerChar(c)], Lower(s[1..]));
      }
      DigitsOnlyAppend(KeepIdChars([LowerChar(c)]), NormId(s[1..]));
      DigitsOnlyAppend([c], s[1..]);
      assert DigitsOnly(KeepIdChars([LowerChar(c)])) == DigitsOnly([c]) by {
        assert [LowerChar(c)][1..] == [];
        assert [c][1..] == [];
      }
    }
  }

  // ----- the measurement list `extra` -----

  /** `upper()` of the characters the measurement keys are made of. */
  function UpperChar(c: char): char {
    if 'a' <= c <= 'z' then (c as int - 32) as char
    else if c == 'ø' then 'Ø'
    else c
  }

  function Upper(s: string): (r: string)
    ensures |r| == |s|
  {
    if s == [] then [] else [UpperChar(s[0])] + Upper(s[1..])
  }

  /** `key.replace('_', ' ').upper()` */
  function Label(key: string): string {
    Upper(ReplaceChar(key, '_', ' '))
  }

  /** The measurement keys, in the order they are looked up. */
  const MeasureKeys: seq<string> := ["l_mm", "b_mm", "h_mm", "mm", "ø_mm", "d_mm"]

  /** Every key that can contribute to `extra`, in order. */
  const ExtraKeys: seq<string> := MeasureKeys + ["ve", "price_eur"]

  /** The measurement entries for the keys present in the variant. */
  function MeasureEntries(v: map<string, Json>, keys: seq<string>): (r: seq<string>)
    ensures forall i :: 0 <= i < |r| ==> r[i] != ""
  {
    if keys == [] then []
    else
      var key := keys[|keys| - 1];
      MeasureEntries(v, keys[..|keys| - 1]) + (if key in v then [Label(key) + ": " + Display(v[key])] else [])
  }

  /** The list `extra` of one variant. */
  function Extra(v: map<string, Json>): (r: seq<string>)
    ensures forall i :: 0 <= i < |r| ==> r[i] != ""
  {
    MeasureEntries(v, MeasureKeys)
    + (if "ve" in v then ["VE: " + Display(v["ve"])] else [])
    + (if "price_eur" in v then ["Preis: " + Display(v["price_eur"]) + " €"] else [])
  }

  /** The keys of keys present in the variant, in the order of keys. */
  function PresentKeys(keys: seq<string>, v: map<string, Json>): (r: seq<string>)
    ensures forall k :: k in r <==> k in keys && k in v
    ensures |r| <= |keys|
  {
    if keys == [] then []
    else
      var key := keys[|keys| - 1];
      var init := keys[..|keys| - 1];
      assert forall k :: k in keys <==> k in init || k == key;
      PresentKeys(init, v) + (if key in v then [key] else [])
  }

  /** The entry `extra` holds for a present key. */
  function Entry(v: map<string, Json>, key: string): string {
    if key == "ve" then "VE: " + Display(Get(v, key))
    else if key == "price_eur" then "Preis: " + Display(Get(v, key)) + " €"
    else Label(key) + ": " + Display(Get(v, key))
  }

  /** entries holds Entry for each key of keys present in the variant, in order. */
  predicate EntriesFor(v: map<string, Json>, keys: seq<string>, entries: seq<string>) {
    |entries| == |PresentKeys(keys, v)|
    && forall i :: 0 <= i < |entries| ==> entries[i] == Entry(v, PresentKeys(keys, v)[i])
  }

  /** One more key: its entry is appended exactly when the key is present. */
  lemma EntriesForSnoc(v: map<string, Json>, keys: seq<string>, key: string, entries: seq<string>)
    requires EntriesFor(v, keys, entries)
    ensures EntriesFor(v, keys + [key], entries + (if key in v then [Entry(v, key)] else []))
  {
    assert (keys + [key])[..|keys|] == keys;
    assert (keys + [key])[|keys|] == key;
  }

  lemma {:induction false} MeasureEntriesSpec(v: map<string, Json>, keys: seq<string>)
    requires "ve" !in keys && "price_eur" !in keys
    ensures |MeasureEntries(v, keys)| == |PresentKeys(keys, v)|
    ensures forall i :: 0 <= i < |MeasureEntries(v, keys)| ==>
      MeasureEntries(v, keys)[i] == Entry(v, PresentKeys(keys, v)[i])
    decreases |keys|
  {
    if keys != [] {
      var init := keys[..|keys| - 1];
      var key := keys[|keys| - 1];
      assert key in keys;
      assert forall k :: k in init ==> k in keys;
      MeasureEntriesSpec(v, init);
      assert init + [key] == keys;
      EntriesForSnoc(v, init, key, MeasureEntries(v, init));
    }
  }

  /** `extra` holds one entry per key of ExtraKeys present in the variant,
      in the order of ExtraKeys, and nothing else. */
  lemma ExtraSpec(v: map<string, Json>)
    ensures |Extra(v)| == |PresentKeys(ExtraKeys, v)|
    ensures forall i :: 0 <= i < |Extra(v)| ==> Extra(v)[i] == Entry(v, PresentKeys(ExtraKeys, v)[i])
  {
    MeasureEntriesSpec(v, MeasureKeys);
    var m := MeasureEntries(v, MeasureKeys);
    EntriesForSnoc(v, MeasureKeys, "ve", m);
    var mv := m + (if "ve" in v then [Entry(v, "ve")] else []);
    EntriesForSnoc(v, MeasureKeys + ["ve"], "price_eur", mv);
    assert MeasureKeys + ["ve"] + ["price_eur"] == ExtraKeys;
  }

  /** The loop that fills `extra`. */
  method GatherExtra(v: map<string, Json>) returns (extra: seq<string>)
    ensures extra == Extra(v)
  {
    extra := [];
    for i := 0 to |MeasureKeys|
      invariant extra == MeasureEntries(v, MeasureKeys[..i])
    {
      var key := MeasureKeys[i];
      assert MeasureKeys[..i + 1][..i] == MeasureKeys[..i];
      if key in v {
        extra := extra + [Label(key) + ": " + Display(v[key])];
      }
    }
    assert MeasureKeys[..|MeasureKeys|] == MeasureKeys;
    if "ve" in v {
      extra := extra + ["VE: " + Display(v["ve"])];
    }
    if "price_eur" in v {
      extra := extra + ["Preis: " + Display(v["price_eur"]) + " €"];
    }
  }

  // ----- build_docs -----

  /** One entry of the document list. */
  datatype Doc = Doc(
    title: string,
    category: string,
    description: string,
    ausfuehrung: string,
    bestellNr: string,
    bestellNrNorm: string,
    extra: seq<string>,
    text: string)

  /** `(d.get(key) or "").strip()`; a truthy value that is not a string raises. */
  function Field(d: map<string, Json>, key: string): (r: Result<string>)
    ensures r.Ok? ==> IsStripped(r.value)
    ensures r.Err? <==> Truthy(Get(d, key)) && !Get(d, key).JStr?
    ensures Get(d, key).JStr? ==> r == Ok(Strip(Get(d, key).s))
    ensures !Truthy(Get(d, key)) ==> r == Ok("")
  {
    StripText(Or(Get(d, key), JStr("")))
  }

  /** The product's title, category and description, in the order the
      source computes them. */
  function DocHeader(p: map<string, Json>): (r: Result<Header>)
    ensures r.Ok? <==> Field(p, "title").Ok? && Field(p, "category").Ok? && Field(p, "description").Ok?
    ensures r.Ok? ==> r.value == Header(Field(p, "title").value, Field(p, "category").value,
                                        Field(p, "description").value)
    ensures r.Err? ==> r.error == AttributeError
  {
    var title := Field(p, "title");
    var category := Field(p, "category");
    var description := Field(p, "description");
    if title.Err? then Err(title.error)
    else if category.Err? then Err(category.error)
    else if description.Err? then Err(description.error)
    else Ok(Header(title.value, category.value, description.value))
  }

  /** The items `for v in prod.get("variants", [])` visits. An empty string
      or dict gives none; a non-empty one yields strings, and the first of
      them raises on `v.get`; None, booleans and numbers are not iterable. */
  function Variants(p: map<string, Json>): (r: Result<seq<Json>>)
    ensures "variants" !in p ==> r == Ok([])
    ensures r.Ok? <==> "variants" !in p || p["variants"].JArr? || p["variants"] == JStr("") || p["variants"] == JObj(map[])
    ensures r == Err(TypeError) <==> "variants" in p && (p["variants"].JNull? || p["variants"].JBool? || p["variants"].JInt?)
  {
    if "variants" !in p then Ok([])
    else
      match p["variants"]
      case JArr(items) => Ok(items)
      case JStr(s) => if s == "" then Ok([]) else Err(AttributeError)
      case JObj(m) => if |m| == 0 then Ok([]) else Err(AttributeError)
      case _ => Err(TypeError)
  }

  function MakeDoc(h: Header, ausf: string, bestell: string, extra: seq<string>): Doc {
    Doc(h.title, h.category, h.description, ausf, bestell, NormId(bestell), extra,
        JoinNonEmpty(" | ", [h.title, h.category, h.description, ausf, bestell, Join(" ", extra)]))
  }

  /** The document of one variant; a variant that is not a dict raises. */
  function VariantDoc(h: Header, v: Json): Result<seq<Doc>> {
    if !v.JObj? then Err(AttributeError)
    else
      var bestell := Field(v.fields, "bestell_nr");
      var ausf := Field(v.fields, "ausfuehrung");
      if bestell.Err? then Err(bestell.error)
      else if ausf.Err? then Err(ausf.error)
      else Ok([MakeDoc(h, ausf.value, bestell.value, Extra(v.fields))])
  }

  /** VariantDoc for the variants of the product with header h. */
  function DocOf(h: Header): Json -> Result<seq<Doc>> {
    v => VariantDoc(h, v)
  }

  /** The documents of the variants vs, in variant order. */
  function VariantDocs(h: Header, vs: seq<Json>): Result<seq<Doc>> {
    Gather(DocOf(h), vs)
  }

  /** The documents of one product; a product that is not a dict raises. */
  function ProductDocs(p: Json): Result<seq<Doc>> {
    if !p.JObj? then Err(AttributeError)
    else
      var h := DocHeader(p.fields);
      var vs := Variants(p.fields);
      if h.Err? then Err(h.error)
      else if vs.Err? then Err(vs.error)
      else VariantDocs(h.value, vs.value)
  }

  /** `build_docs()` over the parsed product list. */
  function Docs(data: seq<Json>): Result<seq<Doc>> {
    Gather(ProductDocs, data)
  }

  /** One pass of the outer loop of `build_docs`: the product's texts, its
      variants, and the inner loop that appends one document per variant. */
  method BuildProductDocs(prod: Json) returns (result: Result<seq<Doc>>)
    ensures result == ProductDocs(prod)
  {
    if !prod.JObj? {
      return Err(AttributeError);
    }
    var title := Field(prod.fields, "title");
    if title.Err? {
      return Err(title.error);
    }
    var category := Field(prod.fields, "category");
    if category.Err? {
      return Err(category.error);
    }
    var desc := Field(prod.fields, "description");
    if desc.Err? {
      return Err(desc.error);
    }
    var h := Header(title.value, category.value, desc.value);
    var variants := Variants(prod.fields);
    if variants.Err? {
      return Err(variants.error);
    }
    var vs := variants.value;
    var docs: seq<Doc> := [];
    for j := 0 to |vs|
      invariant VariantDocs(h, vs[..j]) == Ok(docs)
    {
      GatherStep(DocOf(h), vs, j);
      var v := vs[j];
      if !v.JObj? {
        GatherErrSticks(DocOf(h), vs, j + 1, AttributeError);
        return Err(AttributeError);
      }
      var bestell := Field(v.fields, "bestell_nr");
      if bestell.Err? {
        GatherErrSticks(DocOf(h), vs, j + 1, bestell.error);
        return Err(bestell.error);
      }
      var ausf := Field(v.fields, "ausfuehrung");
      if ausf.Err? {
        GatherErrSticks(DocOf(h), vs, j + 1, ausf.error);
        return Err(ausf.error);
      }
      var extra := GatherExtra(v.fields);
      var text := JoinNonEmpty(" | ", [h.title, h.category, h.description, ausf.value, bestell.value, Join(" ", extra)]);
      docs := docs + [Doc(h.title, h.category, h.description, ausf.value, bestell.value,
                          NormId(bestell.value), extra, text)];
    }
    assert vs[..|vs|] == vs;
    return Ok(docs);
  }

  /** `build_docs()`: the loop over the products. */
  method BuildDocs(data: seq<Json>) returns (result: Result<seq<Doc>>)
    ensures result == Docs(data)
  {
    var docs: seq<Doc> := [];
    for i := 0 to |data|
      invariant Docs(data[..i]) == Ok(docs)
    {
      GatherStep(ProductDocs, data, i);
      var more := BuildProductDocs(data[i]);
      if more.Err? {
        GatherErrSticks(ProductDocs, data, i + 1, more.error);
        return Err(more.error);
      }
      docs := docs + more.value;
    }
    assert data[..|data|] == data;
    return Ok(docs);
  }

  // ----- properties -----

  /** The documents of a product, one per variant: document j comes from variant j. */
  lemma VariantDocsShape(h: Header, vs: seq<Json>)
    requires VariantDocs(h, vs).Ok?
    ensures |VariantDocs(h, vs).value| == |vs|
    ensures forall j :: 0 <= j < |vs| ==>
      VariantDoc(h, vs[j]).Ok? && VariantDocs(h, vs).value[j] == VariantDoc(h, vs[j]).value[0]
  {
    GatherSingles(DocOf(h), vs);
  }

  /** A document as `build_docs` makes it: stripped texts, the normalised
      order number, and the text joined from the non-empty parts. */
  predicate DocWellFormed(d: Doc) {
    && IsStripped(d.title) && IsStripped(d.category) && IsStripped(d.description)
    && IsStripped(d.ausfuehrung) && IsStripped(d.bestellNr)
    && d.bestellNrNorm == NormId(d.bestellNr)
    && (forall i :: 0 <= i < |d.extra| ==> d.extra[i] != "")
    && d.text == JoinNonEmpty(" | ", [d.title, d.category, d.description, d.ausfuehrung, d.bestellNr, Join(" ", d.extra)])
  }

  lemma VariantDocWellFormed(h: Header, v: Json)
    requires HeaderStripped(h) && VariantDoc(h, v).Ok?
    ensures |VariantDoc(h, v).value| == 1 && DocWellFormed(VariantDoc(h, v).value[0])
  {
  }

  lemma DocHeaderStripped(p: map<string, Json>)
    requires DocHeader(p).Ok?
    ensures HeaderStripped(DocHeader(p).value)
  {
  }

  /** Every document of a product is well formed. */
  lemma ProductDocsWellFormed(p: Json)
    requires ProductDocs(p).Ok?
    ensures forall d :: d in ProductDocs(p).value ==> DocWellFormed(d)
  {
    var h := DocHeader(p.fields).value;
    DocHeaderStripped(p.fields);
    var vs := Variants(p.fields).value;
    VariantDocsShape(h, vs);
    var docs := ProductDocs(p).value;
    forall d | d in docs ensures DocWellFormed(d) {
      var j :| 0 <= j < |docs| && docs[j] == d;
      VariantDocWellFormed(h, vs[j]);
    }
  }

  /** A product whose header can be read and that has no "variants" key
      contributes no document. */
  lemma NoVariantsNoDocs(data: seq<Json>, p: Json)
    requires p.JObj? && "variants" !in p.fields && DocHeader(p.fields).Ok?
    ensures ProductDocs(p) == Ok([])
    ensures Docs(data + [p]) == Docs(data)
  {
    GatherStep(ProductDocs, data + [p], |data|);
    assert (data + [p])[..|data|] == data;
    assert (data + [p])[..|data| + 1] == data + [p];
    if Docs(data).Ok? {
      assert Docs(data).value + [] == Docs(data).value;
    }
  }

  /** How many variants the products contribute, counting a product that
      raises as none. */
  function DocCount(data: seq<Json>): nat {
    if data == [] then 0
    else
      DocCount(data[..|data| - 1]) +
      (var p := data[|data| - 1];
       if p.JObj? && Variants(p.fields).Ok? then |Variants(p.fields).value| else 0)
  }

  /** `build_docs` succeeds exactly when no product raises. */
  lemma DocsOkIff(data: seq<Json>)
    ensures Docs(data).Ok? <==> forall i :: 0 <= i < |data| ==> ProductDocs(data[i]).Ok?
  {
    GatherOkIff(ProductDocs, data);
  }

  /** On success there is one document per variant. */
  lemma {:induction false} DocsCount(data: seq<Json>)
    requires Docs(data).Ok?
    ensures |Docs(data).value| == DocCount(data)
    decreases |data|
  {
    if data != [] {
      var init := data[..|data| - 1];
      var last := data[|data| - 1];
      DocsCount(init);
      VariantDocsShape(DocHeader(last.fields).value, Variants(last.fields).value);
    }
  }

  /** On success every document is well formed. */
  lemma {:induction false} DocsWellFormed(data: seq<Json>)
    requires Docs(data).Ok?
    ensures forall d :: d in Docs(data).value ==> DocWellFormed(d)
    decreases |data|
  {
    if data != [] {
      var init := data[..|data| - 1];
      var last := data[|data| - 1];
      DocsWellFormed(init);
      ProductDocsWellFormed(last);
      assert Docs(data).value == Docs(init).value + ProductDocs(last).value;
    }
  }

  /** The documents of a concatenation are those of the first part followed
      by those of the second. */
  lemma DocsAppend(a: seq<Json>, b: seq<Json>)
    requires Docs(a).Ok? && Docs(b).Ok?
    ensures Docs(a + b) == Ok(Docs(a).value + Docs(b).value)
  {
    GatherAppend(ProductDocs, a, b);
  }

  /** A document's text is empty exactly when all its parts are, and
      otherwise starts with its first non-empty part. */
  lemma DocTextShape(d: Doc)
    requires DocWellFormed(d)
    ensures d.text == "" <==>
      d.title == "" && d.category == "" && d.description == "" && d.ausfuehrung == "" &&
      d.bestellNr == "" && d.extra == []
    ensures d.title != "" ==> d.title <= d.text
  {
    var parts := [d.title, d.category, d.description, d.ausfuehrung, d.bestellNr, Join(" ", d.extra)];
    JoinNonEmptyShape(" | ", parts);
    JoinOfNonEmptyParts(" ", d.extra);
    assert parts[0] == d.title && parts[1] == d.category && parts[2] == d.description;
    assert parts[3] == d.ausfuehrung && parts[4] == d.bestellNr && parts[5] == Join(" ", d.extra);
    if d.title != "" {
      assert parts[0] != "";
    }
  }
}
