/** `flatten_products` and `_map_variant_fields` of search_catalog.py: every
    variant of every catalog product becomes one searchable row carrying the
    product's texts, the variant's fields and the derived search keys. */
module Rows {
  import opened Json
  import opened Text

  /** The dimension fields a row may carry, in the order the source visits them. */
  const DimKeys: seq<string> := ["l_mm", "b_mm", "h_mm", "staerke_mm"]

  /** What `_map_variant_fields` returns. `dims` maps each of DimKeys to the
      value found under one of its aliases; `price` is the value `_to_float`
      would convert (the conversion is not modelled). */
  datatype VariantFields = VariantFields(
    bestellNr: string,
    ausfuehrung: string,
    dims: map<string, Json>,
    price: Json,
    ve: Json)

  /** One row of `flatten_products`. `dims` holds only the dimension keys the
      row dict receives; the remaining fields are the keys `_blob`,
      `_title_norm`, `_cat_norm`, `_ausf_norm`, `_bestell_norm` and
      `_bestell_digits`. */
  datatype Row = Row(
    bestellNr: string,
    title: string,
    category: string,
    ausfuehrung: string,
    description: string,
    price: Json,
    ve: Json,
    dims: map<string, Json>,
    blob: string,
    titleNorm: string,
    catNorm: string,
    ausfNorm: string,
    bestellNorm: string,
    bestellDigits: string)

  /** `v.get(k1) or v.get(k2) or ... or last`: the value of the first alias
      whose value is truthy, and `last` when there is none. */
  function Alias(v: map<string, Json>, keys: seq<string>, last: Json): (r: Json)
    ensures forall i :: 0 <= i < |keys| && Truthy(Get(v, keys[i])) &&
                        (forall j :: 0 <= j < i ==> !Truthy(Get(v, keys[j])))
                        ==> r == Get(v, keys[i])
    ensures (forall i :: 0 <= i < |keys| ==> !Truthy(Get(v, keys[i]))) ==> r == last
  {
    if keys == [] then last
    else
      var rest := Alias(v, keys[1..], last);
      assert forall i :: 1 <= i < |keys| ==> keys[i] == keys[1..][i - 1];
      Or(Get(v, keys[0]), rest)
  }

  /** The aliases `_map_variant_fields` tries for the order number and the finish. */
  const BestellKeys: seq<string> := ["bestell_nr", "Bestell-Nr.", "Bestell-Nr"]
  const AusfKeys: seq<string> := ["ausfuehrung", "Ausführung", "Ausfuehrung"]

  /** `_map_variant_fields(v)`, apart from the float conversion of the price
      (see MapVariantFieldsText, MapVariantFieldsDims and MapVariantFieldsPrice for what each
      field holds). */
  function MapVariantFields(v: map<string, Json>): (r: VariantFields)
    ensures IsStripped(r.bestellNr)
  {
    var bestell := Alias(v, BestellKeys, JStr(""));
    var ausf := Alias(v, AusfKeys, JStr(""));
    VariantFields(
      Strip(Display(bestell)),
      Display(Or(ausf, JStr(""))),
      map[
        "l_mm" := Alias(v, ["l_mm", "L mm"], Get(v, "L")),
        "b_mm" := Alias(v, ["b_mm", "B mm"], Get(v, "B")),
        "h_mm" := Alias(v, ["h_mm", "H mm"], Get(v, "H")),
        "staerke_mm" := Alias(v, ["staerke_mm", "Stärke"], Get(v, "Staerke"))],
      Alias(v, ["price_eur", "€", "EUR"], Get(v, "Preis")),
      Or(Get(v, "ve"), Get(v, "VE")))
  }

  /** The order number is `str()` of the first truthy alias, stripped, or "";
      the finish is `str()` of the first truthy alias, or "". */
  lemma MapVariantFieldsText(v: map<string, Json>)
    ensures forall i :: 0 <= i < |BestellKeys| && Truthy(Get(v, BestellKeys[i])) &&
                        (forall j :: 0 <= j < i ==> !Truthy(Get(v, BestellKeys[j])))
                        ==> MapVariantFields(v).bestellNr == Strip(Display(Get(v, BestellKeys[i])))
    ensures (forall i :: 0 <= i < |BestellKeys| ==> !Truthy(Get(v, BestellKeys[i])))
            ==> MapVariantFields(v).bestellNr == ""
    ensures forall i :: 0 <= i < |AusfKeys| && Truthy(Get(v, AusfKeys[i])) &&
                        (forall j :: 0 <= j < i ==> !Truthy(Get(v, AusfKeys[j])))
                        ==> MapVariantFields(v).ausfuehrung == Display(Get(v, AusfKeys[i]))
    ensures (forall i :: 0 <= i < |AusfKeys| ==> !Truthy(Get(v, AusfKeys[i])))
            ==> MapVariantFields(v).ausfuehrung == ""
  {
  }

  /** Each dimension of DimKeys takes the first truthy alias, else the last
      fallback key. The clauses name the Alias chains the source writes; what
      a chain yields (its first truthy value, else the fallback) is Alias's
      own contract. */
  lemma MapVariantFieldsDims(v: map<string, Json>)
    ensures forall k :: k in MapVariantFields(v).dims <==> k in DimKeys
    ensures MapVariantFields(v).dims["l_mm"] == Alias(v, ["l_mm", "L mm"], Get(v, "L"))
    ensures MapVariantFields(v).dims["b_mm"] == Alias(v, ["b_mm", "B mm"], Get(v, "B"))
    ensures MapVariantFields(v).dims["h_mm"] == Alias(v, ["h_mm", "H mm"], Get(v, "H"))
    ensures MapVariantFields(v).dims["staerke_mm"] == Alias(v, ["staerke_mm", "Stärke"], Get(v, "Staerke"))
  {
    DimKeysDistinct();
  }

  lemma DimKeysDistinct()
    ensures "l_mm" != "b_mm" && "l_mm" != "h_mm" && "l_mm" != "staerke_mm"
    ensures "b_mm" != "h_mm" && "b_mm" != "staerke_mm" && "h_mm" != "staerke_mm"
  {
    assert "l_mm"[0] == 'l' && "b_mm"[0] == 'b' && "h_mm"[0] == 'h' && "staerke_mm"[0] == 's';
  }

  /** The price takes the first truthy alias, else `Preis`; `ve` is
      `v.get("ve") or v.get("VE")`. As for the dimensions, the meaning of the
      Alias chain is Alias's own contract. */
  lemma MapVariantFieldsPrice(v: map<string, Json>)
    ensures MapVariantFields(v).price == Alias(v, ["price_eur", "€", "EUR"], Get(v, "Preis"))
    ensures MapVariantFields(v).ve == (if Truthy(Get(v, "ve")) then Get(v, "ve") else Get(v, "VE"))
  {
  }

  /** `x not in (None, "")`: the test a dimension passes to enter the row. */
  predicate Present(x: Json) {
    x != JNull && x != JStr("")
  }

  /** The dimension entries a row receives from the mapped variant fields. */
  function KeptDims(dims: map<string, Json>): map<string, Json> {
    map k | k in DimKeys && k in dims && Present(dims[k]) :: dims[k]
  }

  /** `str(row.get(fld, ""))` */
  function DimText(dims: map<string, Json>, fld: string): string {
    if fld in dims then Display(dims[fld]) else ""
  }

  /** `field_blob`: the non-empty texts among title, category, description,
      finish and the four dimensions, space-separated. */
  function FieldBlob(title: string, category: string, description: string, ausf: string,
                     dims: map<string, Json>): string
  {
    JoinNonEmpty(" ", [title, category, description, ausf,
                       DimText(dims, "l_mm"), DimText(dims, "b_mm"),
                       DimText(dims, "h_mm"), DimText(dims, "staerke_mm")])
  }

  /** The text fields shared by all rows of one product. */
  datatype Header = Header(title: string, category: string, description: string)

  /** The row built for one variant of a product. */
  function MakeRow(h: Header, m: VariantFields): Row {
    var dims := KeptDims(m.dims);
    var bestellNorm := NormBestell(m.bestellNr);
    Row(m.bestellNr, h.title, h.category, m.ausfuehrung, h.description, m.price, m.ve, dims,
        ExpandSynonyms(FieldBlob(h.title, h.category, h.description, m.ausfuehrung, dims)),
        NormalizeText(h.title), NormalizeText(h.category), NormalizeText(m.ausfuehrung),
        bestellNorm, DigitsOnly(bestellNorm))
  }

  /** The body of the inner loop of `flatten_products`: the row dict is
      built, the dimension fields that are neither None nor "" are added one
      by one, then the derived keys are set. */
  method BuildRow(h: Header, m: VariantFields) returns (row: Row)
    ensures row == MakeRow(h, m)
  {
    var dims: map<string, Json> := map[];
    for j := 0 to |DimKeys|
      invariant dims == map k | k in DimKeys[..j] && k in m.dims && Present(m.dims[k]) :: m.dims[k]
    {
      var fld := DimKeys[j];
      assert DimKeys[..j + 1] == DimKeys[..j] + [fld];
      if Present(Get(m.dims, fld)) {
        dims := dims[fld := m.dims[fld]];
      }
    }
    assert DimKeys[..|DimKeys|] == DimKeys;
    var bestellNorm := NormBestell(m.bestellNr);
    row := Row(m.bestellNr, h.title, h.category, m.ausfuehrung, h.description, m.price, m.ve, dims,
               ExpandSynonyms(FieldBlob(h.title, h.category, h.description, m.ausfuehrung, dims)),
               NormalizeText(h.title), NormalizeText(h.category), NormalizeText(m.ausfuehrung),
               bestellNorm, DigitsOnly(bestellNorm));
  }

  /** `.strip()` on the value an `... or ""` chain produced: only a str has it. */
  function StripText(x: Json): Result<string> {
    match x
    case JStr(s) => Ok(Strip(s))
    case _ => Err(AttributeError)
  }

  /** `(p.get(k1) or p.get(k2) or "").strip()` for the aliases keys: the first
      truthy alias, stripped, or ""; a truthy value that is not a string has
      no `.strip()` and raises. */
  function ProductText(p: map<string, Json>, keys: seq<string>): (r: Result<string>)
    ensures r.Ok? ==> IsStripped(r.value)
    ensures r.Err? ==> r.error == AttributeError
    ensures forall i :: 0 <= i < |keys| && Truthy(Get(p, keys[i])) &&
                        (forall j :: 0 <= j < i ==> !Truthy(Get(p, keys[j])))
                        ==> r == (if Get(p, keys[i]).JStr? then Ok(Strip(Get(p, keys[i]).s)) else Err(AttributeError))
    ensures (forall i :: 0 <= i < |keys| ==> !Truthy(Get(p, keys[i]))) ==> r == Ok("")
  {
    StripText(Alias(p, keys, JStr("")))
  }

  /** The product's title, category and description, in the order the source
      computes them; the first one that is not a string raises. */
  function ProductHeader(p: map<string, Json>): (r: Result<Header>)
    ensures r.Ok? <==> ProductText(p, ["title", "Title"]).Ok? && ProductText(p, ["category", "Kategorie"]).Ok?
                       && ProductText(p, ["description", "Beschreibung"]).Ok?
    ensures r.Ok? ==> r.value == Header(ProductText(p, ["title", "Title"]).value,
                                        ProductText(p, ["category", "Kategorie"]).value,
                                        ProductText(p, ["description", "Beschreibung"]).value)
    ensures r.Err? ==> r.error == AttributeError
  {
    var title := ProductText(p, ["title", "Title"]);
    var category := ProductText(p, ["category", "Kategorie"]);
    var description := ProductText(p, ["description", "Beschreibung"]);
    if title.Err? then Err(title.error)
    else if category.Err? then Err(category.error)
    else if description.Err? then Err(description.error)
    else Ok(Header(title.value, category.value, description.value))
  }

  /** The variants a product contributes: `items` when it is a list, otherwise
      `variants or []`. Iterating a truthy non-list raises: a str or dict
      yields a str, which has no `.get`; an int or bool is not iterable. */
  function VariantList(p: map<string, Json>): (r: Result<seq<Json>>)
    ensures Get(p, "items").JArr? ==> r == Ok(Get(p, "items").items)
    ensures !Get(p, "items").JArr? && Get(p, "variants").JArr? ==> r == Ok(Get(p, "variants").items)
    ensures !Get(p, "items").JArr? && !Truthy(Get(p, "variants")) ==> r == Ok([])
    ensures r.Err? <==> !Get(p, "items").JArr? && Truthy(Get(p, "variants")) && !Get(p, "variants").JArr?
  {
    var items := Get(p, "items");
    if items.JArr? then Ok(items.items)
    else
      match Or(Get(p, "variants"), JArr([]))
      case JArr(vs) => Ok(vs)
      case JStr(_) => Err(AttributeError)
      case JObj(_) => Err(AttributeError)
      case _ => Err(TypeError)
  }

  /** The row of one variant; a variant that is not a dict has no `.get` and raises. */
  function VariantRow(h: Header, v: Json): Result<seq<Row>> {
    if v.JObj? then Ok([MakeRow(h, MapVariantFields(v.fields))]) else Err(AttributeError)
  }

  /** VariantRow for the variants of the product with header h. */
  function RowOf(h: Header): Json -> Result<seq<Row>> {
    v => VariantRow(h, v)
  }

  /** The rows of the variants vs, in variant order, or the exception of the
      first variant that raises. */
  function VariantRows(h: Header, vs: seq<Json>): Result<seq<Row>> {
    Gather(RowOf(h), vs)
  }

  /** The rows of one product; a product that is not a dict raises. */
  function ProductRows(p: Json): Result<seq<Row>> {
    match p
    case JObj(fields) =>
      (match ProductHeader(fields)
       case Err(e) => Err(e)
       case Ok(h) =>
         match VariantList(fields)
         case Err(e) => Err(e)
         case Ok(vs) => VariantRows(h, vs))
    case _ => Err(AttributeError)
  }

  /** Items gathered so far, followed by the outcome of one more input:
      the first exception wins. */
  function Then<T>(acc: Result<seq<T>>, more: Result<seq<T>>): Result<seq<T>> {
    if acc.Err? then acc
    else if more.Err? then Err(more.error)
    else Ok(acc.value + more.value)
  }

  /** The outcomes of f on the items of data, concatenated in order, or the
      exception of the first item that raises. */
  function Gather<T>(f: Json -> Result<seq<T>>, data: seq<Json>): Result<seq<T>> {
    if data == [] then Ok([])
    else Then(Gather(f, data[..|data| - 1]), f(data[|data| - 1]))
  }

  /** `flatten_products(data)`: the rows of all products in order, or the
      exception of the first product that raises. */
  function Flatten(data: seq<Json>): Result<seq<Row>> {
    Gather(ProductRows, data)
  }

  lemma GatherStep<T>(f: Json -> Result<seq<T>>, data: seq<Json>, i: nat)
    requires i < |data|
    ensures Gather(f, data[..i + 1]) == Then(Gather(f, data[..i]), f(data[i]))
  {
    assert data[..i + 1][..i] == data[..i];
  }

  /** Once a prefix raised, the whole list raises the same exception. */
  lemma {:induction false} GatherErrSticks<T>(f: Json -> Result<seq<T>>, data: seq<Json>, i: nat, e: PyError)
    requires i <= |data| && Gather(f, data[..i]) == Err(e)
    ensures Gather(f, data) == Err(e)
    decreases |data| - i
  {
    if i < |data| {
      GatherStep(f, data, i);
      GatherErrSticks(f, data, i + 1, e);
    } else {
      assert data[..i] == data;
    }
  }

  /** Gathering succeeds exactly when no item raises. */
  lemma {:induction false} GatherOkIff<T>(f: Json -> Result<seq<T>>, data: seq<Json>)
    ensures Gather(f, data).Ok? <==> forall i :: 0 <= i < |data| ==> f(data[i]).Ok?
    decreases |data|
  {
    if data != [] {
      var init := data[..|data| - 1];
      GatherOkIff(f, init);
      assert forall i :: 0 <= i < |init| ==> init[i] == data[i];
    }
  }

  /** Gathering works item by item: the outcome for a concatenation is the
      outcome for the first part followed by that for the second. */
  lemma {:induction false} GatherAppend<T>(f: Json -> Result<seq<T>>, a: seq<Json>, b: seq<Json>)
    requires Gather(f, a).Ok? && Gather(f, b).Ok?
    ensures Gather(f, a + b) == Ok(Gather(f, a).value + Gather(f, b).value)
    decreases |b|
  {
    if b != [] {
      var init := b[..|b| - 1];
      var last := b[|b| - 1];
      GatherAppend(f, a, init);
      assert (a + b)[..|a + b| - 1] == a + init;
      assert (a + b)[|a + b| - 1] == last;
      var more := f(last);
      assert Gather(f, a).value + Gather(f, init).value + more.value
          == Gather(f, a).value + (Gather(f, init).value + more.value);
    } else {
      assert Gather(f, b) == Ok([]);
      assert a + b == a;
      assert Gather(f, a).value + [] == Gather(f, a).value;
    }
  }

  /** When every item yields exactly one output, gathering yields one
      output per item, in item order. */
  lemma {:induction false} GatherSingles<T>(f: Json -> Result<seq<T>>, data: seq<Json>)
    requires Gather(f, data).Ok?
    requires forall i :: 0 <= i < |data| && f(data[i]).Ok? ==> |f(data[i]).value| == 1
    ensures |Gather(f, data).value| == |data|
    ensures forall i :: 0 <= i < |data| ==> f(data[i]).Ok? && Gather(f, data).value[i] == f(data[i]).value[0]
    decreases |data|
  {
    if data != [] {
      var init := data[..|data| - 1];
      assert forall i :: 0 <= i < |init| ==> init[i] == data[i];
      GatherSingles(f, init);
    }
  }

  /** One pass of the outer loop of `flatten_products`: the product's texts,
      its variant list, and the inner loop over the variants. */
  method FlattenProduct(prod: Json) returns (result: Result<seq<Row>>)
    ensures result == ProductRows(prod)
  {
    if !prod.JObj? {
      return Err(AttributeError);
    }
    var header := ProductHeader(prod.fields);
    if header.Err? {
      return Err(header.error);
    }
    var variants := VariantList(prod.fields);
    if variants.Err? {
      return Err(variants.error);
    }
    var vs := variants.value;
    var rows: seq<Row> := [];
    for j := 0 to |vs|
      invariant VariantRows(header.value, vs[..j]) == Ok(rows)
    {
      GatherStep(RowOf(header.value), vs, j);
      var v := vs[j];
      if !v.JObj? {
        GatherErrSticks(RowOf(header.value), vs, j + 1, AttributeError);
        return Err(AttributeError);
      }
      var m := MapVariantFields(v.fields);
      var row := BuildRow(header.value, m);
      rows := rows + [row];
    }
    assert vs[..|vs|] == vs;
    return Ok(rows);
  }

  /** The nested loops of `flatten_products`. */
  method FlattenProducts(data: seq<Json>) returns (result: Result<seq<Row>>)
    ensures result == Flatten(data)
  {
    var rows: seq<Row> := [];
    for i := 0 to |data|
      invariant Flatten(data[..i]) == Ok(rows)
    {
      GatherStep(ProductRows, data, i);
      var more := FlattenProduct(data[i]);
      if more.Err? {
        GatherErrSticks(ProductRows, data, i + 1, more.error);
        return Err(more.error);
      }
      rows := rows + more.value;
    }
    assert data[..|data|] == data;
    return Ok(rows);
  }

  // ----- properties -----

  /** The invariant every row satisfies: the texts are stripped, the derived
      keys are computed from the fields they are named after, and a dimension
      is present only with a value other than None and "". */
  predicate WellFormed(r: Row) {
    && IsStripped(r.bestellNr) && IsStripped(r.title)
    && IsStripped(r.category) && IsStripped(r.description)
    && r.titleNorm == NormalizeText(r.title)
    && r.catNorm == NormalizeText(r.category)
    && r.ausfNorm == NormalizeText(r.ausfuehrung)
    && r.bestellNorm == NormBestell(r.bestellNr)
    && r.bestellDigits == DigitsOnly(NormBestell(r.bestellNr))
    && (forall k :: k in r.dims ==> k in DimKeys && Present(r.dims[k]))
    && r.blob == ExpandSynonyms(FieldBlob(r.title, r.category, r.description, r.ausfuehrung, r.dims))
  }

  predicate HeaderStripped(h: Header) {
    IsStripped(h.title) && IsStripped(h.category) && IsStripped(h.description)
  }

  /** The rows of a product, one per variant: row j comes from variant j. */
  lemma VariantRowsShape(h: Header, vs: seq<Json>)
    requires VariantRows(h, vs).Ok?
    ensures |VariantRows(h, vs).value| == |vs|
    ensures forall j :: 0 <= j < |vs| ==>
      vs[j].JObj? && VariantRows(h, vs).value[j] == MakeRow(h, MapVariantFields(vs[j].fields))
  {
    GatherSingles(RowOf(h), vs);
  }

  lemma MakeRowWellFormed(h: Header, m: VariantFields)
    requires HeaderStripped(h) && IsStripped(m.bestellNr)
    ensures WellFormed(MakeRow(h, m))
  {
  }

  lemma ProductHeaderStripped(p: map<string, Json>)
    requires ProductHeader(p).Ok?
    ensures HeaderStripped(ProductHeader(p).value)
  {
  }

  /** Every row of a product is well formed. */
  lemma ProductRowsWellFormed(p: Json)
    requires ProductRows(p).Ok?
    ensures forall r :: r in ProductRows(p).value ==> WellFormed(r)
  {
    var fields := p.fields;
    var h := ProductHeader(fields).value;
    ProductHeaderStripped(fields);
    var vs := VariantList(fields).value;
    VariantRowsShape(h, vs);
    var rows := ProductRows(p).value;
    forall r | r in rows ensures WellFormed(r) {
      var j :| 0 <= j < |rows| && rows[j] == r;
      MakeRowWellFormed(h, MapVariantFields(vs[j].fields));
    }
  }

  /** How many variants the products contribute, counting a product that
      raises as none. */
  function VariantCount(data: seq<Json>): nat {
    if data == [] then 0
    else
      VariantCount(data[..|data| - 1]) +
      (var p := data[|data| - 1];
       if p.JObj? && VariantList(p.fields).Ok? then |VariantList(p.fields).value| else 0)
  }

  /** `flatten_products` succeeds exactly when no product raises. */
  lemma FlattenOkIff(data: seq<Json>)
    ensures Flatten(data).Ok? <==> forall i :: 0 <= i < |data| ==> ProductRows(data[i]).Ok?
  {
    GatherOkIff(ProductRows, data);
  }

  /** On success there is one row per variant. */
  lemma {:induction false} FlattenCount(data: seq<Json>)
    requires Flatten(data).Ok?
    ensures |Flatten(data).value| == VariantCount(data)
    decreases |data|
  {
    if data != [] {
      var init := data[..|data| - 1];
      var last := data[|data| - 1];
      FlattenCount(init);
      VariantRowsShape(ProductHeader(last.fields).value, VariantList(last.fields).value);
    }
  }

  /** On success every row is well formed. */
  lemma {:induction false} FlattenWellFormed(data: seq<Json>)
    requires Flatten(data).Ok?
    ensures forall r :: r in Flatten(data).value ==> WellFormed(r)
    decreases |data|
  {
    if data != [] {
      var init := data[..|data| - 1];
      var last := data[|data| - 1];
      FlattenWellFormed(init);
      ProductRowsWellFormed(last);
      var rows := Flatten(init).value;
      var more := ProductRows(last).value;
      assert Flatten(data).value == rows + more;
    }
  }

  /** Flattening works product by product: the rows of a concatenation are the
      rows of the first part followed by those of the second. */
  lemma FlattenAppend(a: seq<Json>, b: seq<Json>)
    requires Flatten(a).Ok? && Flatten(b).Ok?
    ensures Flatten(a + b) == Ok(Flatten(a).value + Flatten(b).value)
  {
    GatherAppend(ProductRows, a, b);
  }
}
