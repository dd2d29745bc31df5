/**
 * The question-answering endpoints' own logic: the where-filter that
 * `/qa/search` builds for the vector store, the count it reports, and the
 * limit `/qa/ask` passes on. The vector store itself is an oracle.
 */
module QaRoutes {
  import opened PyText
  import opened Json

  /** `request.limit or 5`. */
  const DefaultAskLimit: int := 5

  /** One `Equal` operand: the field must equal the value. */
  function Equal(field: string, value: string): Json {
    JObj(map["path" := JArr([JStr(field)]), "operator" := JStr("Equal"), "valueString" := JStr(value)])
  }

  /** A truthy optional string. */
  predicate Given(v: Option<string>) {
    v.Some? && v.value != []
  }

  /** The where-filter of `search_comments`: none without a brand or
      product, the bare operand for one of them, and an `And` of the brand
      then the product for both. */
  function WhereFilter(brand: Option<string>, product: Option<string>): (r: Option<Json>)
    ensures r.None? <==> !Given(brand) && !Given(product)
  {
    if !Given(brand) && !Given(product) then None
    else
      var operands := (if Given(brand) then [Equal("brand_name", brand.value)] else [])
                      + (if Given(product) then [Equal("product_name", product.value)] else []);
      if |operands| == 1 then Some(operands[0])
      else Some(JObj(map["operator" := JStr("And"), "operands" := JArr(operands)]))
  }

  /** Reading an operand back: the field and value of an `Equal`. */
  function Condition(op: Json): Option<(string, string)> {
    if op.JObj? && Get(op.fields, "operator") == JStr("Equal")
       && Get(op.fields, "path").JArr? && |Get(op.fields, "path").items| == 1
       && Get(op.fields, "path").items[0].JStr? && Get(op.fields, "valueString").JStr?
    then Some((Get(op.fields, "path").items[0].s, Get(op.fields, "valueString").s))
    else None
  }

  function Conditions(ops: seq<Json>): seq<(string, string)> {
    if ops == [] then []
    else (match Condition(ops[0]) case Some(c) => [c] case None => []) + Conditions(ops[1..])
  }

  /** Reading a filter back: the `(field, value)` conditions it requires,
      in order. */
  function FilterConditions(f: Option<Json>): seq<(string, string)> {
    match f
    case None => []
    case Some(j) =>
      if j.JObj? && Get(j.fields, "operator") == JStr("And") && Get(j.fields, "operands").JArr?
      then Conditions(Get(j.fields, "operands").items)
      else Conditions([j])
  }

  /** The conditions a caller asked for: brand first, then product. */
  function Asked(brand: Option<string>, product: Option<string>): seq<(string, string)> {
    (if Given(brand) then [("brand_name", brand.value)] else [])
    + (if Given(product) then [("product_name", product.value)] else [])
  }

  lemma EqualReadsBack(field: string, value: string)
    ensures Condition(Equal(field, value)) == Some((field, value))
  {
    var m := Equal(field, value).fields;
    assert Get(m, "operator") == JStr("Equal");
    assert Get(m, "path") == JArr([JStr(field)]);
    assert Get(m, "valueString") == JStr(value);
  }

  /** Round trip: the filter requires exactly the given fields, brand
      before product. */
  lemma WhereFilterRoundTrip(brand: Option<string>, product: Option<string>)
    ensures FilterConditions(WhereFilter(brand, product)) == Asked(brand, product)
  {
    WhereFilterShape(brand, product);
    if Given(brand) && Given(product) {
      AndReadsBack(brand.value, product.value);
    } else if Given(brand) {
      OperandReadsBack("brand_name", brand.value);
    } else if Given(product) {
      OperandReadsBack("product_name", product.value);
    }
  }

  lemma OperandReadsBack(field: string, value: string)
    ensures FilterConditions(Some(Equal(field, value))) == [(field, value)]
  {
    var op := Equal(field, value);
    EqualReadsBack(field, value);
    assert Get(op.fields, "operator") == JStr("Equal");
    assert FilterConditions(Some(op)) == Conditions([op]);
    assert [op][1..] == [];
    assert Conditions([op]) == [(field, value)] + Conditions([]);
  }

  lemma AndReadsBack(b: string, p: string)
    ensures FilterConditions(Some(JObj(map["operator" := JStr("And"),
                                           "operands" := JArr([Equal("brand_name", b), Equal("product_name", p)])])))
            == [("brand_name", b), ("product_name", p)]
  {
    var ops := [Equal("brand_name", b), Equal("product_name", p)];
    var j := JObj(map["operator" := JStr("And"), "operands" := JArr(ops)]);
    EqualReadsBack("brand_name", b);
    EqualReadsBack("product_name", p);
    assert Get(j.fields, "operator") == JStr("And");
    assert Get(j.fields, "operands") == JArr(ops);
    assert FilterConditions(Some(j)) == Conditions(ops);
    assert ops[1..] == [Equal("product_name", p)];
    assert ops[1..][1..] == [];
    assert Conditions(ops[1..]) == [("product_name", p)] + Conditions([]);
    assert Conditions(ops) == [("brand_name", b)] + Conditions(ops[1..]);
  }

  /** One filter gives the bare operand; two give an `And` of both. */
  lemma WhereFilterShape(brand: Option<string>, product: Option<string>)
    ensures Given(brand) && !Given(product) ==> WhereFilter(brand, product) == Some(Equal("brand_name", brand.value))
    ensures !Given(brand) && Given(product) ==> WhereFilter(brand, product) == Some(Equal("product_name", product.value))
    ensures Given(brand) && Given(product) ==>
              WhereFilter(brand, product)
              == Some(JObj(map["operator" := JStr("And"),
                               "operands" := JArr([Equal("brand_name", brand.value), Equal("product_name", product.value)])]))
  {
    if Given(brand) && Given(product) {
      assert [Equal("brand_name", brand.value)] + [Equal("product_name", product.value)]
             == [Equal("brand_name", brand.value), Equal("product_name", product.value)];
    }
  }

  datatype SearchResponse = SearchResponse(query: string, comments: seq<Json>, count: int)

  /** `search_comments` after the store answers with `items`. */
  function SearchComments(query: string, items: seq<Json>): (r: SearchResponse)
    ensures r.count == |r.comments| && r.comments == items && r.query == query
  {
    SearchResponse(query, items, |items|)
  }

  /** `ask_question`'s limit: a missing or zero limit becomes 5. */
  function AskLimit(limit: Option<int>): (r: int)
    ensures r != 0
    ensures limit.Some? && limit.value != 0 ==> r == limit.value
    ensures limit.None? || limit.value == 0 ==> r == DefaultAskLimit
  {
    match limit
    case Some(n) => if n != 0 then n else DefaultAskLimit
    case None => DefaultAskLimit
  }
}
