/**
 * The `/ingest` and `/ingest/start` endpoints: resolve the product list from
 * an optional JSON body, then run one ingestion. The body is `None` when
 * it is absent or is not valid JSON (`request.json()` raises and the
 * defaults are kept).
 */
module IngestionRoutes {
  import opened PyText
  import opened Json
  import Database
  import Ingestion

  /** The default of `DEFAULT_PRODUCTS`. */
  const DefaultProducts: seq<string> := ["iPhone16"]

  const Completed: string := "completed"

  datatype IngestResponse = IngestResponse(status: string, products: seq<string>)

  /** `str(v)`. Strings, integers, booleans and `None` are rendered here;
      the rendering of floats, lists and dicts is the parameter `repr`. */
  function Str(v: Json, repr: Json -> string): string {
    match ScalarStr(v)
    case Some(t) => t
    case None => repr(v)
  }

  function Strs(items: seq<Json>, repr: Json -> string): (r: seq<string>)
    ensures |r| == |items|
    ensures forall i :: 0 <= i < |items| ==> r[i] == Str(items[i], repr)
  {
    if items == [] then [] else [Str(items[0], repr)] + Strs(items[1..], repr)
  }

  /** The products a `products` (or `sources`) value gives: a list is
      stringified, stripped and cleared of blanks; anything else, or a list
      with nothing left, gives the defaults. */
  function ProductsFrom(maybe: Json, repr: Json -> string): (r: seq<string>)
    ensures r != []
    ensures forall i :: 0 <= i < |r| ==> r[i] != [] && Strip(r[i]) == r[i]
  {
    var cleaned := if maybe.JArr? then Trimmed(Strs(maybe.items, repr)) else [];
    if cleaned != [] then cleaned else DefaultProducts
  }

  /** Product resolution in `ingest_sources`. */
  function IngestProducts(body: Option<Json>, repr: Json -> string): (r: seq<string>)
    ensures r != []
    ensures forall i :: 0 <= i < |r| ==> r[i] != [] && Strip(r[i]) == r[i]
  {
    match body
    case Some(JObj(data)) => ProductsFrom(Get(data, "products"), repr)
    case _ => DefaultProducts
  }

  /** Product resolution in `ingest_sources_start`: `products`, or `sources`
      when `products` is falsy. */
  function StartProducts(body: Option<Json>, repr: Json -> string): (r: seq<string>)
    ensures r != []
    ensures forall i :: 0 <= i < |r| ==> r[i] != [] && Strip(r[i]) == r[i]
  {
    match body
    case Some(JObj(data)) => ProductsFrom(Or(Get(data, "products"), Get(data, "sources")), repr)
    case _ => DefaultProducts
  }

  /** Without a body, with a body that is not a dict, or with a `products`
      value that is not a list, the defaults are used. */
  lemma DefaultsWithoutList(body: Option<Json>, repr: Json -> string)
    requires body.None? || !body.value.JObj? || !Get(body.value.fields, "products").JArr?
    ensures IngestProducts(body, repr) == DefaultProducts
  {
  }

  /** A list whose elements are all blank once stringified and stripped
      falls back to the defaults. */
  lemma DefaultsForBlankList(items: seq<Json>, repr: Json -> string)
    requires forall i :: 0 <= i < |items| ==> Strip(Str(items[i], repr)) == []
    ensures IngestProducts(Some(JObj(map["products" := JArr(items)])), repr) == DefaultProducts
  {
    TrimmedMembers(Strs(items, repr));
    if Trimmed(Strs(items, repr)) != [] {
      var t := Trimmed(Strs(items, repr))[0];
      assert t in Trimmed(Strs(items, repr));
    }
  }

  function JStrs(xs: seq<string>): (r: seq<Json>)
    ensures |r| == |xs|
    ensures forall i :: 0 <= i < |xs| ==> r[i] == JStr(xs[i])
  {
    if xs == [] then [] else [JStr(xs[0])] + JStrs(xs[1..])
  }

  lemma {:induction false} StrsOfJStrs(xs: seq<string>, repr: Json -> string)
    ensures Strs(JStrs(xs), repr) == xs
  {
    forall i | 0 <= i < |xs|
      ensures Strs(JStrs(xs), repr)[i] == xs[i]
    {
      assert ScalarStr(JStr(xs[i])) == Some(xs[i]);
    }
  }

  /** Round trip: a list of product names that are already stripped and
      not blank comes back unchanged, in order. */
  lemma {:induction false} CleanListRoundTrip(xs: seq<string>, repr: Json -> string)
    requires xs != []
    requires forall i :: 0 <= i < |xs| ==> xs[i] != [] && Strip(xs[i]) == xs[i]
    ensures IngestProducts(Some(JObj(map["products" := JArr(JStrs(xs))])), repr) == xs
    ensures StartProducts(Some(JObj(map["products" := JArr(JStrs(xs))])), repr) == xs
  {
    var data := map["products" := JArr(JStrs(xs))];
    assert Get(data, "products") == JArr(JStrs(xs));
    assert Or(Get(data, "products"), Get(data, "sources")) == JArr(JStrs(xs));
    StrsOfJStrs(xs, repr);
    TrimmedOfClean(xs);
    assert ProductsFrom(JArr(JStrs(xs)), repr) == xs;
  }

  /** Every resolved product is the stripped form of a listed element,
      unless the defaults were used. */
  lemma ProductsFromList(items: seq<Json>, repr: Json -> string)
    ensures var r := ProductsFrom(JArr(items), repr);
            r == DefaultProducts
            || forall t :: t in r ==> exists i :: 0 <= i < |items| && Strip(Str(items[i], repr)) == t
  {
    TrimmedMembers(Strs(items, repr));
  }

  /** `/start` reads `products` whenever it is truthy, as `/ingest` does, and
      otherwise reads `sources` as if it were `products`. */
  lemma StartReadsSources(data: Dict, repr: Json -> string)
    ensures Truthy(Get(data, "products")) ==>
              StartProducts(Some(JObj(data)), repr) == IngestProducts(Some(JObj(data)), repr)
    ensures !Truthy(Get(data, "products")) ==>
              StartProducts(Some(JObj(data)), repr)
              == IngestProducts(Some(JObj(map["products" := Get(data, "sources")])), repr)
  {
  }

  /** `ingest_sources`: resolve the products, run one ingestion, and answer
      `completed` with the resolved list. */
  function IngestSources(s: Database.Store, body: Option<Json>, repr: Json -> string,
                         search: Ingestion.Search, cap: int, limit: int): (r: (Database.Store, IngestResponse))
    ensures r.1.status == Completed && r.1.products != []
    ensures r.1.products == IngestProducts(body, repr)
    ensures r.0 == Ingestion.RunOnce(s, r.1.products, search, cap, limit).0
  {
    var products := IngestProducts(body, repr);
    (Ingestion.RunOnce(s, products, search, cap, limit).0, IngestResponse(Completed, products))
  }

  /** `ingest_sources_start`. */
  function IngestSourcesStart(s: Database.Store, body: Option<Json>, repr: Json -> string,
                              search: Ingestion.Search, cap: int, limit: int): (r: (Database.Store, IngestResponse))
    ensures r.1.status == Completed && r.1.products != []
    ensures r.1.products == StartProducts(body, repr)
    ensures r.0 == Ingestion.RunOnce(s, r.1.products, search, cap, limit).0
  {
    var products := StartProducts(body, repr);
    (Ingestion.RunOnce(s, products, search, cap, limit).0, IngestResponse(Completed, products))
  }

  /** After `/ingest`, the comment table holds only rows of the products
      the response lists. */
  lemma IngestAnswersWhatRan(s: Database.Store, body: Option<Json>, repr: Json -> string,
                             search: Ingestion.Search, cap: int, limit: int)
    requires cap >= 0 && Database.IdsAssigned(s)
    requires !Database.Fails(s, Database.MainTable, Database.Delete)
    requires !Database.Fails(s, Database.MainTable, Database.Insert)
    ensures var (s', response) := IngestSources(s, body, repr, search, cap, limit);
            Ingestion.AllFrom(Database.Rows(s', Database.MainTable), response.products)
  {
    Ingestion.RunOnceReplacesTable(s, IngestProducts(body, repr), search, cap, limit);
  }
}
