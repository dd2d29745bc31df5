/**
 * `IngestionService`: a run clears the comment table, then for each product
 * clears that product's rows, picks the subreddits to read from the ranked
 * source channels, fetches the comment rows from each, and inserts them one
 * by one. The Reddit search is the oracle `search` of the Reddit model; the
 * database is the store of the Database model.
 */
module Ingestion {
  import opened PyText
  import opened Json
  import Database
  import Reddit

  type Search = (string, string, Reddit.Sort) -> Reddit.Listing<Reddit.Submission>

  /** The fallback subreddit when no source channel is known. */
  const FallbackSubreddit: string := "all"

  /** The subreddits a product is read from: the ranked top channels, or
      else the single top channel, or else `all`. */
  function Subreddits(s: Database.Store, limit: int): (r: seq<string>)
    ensures r != []
    ensures Database.GetTopRedditChannels(s, limit) != [] ==> r == Database.GetTopRedditChannels(s, limit)
    ensures Database.GetTopRedditChannels(s, limit) == [] ==>
              r == [match Database.GetTopRedditChannel(s) case Some(c) => c case None => FallbackSubreddit]
  {
    var top := Database.GetTopRedditChannels(s, limit);
    if top != [] then top
    else [match Database.GetTopRedditChannel(s) case Some(c) => c case None => FallbackSubreddit]
  }

  /** The subreddits are non-empty names, distinct, and at most
      `max(1, limit)` of them. */
  lemma SubredditsSpec(s: Database.Store, limit: int)
    ensures var r := Subreddits(s, limit);
            && |r| <= (if limit > 1 then limit else 1)
            && (forall i :: 0 <= i < |r| ==> r[i] != [])
            && (forall i, j :: 0 <= i < j < |r| ==> r[i] != r[j])
  {
    Database.TopChannelsSpec(s, limit);
  }

  /** The rows fetched for a product from each subreddit, in order; each
      names the product and has no `id` yet. */
  function Fetch(product: string, subs: seq<string>, search: Search, cap: int): (r: seq<Dict>)
    ensures cap >= 0 ==> forall i :: 0 <= i < |r| ==> FetchedFor(product, r[i])
  {
    if subs == [] then []
    else
      var first := Reddit.GetCommentsForProduct(product, Some(subs[0]), search, cap);
      RowsFetchedFor(product, first);
      first + Fetch(product, subs[1..], search, cap)
  }

  /** A fetched row names its product and carries no `id`. */
  predicate FetchedFor(product: string, r: Dict) {
    "product_name" in r && r["product_name"] == JStr(product) && "id" !in r
  }

  /** A row of the product from any thread names the product and has no
      `id`. */
  lemma RowsFetchedFor(product: string, rows: seq<Dict>)
    ensures (forall i :: 0 <= i < |rows| ==> Reddit.ProductRow(product, rows[i])) ==>
            forall i :: 0 <= i < |rows| ==> FetchedFor(product, rows[i])
  {
    if forall i :: 0 <= i < |rows| ==> Reddit.ProductRow(product, rows[i]) {
      forall i | 0 <= i < |rows| ensures FetchedFor(product, rows[i]) {
        var title :| Reddit.RowOf(product, title, rows[i]);
      }
    }
  }

  /** The rows as `insert_comment` completes them. */
  function FillAll(rows: seq<Dict>): (r: seq<Dict>)
    ensures |r| == |rows|
    ensures forall i :: 0 <= i < |rows| ==> r[i] == Database.FillDefaults(rows[i])
  {
    if rows == [] then [] else [Database.FillDefaults(rows[0])] + FillAll(rows[1..])
  }

  /** The insert loop: the store after it and the success and failure counts. */
  function InsertAll(s: Database.Store, rows: seq<Dict>): (r: (Database.Store, nat, nat))
    ensures r.1 + r.2 == |rows|
    decreases |rows|
  {
    if rows == [] then (s, 0, 0)
    else
      var step := Database.InsertComment(s, rows[0]);
      var rest := InsertAll(step.0, rows[1..]);
      if step.1 then (rest.0, rest.1 + 1, rest.2) else (rest.0, rest.1, rest.2 + 1)
  }

  /** When inserts fail, each row counts as a failure and nothing changes. */
  lemma {:induction false} InsertAllFails(s: Database.Store, rows: seq<Dict>)
    requires Database.Fails(s, Database.MainTable, Database.Insert)
    decreases |rows|
    ensures InsertAll(s, rows) == (s, 0, |rows|)
  {
    if rows != [] {
      InsertAllFails(s, rows[1..]);
    }
  }

  /** The insert loop touches only the comment table. */
  lemma {:induction false} InsertAllFrame(s: Database.Store, rows: seq<Dict>)
    decreases |rows|
    ensures var s' := InsertAll(s, rows).0;
            && (forall t :: t != Database.MainTable ==> Database.Rows(s', t) == Database.Rows(s, t))
            && s'.faults == s.faults && s'.tables.Keys == s.tables.Keys && s'.reportsCount == s.reportsCount
  {
    if rows != [] {
      Database.InsertCommentSpec(s, rows[0]);
      InsertAllFrame(Database.InsertComment(s, rows[0]).0, rows[1..]);
    }
  }

  lemma WithIdsOfFilled(rows: seq<Dict>, n: nat)
    requires rows != []
    ensures Database.WithIds(FillAll(rows), n)
            == [Database.FillDefaults(rows[0])["id" := JInt(n)]] + Database.WithIds(FillAll(rows[1..]), n + 1)
  {
    assert FillAll(rows)[1..] == FillAll(rows[1..]);
  }

  /** One insert that succeeds. */
  lemma {:induction false} InsertOne(s: Database.Store, row: Dict)
    requires !Database.Fails(s, Database.MainTable, Database.Insert)
    ensures var s1 := Database.InsertComment(s, row).0;
            && !Database.Fails(s1, Database.MainTable, Database.Insert)
            && s1.nextId == s.nextId + 1
            && Database.Rows(s1, Database.MainTable)
               == Database.Rows(s, Database.MainTable) + [Database.FillDefaults(row)["id" := JInt(s.nextId)]]
  {
    Database.InsertCommentSpec(s, row);
  }

  /** One step of the loop when inserts succeed. */
  lemma {:induction false} InsertAllStep(s: Database.Store, rows: seq<Dict>)
    requires rows != [] && !Database.Fails(s, Database.MainTable, Database.Insert)
    ensures var rest := InsertAll(Database.InsertComment(s, rows[0]).0, rows[1..]);
            InsertAll(s, rows) == (rest.0, rest.1 + 1, rest.2)
  {
  }

  /** When inserts succeed, every row counts as inserted. */
  lemma {:induction false} InsertAllCounts(s: Database.Store, rows: seq<Dict>)
    requires !Database.Fails(s, Database.MainTable, Database.Insert)
    decreases |rows|
    ensures InsertAll(s, rows).1 == |rows| && InsertAll(s, rows).2 == 0
    ensures InsertAll(s, rows).0.nextId == s.nextId + |rows|
  {
    if rows != [] {
      InsertOne(s, rows[0]);
      InsertAllStep(s, rows);
      InsertAllCounts(Database.InsertComment(s, rows[0]).0, rows[1..]);
    }
  }

  /** When inserts succeed, the completed rows are appended with
      consecutive ids. */
  lemma {:induction false} InsertAllAppends(s: Database.Store, rows: seq<Dict>)
    requires !Database.Fails(s, Database.MainTable, Database.Insert)
    decreases |rows|
    ensures Database.Rows(InsertAll(s, rows).0, Database.MainTable)
            == Database.Rows(s, Database.MainTable) + Database.WithIds(FillAll(rows), s.nextId)
  {
    if rows == [] {
      assert Database.WithIds(FillAll(rows), s.nextId) == [];
    } else {
      var s1 := Database.InsertComment(s, rows[0]).0;
      var before := Database.Rows(s, Database.MainTable);
      var head := [Database.FillDefaults(rows[0])["id" := JInt(s.nextId)]];
      var tail := Database.WithIds(FillAll(rows[1..]), s.nextId + 1);
      assert Database.Rows(s1, Database.MainTable) == before + head && s1.nextId == s.nextId + 1
                && !Database.Fails(s1, Database.MainTable, Database.Insert) by {
        InsertOne(s, rows[0]);
      }
      assert InsertAll(s, rows).0 == InsertAll(s1, rows[1..]).0 by {
        InsertAllStep(s, rows);
      }
      assert Database.Rows(InsertAll(s1, rows[1..]).0, Database.MainTable)
                == Database.Rows(s1, Database.MainTable) + tail by {
        InsertOne(s, rows[0]);
        InsertAllAppends(s1, rows[1..]);
      }
      assert Database.WithIds(FillAll(rows), s.nextId) == head + tail by {
        WithIdsOfFilled(rows, s.nextId);
      }
      AppendAssoc(before, head, tail);
    }
  }

  /** Only the comment table may differ between the two stores; the
      table names and the failing operations are the same. */
  ghost predicate Untouched(s: Database.Store, s': Database.Store) {
    && (forall t :: t != Database.MainTable ==> Database.Rows(s', t) == Database.Rows(s, t))
    && s'.faults == s.faults && s'.tables.Keys == s.tables.Keys
  }

  /** What one product's ingestion did. */
  datatype Report = Report(deleted: nat, subreddits: seq<string>, fetched: nat, inserted: nat, failed: nat)

  /** `_ingest_reddit_product`. */
  function IngestProduct(s: Database.Store, product: string, search: Search, cap: int, limit: int): (r: (Database.Store, Report))
    ensures r.1.inserted + r.1.failed == r.1.fetched
    ensures Untouched(s, r.0)
  {
    var (s1, deleted) := Database.DeleteCommentsForProduct(s, product);
    var subs := Subreddits(s1, limit);
    var fetched := Fetch(product, subs, search, cap);
    InsertAllFrame(s1, fetched);
    var (s2, inserted, failed) := InsertAll(s1, fetched);
    (s2, Report(deleted, subs, |fetched|, inserted, failed))
  }

  /** The insert counts: all rows when inserts succeed, none when they fail. */
  lemma IngestCounts(s: Database.Store, product: string, search: Search, cap: int, limit: int)
    ensures var report := IngestProduct(s, product, search, cap, limit).1;
            && (Database.Fails(s, Database.MainTable, Database.Insert) ==> report.inserted == 0 && report.failed == report.fetched)
            && (!Database.Fails(s, Database.MainTable, Database.Insert) ==> report.inserted == report.fetched && report.failed == 0)
  {
    var s1 := Database.DeleteCommentsForProduct(s, product).0;
    var fetched := Fetch(product, Subreddits(s1, limit), search, cap);
    if Database.Fails(s, Database.MainTable, Database.Insert) {
      InsertAllFails(s1, fetched);
    } else {
      InsertAllCounts(s1, fetched);
    }
  }

  function ProductFilter(product: string): Database.Filter {
    Database.Eq("product_name", JStr(product))
  }

  /** The completed, numbered rows of a product all name that product. */
  lemma FilledRowsMatch(product: string, rows: seq<Dict>, n: nat)
    requires forall i :: 0 <= i < |rows| ==> FetchedFor(product, rows[i])
    ensures forall i :: 0 <= i < |rows| ==>
              Database.Matches(Database.WithIds(FillAll(rows), n)[i], ProductFilter(product))
  {
  }

  /** With no faults on the comment table, ingesting a product replaces its
      rows by the completed rows fetched in this run, numbered from the next
      id, and leaves every other product's rows as they were. */
  lemma IngestReplacesProductRows(s: Database.Store, product: string, search: Search, cap: int, limit: int)
    requires cap >= 0
    requires !Database.Fails(s, Database.MainTable, Database.Delete) && !Database.Fails(s, Database.MainTable, Database.Insert)
    ensures var (s', report) := IngestProduct(s, product, search, cap, limit);
            var f := ProductFilter(product);
            var added := Database.WithIds(FillAll(Fetch(product, report.subreddits, search, cap)), s.nextId);
            && Database.Rows(s', Database.MainTable) == Database.WhereNot(Database.Rows(s, Database.MainTable), f) + added
            && Database.Where(Database.Rows(s', Database.MainTable), f) == added
            && Database.WhereNot(Database.Rows(s', Database.MainTable), f) == Database.WhereNot(Database.Rows(s, Database.MainTable), f)
            && (forall t :: t != Database.MainTable ==> Database.Rows(s', t) == Database.Rows(s, t))
            && s'.faults == s.faults && s'.tables.Keys == s.tables.Keys
  {
    var f := ProductFilter(product);
    var s1 := Database.DeleteCommentsForProduct(s, product).0;
    var kept := Database.WhereNot(Database.Rows(s, Database.MainTable), f);
    assert Database.Rows(s1, Database.MainTable) == kept;
    var subs := Subreddits(s1, limit);
    var fetched := Fetch(product, subs, search, cap);
    InsertAllAppends(s1, fetched);
    InsertAllFrame(s1, fetched);
    var added := Database.WithIds(FillAll(fetched), s.nextId);
    FilledRowsMatch(product, fetched, s.nextId);
    Database.WhereAll(added, f);
    Database.WhereNotSelects(Database.Rows(s, Database.MainTable), f);
    Database.WhereAppend(kept, added, f);
    Database.WhereNotAppend(kept, added, f);
  }

  /** `_ingest_reddit`: the products in order, one report each. */
  function IngestAll(s: Database.Store, products: seq<string>, search: Search, cap: int, limit: int): (r: (Database.Store, seq<Report>))
    ensures |r.1| == |products|
    ensures forall i :: 0 <= i < |r.1| ==> r.1[i].inserted + r.1[i].failed == r.1[i].fetched
    ensures Untouched(s, r.0)
    decreases |products|
  {
    if products == [] then (s, [])
    else
      var first := IngestProduct(s, products[0], search, cap, limit);
      var rest := IngestAll(first.0, products[1..], search, cap, limit);
      (rest.0, [first.1] + rest.1)
  }

  /** `run_once`: clear the comment table, then ingest each product. */
  function RunOnce(s: Database.Store, products: seq<string>, search: Search, cap: int, limit: int): (r: (Database.Store, seq<Report>))
    ensures |r.1| == |products|
    ensures forall i :: 0 <= i < |r.1| ==> r.1[i].inserted + r.1[i].failed == r.1[i].fetched
    ensures Untouched(s, r.0)
  {
    IngestAll(Database.DeleteAllComments(s).0, products, search, cap, limit)
  }

  /** Every comment row names one of the products. */
  predicate AllFrom(rows: seq<Dict>, products: seq<string>) {
    forall i :: 0 <= i < |rows| ==>
      "product_name" in rows[i] && rows[i]["product_name"].JStr? && rows[i]["product_name"].s in products
  }

  lemma {:induction false} IngestKeepsFrom(s: Database.Store, product: string, search: Search, cap: int, limit: int,
                                           products: seq<string>)
    requires cap >= 0 && product in products
    requires !Database.Fails(s, Database.MainTable, Database.Delete) && !Database.Fails(s, Database.MainTable, Database.Insert)
    requires AllFrom(Database.Rows(s, Database.MainTable), products)
    ensures AllFrom(Database.Rows(IngestProduct(s, product, search, cap, limit).0, Database.MainTable), products)
  {
    var report := IngestProduct(s, product, search, cap, limit).1;
    var fetched := Fetch(product, report.subreddits, search, cap);
    IngestReplacesProductRows(s, product, search, cap, limit);
    KeptFrom(Database.Rows(s, Database.MainTable), ProductFilter(product), products);
    AddedFrom(product, fetched, s.nextId, products);
    AllFromAppend(Database.WhereNot(Database.Rows(s, Database.MainTable), ProductFilter(product)),
                  Database.WithIds(FillAll(fetched), s.nextId), products);
  }

  lemma AllFromAppend(a: seq<Dict>, b: seq<Dict>, products: seq<string>)
    requires AllFrom(a, products) && AllFrom(b, products)
    ensures AllFrom(a + b, products)
  {
    forall i | 0 <= i < |a + b|
      ensures "product_name" in (a + b)[i] && (a + b)[i]["product_name"].JStr? && (a + b)[i]["product_name"].s in products
    {
      if i >= |a| {
        assert (a + b)[i] == b[i - |a|];
      }
    }
  }

  lemma KeptFrom(rows: seq<Dict>, f: Database.Filter, products: seq<string>)
    requires AllFrom(rows, products)
    ensures AllFrom(Database.WhereNot(rows, f), products)
  {
    Database.WhereMembers(rows, f);
    var kept: seq<Dict> := Database.WhereNot(rows, f);
    forall i | 0 <= i < |kept|
      ensures "product_name" in kept[i] && kept[i]["product_name"].JStr? && kept[i]["product_name"].s in products
    {
      assert kept[i] in rows;
    }
  }

  lemma AddedFrom(product: string, rows: seq<Dict>, n: nat, products: seq<string>)
    requires product in products
    requires forall i :: 0 <= i < |rows| ==> FetchedFor(product, rows[i])
    ensures AllFrom(Database.WithIds(FillAll(rows), n), products)
  {
    FilledRowsMatch(product, rows, n);
  }

  lemma {:induction false} IngestAllFrom(s: Database.Store, todo: seq<string>, search: Search, cap: int, limit: int,
                                         products: seq<string>)
    requires cap >= 0 && forall i :: 0 <= i < |todo| ==> todo[i] in products
    requires !Database.Fails(s, Database.MainTable, Database.Delete) && !Database.Fails(s, Database.MainTable, Database.Insert)
    requires AllFrom(Database.Rows(s, Database.MainTable), products)
    decreases |todo|
    ensures AllFrom(Database.Rows(IngestAll(s, todo, search, cap, limit).0, Database.MainTable), products)
  {
    if todo != [] {
      var s1 := IngestProduct(s, todo[0], search, cap, limit).0;
      IngestKeepsFrom(s, todo[0], search, cap, limit, products);
      IngestReplacesProductRows(s, todo[0], search, cap, limit);
      IngestAllFrom(s1, todo[1..], search, cap, limit, products);
    }
  }

  /** A run replaces the whole comment table: when every row came through
      `insert_comment` and the comment table accepts deletes and inserts,
      every row after the run belongs to one of the run's products. */
  lemma RunOnceReplacesTable(s: Database.Store, products: seq<string>, search: Search, cap: int, limit: int)
    requires cap >= 0 && Database.IdsAssigned(s)
    requires !Database.Fails(s, Database.MainTable, Database.Delete) && !Database.Fails(s, Database.MainTable, Database.Insert)
    ensures AllFrom(Database.Rows(RunOnce(s, products, search, cap, limit).0, Database.MainTable), products)
  {
    Database.DeleteAllEmpties(s);
    IngestAllFrom(Database.DeleteAllComments(s).0, products, search, cap, limit, products);
  }

  /** Without a product, a run only clears the comment table. */
  lemma RunOnceWithoutProducts(s: Database.Store, search: Search, cap: int, limit: int)
    ensures RunOnce(s, [], search, cap, limit) == (Database.DeleteAllComments(s).0, [])
  {
  }
}
