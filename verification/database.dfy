/**
 * `DatabaseService` over an in-memory store: each table is a sequence of
 * rows, and any operation on a table may fail. Which operations fail is
 * part of the store (`faults`); an operation on a table the store does not
 * have fails too, as a query against a missing relation does.
 *
 * Row filters follow SQL: a column that is absent or null matches neither
 * `eq` nor `neq`. Only `main_reddit` has an identity column; an insert there
 * gives each row the next `id`.
 */
module Database {
  import opened PyText
  import opened Json
  import Ranking

  const MainTable: string := "main_reddit"

  /** The source-channel table names tried, in order. */
  const SourceTable: string := "source_channel"
  const SourceTablesAlt: string := "source_channels"
  const SourceTables: seq<string> := [SourceTable, SourceTablesAlt]

  /** `.limit(200)` on the source-channel selects. */
  const SelectLimit: int := 200

  /** The default of `TOP_SUBREDDITS_LIMIT`. */
  const DefaultTopSubredditsLimit: int := 2

  datatype Op = Select | Insert | Delete | Update

  /** `reportsCount`: whether a delete response carries the affected-row
      count (otherwise `count` is `None`, read as 0). */
  datatype Store = Store(tables: map<string, seq<Dict>>, nextId: nat,
                         faults: set<(string, Op)>, reportsCount: bool)

  predicate Fails(s: Store, table: string, op: Op) {
    table !in s.tables || (table, op) in s.faults
  }

  function Rows(s: Store, table: string): seq<Dict> {
    if table in s.tables then s.tables[table] else []
  }

  // ---------------------------------------------------------------------------
  // Filters

  datatype Filter = Eq(column: string, value: Json) | Neq(column: string, value: Json)

  predicate Matches(row: Dict, f: Filter) {
    f.column in row && row[f.column] != JNull
    && match f
       case Eq(_, v) => row[f.column] == v
       case Neq(_, v) => row[f.column] != v
  }

  /** The rows a filter selects, in table order. */
  function Where(rows: seq<Dict>, f: Filter): (r: seq<Dict>)
    ensures |r| <= |rows|
  {
    if rows == [] then []
    else (if Matches(rows[0], f) then [rows[0]] else []) + Where(rows[1..], f)
  }

  /** The rows a filtered delete leaves, in table order. */
  function WhereNot(rows: seq<Dict>, f: Filter): (r: seq<Dict>)
    ensures |r| <= |rows|
  {
    if rows == [] then []
    else (if Matches(rows[0], f) then [] else [rows[0]]) + WhereNot(rows[1..], f)
  }

  lemma {:induction false} WhereMembers(rows: seq<Dict>, f: Filter)
    ensures forall r :: r in Where(rows, f) <==> r in rows && Matches(r, f)
    ensures forall r :: r in WhereNot(rows, f) <==> r in rows && !Matches(r, f)
    ensures |Where(rows, f)| + |WhereNot(rows, f)| == |rows|
  {
    if rows != [] {
      WhereMembers(rows[1..], f);
      assert rows == [rows[0]] + rows[1..];
    }
  }

  lemma {:induction false} WhereNotAppend(a: seq<Dict>, b: seq<Dict>, f: Filter)
    ensures WhereNot(a + b, f) == WhereNot(a, f) + WhereNot(b, f)
  {
    if a == [] {
      assert a + b == b;
    } else {
      var h := (if Matches(a[0], f) then [] else [a[0]]);
      WhereNotAppend(a[1..], b, f);
      assert (a + b)[1..] == a[1..] + b;
      assert (a + b)[0] == a[0];
      assert WhereNot(a + b, f) == h + WhereNot(a[1..] + b, f);
      AppendAssoc(h, WhereNot(a[1..], f), WhereNot(b, f));
    }
  }

  lemma {:induction false} WhereAppend(a: seq<Dict>, b: seq<Dict>, f: Filter)
    ensures Where(a + b, f) == Where(a, f) + Where(b, f)
  {
    if a == [] {
      assert a + b == b;
    } else {
      var h := (if Matches(a[0], f) then [a[0]] else []);
      WhereAppend(a[1..], b, f);
      assert (a + b)[1..] == a[1..] + b;
      assert (a + b)[0] == a[0];
      assert Where(a + b, f) == h + Where(a[1..] + b, f);
      AppendAssoc(h, Where(a[1..], f), Where(b, f));
    }
  }

  lemma {:induction false} WhereAll(rows: seq<Dict>, f: Filter)
    requires forall i :: 0 <= i < |rows| ==> Matches(rows[i], f)
    ensures Where(rows, f) == rows && WhereNot(rows, f) == []
  {
    if rows != [] {
      WhereAll(rows[1..], f);
    }
  }

  lemma {:induction false} WhereNone(rows: seq<Dict>, f: Filter)
    requires forall i :: 0 <= i < |rows| ==> !Matches(rows[i], f)
    ensures Where(rows, f) == [] && WhereNot(rows, f) == rows
  {
    if rows != [] {
      WhereNone(rows[1..], f);
    }
  }

  lemma {:induction false} WhereNotSelects(rows: seq<Dict>, f: Filter)
    ensures Where(WhereNot(rows, f), f) == [] && WhereNot(WhereNot(rows, f), f) == WhereNot(rows, f)
  {
    WhereMembers(rows, f);
    WhereNone(WhereNot(rows, f), f);
  }

  // ---------------------------------------------------------------------------
  // Primitive operations

  function SetRows(s: Store, table: string, rows: seq<Dict>): Store {
    s.(tables := s.tables[table := rows])
  }

  /** A filtered delete: the rows left and the reported count. */
  function DeleteWhere(s: Store, table: string, f: Filter): (r: (Store, nat))
    requires !Fails(s, table, Delete)
    ensures r.0 == SetRows(s, table, WhereNot(Rows(s, table), f))
    ensures r.1 == if s.reportsCount then |Where(Rows(s, table), f)| else 0
  {
    (SetRows(s, table, WhereNot(Rows(s, table), f)),
     if s.reportsCount then |Where(Rows(s, table), f)| else 0)
  }

  function WithIds(rows: seq<Dict>, first: nat): (r: seq<Dict>)
    ensures |r| == |rows|
    ensures forall i :: 0 <= i < |rows| ==> r[i] == rows[i]["id" := JInt(first + i)]
  {
    if rows == [] then [] else [rows[0]["id" := JInt(first)]] + WithIds(rows[1..], first + 1)
  }

  /** An insert appends the rows; in the identity table each gets the next
      `id`. */
  function InsertRows(s: Store, table: string, rows: seq<Dict>): Store
    requires !Fails(s, table, Insert)
  {
    if table == MainTable then
      SetRows(s, table, Rows(s, table) + WithIds(rows, s.nextId)).(nextId := s.nextId + |rows|)
    else SetRows(s, table, Rows(s, table) + rows)
  }

  /** A select: the rows a filter selects, at most `limit`; `None` on failure. */
  function SelectWhere(s: Store, table: string, f: Filter): (r: Option<seq<Dict>>)
    ensures r.Some? <==> !Fails(s, table, Select)
    ensures r.Some? ==> |r.value| <= SelectLimit && |r.value| <= |Where(Rows(s, table), f)| && r.value == Where(Rows(s, table), f)[..|r.value|]
    ensures r.Some? && |Where(Rows(s, table), f)| <= SelectLimit ==> r.value == Where(Rows(s, table), f)
  {
    if Fails(s, table, Select) then None else Some(Prefix(Where(Rows(s, table), f), SelectLimit))
  }

  // ---------------------------------------------------------------------------
  // insert_comment

  /** The defaults `insert_comment` fills in before inserting. */
  function FillDefaults(data: Dict): (r: Dict)
    ensures r.Keys == data.Keys + {"brand_name", "comment_sentiment"}
    ensures Truthy(r["brand_name"])
    ensures Truthy(Get(data, "brand_name")) ==> r["brand_name"] == data["brand_name"]
    ensures !Truthy(Get(data, "brand_name")) ==> r["brand_name"] == JStr("unknown")
    ensures "comment_sentiment" in r
    ensures "comment_sentiment" in data ==> r["comment_sentiment"] == data["comment_sentiment"]
    ensures "comment_sentiment" !in data ==> r["comment_sentiment"] == JStr("")
    ensures forall k :: k in data && k != "brand_name" && k != "comment_sentiment" ==> r[k] == data[k]
  {
    var withBrand := if Truthy(Get(data, "brand_name")) then data else data["brand_name" := JStr("unknown")];
    if "comment_sentiment" in withBrand then withBrand else withBrand["comment_sentiment" := JStr("")]
  }

  /** `insert_comment`: the filled-in row is appended to `main_reddit` with
      the next identity value, or nothing changes and the result is `false`. */
  function InsertComment(s: Store, data: Dict): (r: (Store, bool))
    ensures r.1 <==> !Fails(s, MainTable, Insert)
    ensures !r.1 ==> r.0 == s
  {
    if Fails(s, MainTable, Insert) then (s, false)
    else (SetRows(s, MainTable, Rows(s, MainTable) + [FillDefaults(data)["id" := JInt(s.nextId)]])
            .(nextId := s.nextId + 1), true)
  }

  /** A successful insert adds one row, the completed data under the next
      id, after the existing ones; no other table changes. */
  lemma InsertCommentSpec(s: Store, data: Dict)
    ensures var (s', ok) := InsertComment(s, data);
            && (ok ==> Rows(s', MainTable) == Rows(s, MainTable) + [FillDefaults(data)["id" := JInt(s.nextId)]]
                       && s'.nextId == s.nextId + 1)
            && (forall t :: t != MainTable ==> Rows(s', t) == Rows(s, t))
            && s'.faults == s.faults && s'.reportsCount == s.reportsCount && s'.tables.Keys == s.tables.Keys
  {
  }

  // ---------------------------------------------------------------------------
  // delete_comments_for_product and delete_all_comments

  /** `delete_comments_for_product`: removes the rows whose `product_name`
      is the product; 0 on failure, with nothing removed. */
  function DeleteCommentsForProduct(s: Store, product: string): (r: (Store, nat))
    ensures Fails(s, MainTable, Delete) ==> r == (s, 0)
    ensures !Fails(s, MainTable, Delete) ==>
              forall row :: row in Rows(r.0, MainTable) <==>
                row in Rows(s, MainTable) && Get(row, "product_name") != JStr(product)
    ensures forall t :: t != MainTable ==> Rows(r.0, t) == Rows(s, t)
    ensures r.0.nextId == s.nextId && r.0.faults == s.faults && r.0.reportsCount == s.reportsCount
    ensures r.0.tables.Keys == s.tables.Keys
  {
    if Fails(s, MainTable, Delete) then (s, 0)
    else
      WhereMembers(Rows(s, MainTable), Eq("product_name", JStr(product)));
      DeleteWhere(s, MainTable, Eq("product_name", JStr(product)))
  }

  /** `delete_all_comments`: `neq("id", -1)`, so a row with a null id or id
      -1 survives; 0 on failure, with nothing removed. */
  function DeleteAllComments(s: Store): (r: (Store, nat))
    ensures Fails(s, MainTable, Delete) ==> r == (s, 0)
    ensures !Fails(s, MainTable, Delete) ==>
              forall row :: row in Rows(r.0, MainTable) <==>
                row in Rows(s, MainTable) && (Get(row, "id") == JNull || Get(row, "id") == JInt(-1))
    ensures forall t :: t != MainTable ==> Rows(r.0, t) == Rows(s, t)
    ensures r.0.nextId == s.nextId && r.0.faults == s.faults && r.0.reportsCount == s.reportsCount
    ensures r.0.tables.Keys == s.tables.Keys
  {
    if Fails(s, MainTable, Delete) then (s, 0)
    else
      WhereMembers(Rows(s, MainTable), Neq("id", JInt(-1)));
      DeleteWhere(s, MainTable, Neq("id", JInt(-1)))
  }

  /** Every comment row carries an identity value below `nextId`. */
  predicate IdsAssigned(s: Store) {
    forall i :: 0 <= i < |Rows(s, MainTable)| ==>
      "id" in Rows(s, MainTable)[i] && Rows(s, MainTable)[i]["id"].JInt?
      && 0 <= Rows(s, MainTable)[i]["id"].i < s.nextId
  }

  lemma InsertKeepsIds(s: Store, data: Dict)
    requires IdsAssigned(s)
    ensures IdsAssigned(InsertComment(s, data).0)
  {
    InsertCommentSpec(s, data);
  }

  /** On a store whose comment rows all came through `insert_comment`, a
      successful `delete_all_comments` empties the table. */
  lemma DeleteAllEmpties(s: Store)
    requires IdsAssigned(s) && !Fails(s, MainTable, Delete)
    ensures Rows(DeleteAllComments(s).0, MainTable) == []
  {
    var rows := Rows(s, MainTable);
    assert forall i :: 0 <= i < |rows| ==> Matches(rows[i], Neq("id", JInt(-1)));
    WhereAll(rows, Neq("id", JInt(-1)));
  }

  // ---------------------------------------------------------------------------
  // update_comment_fields and get_recent_comments

  function IdFilter(id: int): Filter {
    Eq("id", JInt(id))
  }

  /** The rows with the given id take the new field values; the rest stay. */
  function UpdateWhere(rows: seq<Dict>, f: Filter, fields: Dict): (r: seq<Dict>)
    ensures |r| == |rows|
    ensures forall i :: 0 <= i < |rows| ==> r[i] == if Matches(rows[i], f) then rows[i] + fields else rows[i]
  {
    if rows == [] then [] else [if Matches(rows[0], f) then rows[0] + fields else rows[0]] + UpdateWhere(rows[1..], f, fields)
  }

  /** `update_comment_fields`: `false` on failure, with nothing changed. */
  function UpdateCommentFields(s: Store, id: int, fields: Dict): (r: (Store, bool))
    ensures r.1 <==> !Fails(s, MainTable, Update)
    ensures !r.1 ==> r.0 == s
    ensures r.1 ==> Rows(r.0, MainTable) == UpdateWhere(Rows(s, MainTable), IdFilter(id), fields)
    ensures forall t :: t != MainTable ==> Rows(r.0, t) == Rows(s, t)
    ensures r.0.nextId == s.nextId && r.0.faults == s.faults && r.0.tables.Keys == s.tables.Keys
  {
    if Fails(s, MainTable, Update) then (s, false)
    else (SetRows(s, MainTable, UpdateWhere(Rows(s, MainTable), IdFilter(id), fields)), true)
  }

  /** After a successful update the row with that id reads back the new
      values, and every other row is as it was. */
  lemma UpdateReadsBack(s: Store, id: int, fields: Dict, i: nat)
    requires !Fails(s, MainTable, Update) && i < |Rows(s, MainTable)|
    ensures var row := Rows(s, MainTable)[i];
            var row' := Rows(UpdateCommentFields(s, id, fields).0, MainTable)[i];
            && (Get(row, "id") == JInt(id) ==> forall k :: k in fields ==> row'[k] == fields[k])
            && (Get(row, "id") != JInt(id) ==> row' == row)
  {
  }

  /** An update that does not set `id` keeps every row's identity. */
  lemma UpdateKeepsIds(s: Store, id: int, fields: Dict)
    requires IdsAssigned(s) && "id" !in fields
    ensures IdsAssigned(UpdateCommentFields(s, id, fields).0)
  {
    var s' := UpdateCommentFields(s, id, fields).0;
    forall i | 0 <= i < |Rows(s', MainTable)|
      ensures "id" in Rows(s', MainTable)[i] && Rows(s', MainTable)[i]["id"] == Rows(s, MainTable)[i]["id"]
    {
    }
  }

  /** `get_recent_comments`: up to `limit` rows, newest first by the
      timestamp `stamp` reads from a row; `None` when the select raises. */
  function GetRecentComments(s: Store, limit: nat, stamp: Dict -> real): Option<seq<Dict>> {
    if Fails(s, MainTable, Select) then None
    else Some(Prefix(Ranking.SortDesc(Rows(s, MainTable), stamp), limit))
  }

  lemma RecentCommentsSpec(s: Store, limit: nat, stamp: Dict -> real)
    ensures GetRecentComments(s, limit, stamp).Some? <==> !Fails(s, MainTable, Select)
    ensures GetRecentComments(s, limit, stamp).Some? ==>
              var r := GetRecentComments(s, limit, stamp).value;
              && Ranking.SortedDesc(r, stamp)
              && |r| == (if limit < |Rows(s, MainTable)| then limit else |Rows(s, MainTable)|)
              && multiset(r) <= multiset(Rows(s, MainTable))
              && (forall x, y :: x in Rows(s, MainTable) && x !in r && y in r ==> stamp(x) <= stamp(y))
  {
    if !Fails(s, MainTable, Select) {
      var rows := Rows(s, MainTable);
      Ranking.SortDescPermutes(rows, stamp);
      assert |Ranking.SortDesc(rows, stamp)| == |rows| by {
        assert |multiset(Ranking.SortDesc(rows, stamp))| == |multiset(rows)|;
      }
      Ranking.TopOf(rows, stamp, if limit < |rows| then limit else |rows|);
    }
  }

  // ---------------------------------------------------------------------------
  // Source channels: scores

  /** `float(meta.get("score", 0) or 0)` on `row.get("meta_data") or {}`,
      0.0 when it raises (a non-dict `meta_data`, an unparseable score). */
  function MetaScore(row: Dict): real {
    var meta := Or(Get(row, "meta_data"), JObj(map[]));
    if meta.JObj? then AsFloat(Or(Get(meta.fields, "score"), JInt(0))) else 0.0
  }

  lemma MetaScoreDefaults(row: Dict)
    ensures !Truthy(Get(row, "meta_data")) ==> MetaScore(row) == 0.0
    ensures (Get(row, "meta_data").JObj? && Truthy(Get(row, "meta_data"))
             && PyFloat(Get(Get(row, "meta_data").fields, "score")).None?) ==> MetaScore(row) == 0.0
  {
  }

  /** The rows a source-channel select returns for Reddit. */
  function RedditRows(s: Store, table: string): Option<seq<Dict>> {
    SelectWhere(s, table, Eq("platform", JStr("reddit")))
  }

  // ---------------------------------------------------------------------------
  // get_top_reddit_channel

  /** `max(rows, key=score_of)`: the first row of maximal score. */
  function FirstMax(rows: seq<Dict>): (i: nat)
    requires rows != []
    ensures i < |rows|
    ensures forall j :: 0 <= j < |rows| ==> MetaScore(rows[j]) <= MetaScore(rows[i])
    ensures forall j :: 0 <= j < i ==> MetaScore(rows[j]) < MetaScore(rows[i])
  {
    if |rows| == 1 then 0
    else
      var k := FirstMax(rows[1..]) + 1;
      assert forall j :: 1 <= j < |rows| ==> rows[j] == rows[1..][j - 1];
      if MetaScore(rows[0]) >= MetaScore(rows[k]) then 0 else k
  }

  /** `get_top_reddit_channel` from a given table on: a table that fails, has
      no Reddit rows, or whose top row has no non-empty string `channel_id`
      hands over to the next. */
  function TopChannelFrom(s: Store, tables: seq<string>): (r: Option<string>)
    ensures r.Some? ==> r.value != []
    ensures r.Some? ==> exists i :: 0 <= i < |tables| && ListsChannel(s, tables[i], r.value)
  {
    if tables == [] then None
    else
      match RedditRows(s, tables[0])
      case None => TopChannelFrom(s, tables[1..])
      case Some(rows) =>
        if rows == [] then TopChannelFrom(s, tables[1..])
        else
          var cid := Get(rows[FirstMax(rows)], "channel_id");
          if cid.JStr? && cid.s != [] then Some(cid.s) else TopChannelFrom(s, tables[1..])
  }

  /** The top channel is a non-empty `channel_id` that one of the two
      tables lists among its Reddit rows. */
  function GetTopRedditChannel(s: Store): (r: Option<string>)
    ensures r.Some? ==> r.value != []
    ensures r.Some? ==> ListsChannel(s, SourceTable, r.value) || ListsChannel(s, SourceTablesAlt, r.value)
  {
    TopChannelFrom(s, SourceTables)
  }

  /** `cid` is the `channel_id` of a Reddit row the table returns. */
  ghost predicate ListsChannel(s: Store, table: string, cid: string) {
    && RedditRows(s, table).Some?
    && exists j :: 0 <= j < |RedditRows(s, table).value| && Get(RedditRows(s, table).value[j], "channel_id") == JStr(cid)
  }

  /** The first table's answer wins whenever it has one: the channel of its
      first row of maximal score. */
  lemma TopChannelFirstTable(s: Store)
    requires RedditRows(s, SourceTable).Some? && RedditRows(s, SourceTable).value != []
    ensures var rows := RedditRows(s, SourceTable).value;
            var cid := Get(rows[FirstMax(rows)], "channel_id");
            cid.JStr? && cid.s != [] ==> GetTopRedditChannel(s) == Some(cid.s)
  {
  }

  /** The second table is consulted only when the first gives no answer. */
  lemma TopChannelFallsBack(s: Store)
    requires RedditRows(s, SourceTable).None? || RedditRows(s, SourceTable).value == []
    ensures GetTopRedditChannel(s) == TopChannelFrom(s, [SourceTablesAlt])
  {
    assert SourceTables[1..] == [SourceTablesAlt];
  }

  /** A top row of the first table without a usable `channel_id` does not
      end the search: the second table is consulted as if the first had no rows. */
  lemma TopChannelSkipsBadId(s: Store)
    requires RedditRows(s, SourceTable).Some? && RedditRows(s, SourceTable).value != []
    requires var rows := RedditRows(s, SourceTable).value;
             var cid := Get(rows[FirstMax(rows)], "channel_id");
             !(cid.JStr? && cid.s != [])
    ensures GetTopRedditChannel(s) == TopChannelFrom(s, [SourceTablesAlt])
  {
    assert SourceTables[1..] == [SourceTablesAlt];
  }

  /** When neither table can be read there is no top channel. */
  lemma TopChannelNoneWhenUnreadable(s: Store)
    requires RedditRows(s, SourceTable).None? && RedditRows(s, SourceTablesAlt).None?
    ensures GetTopRedditChannel(s).None?
  {
    assert SourceTables[0] == SourceTable && SourceTables[1..] == [SourceTablesAlt];
    assert TopChannelFrom(s, SourceTables) == TopChannelFrom(s, [SourceTablesAlt]);
    assert [SourceTablesAlt][1..] == [];
    assert TopChannelFrom(s, [SourceTablesAlt]) == TopChannelFrom(s, []);
  }

  // ---------------------------------------------------------------------------
  // get_top_reddit_channels

  datatype Scored = Scored(cid: string, score: real)

  function ScoreKey(c: Scored): real { c.score }

  /** One table's rows, first occurrence of each non-empty string
      `channel_id` not yet seen, with its score. */
  function ScanRows(rows: seq<Dict>, seen: set<string>): (r: (seq<Scored>, set<string>))
    ensures seen <= r.1
  {
    if rows == [] then ([], seen)
    else
      var cid := Get(rows[0], "channel_id");
      if !cid.JStr? || cid.s == [] || cid.s in seen then ScanRows(rows[1..], seen)
      else
        var rest := ScanRows(rows[1..], seen + {cid.s});
        ([Scored(cid.s, MetaScore(rows[0]))] + rest.0, rest.1)
  }

  /** The candidates of every table that does not fail, in table order. */
  function ScanTables(s: Store, tables: seq<string>, seen: set<string>): seq<Scored> {
    if tables == [] then []
    else
      match RedditRows(s, tables[0])
      case None => ScanTables(s, tables[1..], seen)
      case Some(rows) =>
        var (found, seen') := ScanRows(rows, seen);
        found + ScanTables(s, tables[1..], seen')
  }

  function Candidates(s: Store): seq<Scored> {
    ScanTables(s, SourceTables, {})
  }

  function Cids(cs: seq<Scored>): (r: seq<string>)
    ensures |r| == |cs|
    ensures forall i :: 0 <= i < |cs| ==> r[i] == cs[i].cid
  {
    if cs == [] then [] else [cs[0].cid] + Cids(cs[1..])
  }

  /** The ranked candidates, at most `max(0, limit)` of them. */
  function TopScored(s: Store, limit: int): seq<Scored> {
    Prefix(Ranking.SortDesc(Candidates(s), ScoreKey), if limit > 0 then limit else 0)
  }

  /** `get_top_reddit_channels`. */
  function GetTopRedditChannels(s: Store, limit: int): (r: seq<string>)
    ensures Candidates(s) == [] ==> r == []
    ensures |r| <= (if limit > 0 then limit else 0)
    ensures forall i :: 0 <= i < |r| ==> r[i] != []
    ensures forall i, j :: 0 <= i < j < |r| ==> r[i] != r[j]
  {
    if Candidates(s) == [] then []
    else
      var all := Candidates(s);
      var top := TopScored(s, limit);
      ScanTablesSpec(s, SourceTables, {});
      assert top == Ranking.SortDesc(all, ScoreKey)[..|top|];
      TopRanked(all, |top|);
      Cids(top)
  }

  function CidOf(c: Scored): string { c.cid }

  ghost predicate DistinctCids(cs: seq<Scored>) {
    Ranking.DistinctBy(cs, CidOf)
  }

  /** The scan keeps each channel once, never one already seen, and every
      candidate is a non-empty channel id with a row of its score. */
  lemma {:induction false} ScanRowsSpec(rows: seq<Dict>, seen: set<string>)
    ensures var (found, seen') := ScanRows(rows, seen);
            && DistinctCids(found)
            && (forall i :: 0 <= i < |found| ==> found[i].cid != [] && found[i].cid !in seen && found[i].cid in seen')
            && (forall i :: 0 <= i < |found| ==>
                  exists j :: 0 <= j < |rows| && Get(rows[j], "channel_id") == JStr(found[i].cid)
                              && MetaScore(rows[j]) == found[i].score)
  {
    ScanRowsFresh(rows, seen);
    ScanRowsScored(rows, seen);
  }

  /** Each candidate has a row carrying its id and score. */
  predicate ScoredFrom(found: seq<Scored>, rows: seq<Dict>) {
    forall i :: 0 <= i < |found| ==>
      exists j :: 0 <= j < |rows| && Get(rows[j], "channel_id") == JStr(found[i].cid)
                  && MetaScore(rows[j]) == found[i].score
  }

  /** Candidates are new to `seen`, recorded, and distinct. */
  ghost predicate FreshCids(found: seq<Scored>, seen: set<string>, seen': set<string>) {
    && DistinctCids(found)
    && forall i :: 0 <= i < |found| ==> found[i].cid != [] && found[i].cid !in seen && found[i].cid in seen'
  }

  lemma {:induction false} ScanRowsFresh(rows: seq<Dict>, seen: set<string>)
    ensures FreshCids(ScanRows(rows, seen).0, seen, ScanRows(rows, seen).1)
  {
    if rows != [] {
      var cid := Get(rows[0], "channel_id");
      if !cid.JStr? || cid.s == [] || cid.s in seen {
        ScanRowsFresh(rows[1..], seen);
      } else {
        ScanRowsFresh(rows[1..], seen + {cid.s});
        var rest := ScanRows(rows[1..], seen + {cid.s});
        var found := [Scored(cid.s, MetaScore(rows[0]))] + rest.0;
        assert ScanRows(rows, seen) == (found, rest.1);
        assert FreshCids(rest.0, seen + {cid.s}, rest.1);
        assert forall i :: 1 <= i < |found| ==> found[i] == rest.0[i - 1];
      }
    }
  }

  lemma {:induction false} ScanRowsScored(rows: seq<Dict>, seen: set<string>)
    ensures ScoredFrom(ScanRows(rows, seen).0, rows)
  {
    if rows != [] {
      var cid := Get(rows[0], "channel_id");
      var seen1 := if !cid.JStr? || cid.s == [] || cid.s in seen then seen else seen + {cid.s};
      ScanRowsScored(rows[1..], seen1);
      var rest := ScanRows(rows[1..], seen1).0;
      assert ScoredFrom(rest, rows[1..]);
      var found := ScanRows(rows, seen).0;
      forall i | 0 <= i < |found|
        ensures exists j :: 0 <= j < |rows| && Get(rows[j], "channel_id") == JStr(found[i].cid)
                            && MetaScore(rows[j]) == found[i].score
      {
        if found == rest || i > 0 {
          var k := if found == rest then i else i - 1;
          assert found[i] == rest[k];
          var j :| 0 <= j < |rows[1..]| && Get(rows[1..][j], "channel_id") == JStr(rest[k].cid)
                   && MetaScore(rows[1..][j]) == rest[k].score;
          assert rows[j + 1] == rows[1..][j];
        } else {
          assert Get(rows[0], "channel_id") == JStr(found[0].cid);
        }
      }
    }
  }

  /** Across the tables, each channel is a candidate once, with a
      non-empty id not seen before the scan. */
  lemma {:induction false} ScanTablesSpec(s: Store, tables: seq<string>, seen: set<string>)
    ensures var r := ScanTables(s, tables, seen);
            DistinctCids(r) && forall i :: 0 <= i < |r| ==> r[i].cid != [] && r[i].cid !in seen
  {
    if tables != [] {
      match RedditRows(s, tables[0])
      case None =>
        ScanTablesSpec(s, tables[1..], seen);
      case Some(rows) =>
        var (found, seen') := ScanRows(rows, seen);
        ScanRowsSpec(rows, seen);
        ScanTablesSpec(s, tables[1..], seen');
        var rest := ScanTables(s, tables[1..], seen');
        var r := found + rest;
        assert ScanTables(s, tables, seen) == r;
        forall i, j | 0 <= i < j < |r|
          ensures CidOf(r[i]) != CidOf(r[j])
        {
          if j < |found| {
          } else if i >= |found| {
            assert r[i] == rest[i - |found|] && r[j] == rest[j - |found|];
          } else {
            assert r[j] == rest[j - |found|];
          }
        }
    }
  }

  /** The ranked prefix of distinct, non-empty candidates. */
  lemma TopOfCandidates(all: seq<Scored>, n: nat)
    requires n <= |all| && DistinctCids(all) && forall i :: 0 <= i < |all| ==> all[i].cid != []
    ensures var r := Ranking.SortDesc(all, ScoreKey)[..n];
            && (forall i, j :: 0 <= i < j < |r| ==> r[i].cid != r[j].cid)
            && (forall i :: 0 <= i < |r| ==> r[i].cid != [])
  {
    var sorted := Ranking.SortDesc(all, ScoreKey);
    Ranking.SortDescDistinct(all, ScoreKey, CidOf);
    Ranking.SortDescPermutes(all, ScoreKey);
    forall i | 0 <= i < n
      ensures sorted[i].cid != []
    {
      assert sorted[i] in multiset(all);
    }
    forall i, j | 0 <= i < j < n
      ensures sorted[i].cid != sorted[j].cid
    {
      assert CidOf(sorted[i]) != CidOf(sorted[j]);
    }
  }

  /** `get_top_reddit_channels` returns distinct non-empty channel ids, in
      non-increasing score order (stable on ties), at most `max(0, limit)`
      of them and as many as there are candidates up to that bound, and no
      candidate left out scores higher than one returned. */
  lemma TopChannelsSpec(s: Store, limit: int)
    ensures var r := TopScored(s, limit);
            && Ranking.SortedDesc(r, ScoreKey)
            && |r| == (if limit <= 0 then 0 else if limit < |Candidates(s)| then limit else |Candidates(s)|)
            && multiset(r) <= multiset(Candidates(s))
            && (forall x, y :: x in Candidates(s) && x !in r && y in r ==> x.score <= y.score)
            && (forall i, j :: 0 <= i < j < |r| ==> r[i].cid != r[j].cid)
            && (forall i :: 0 <= i < |r| ==> r[i].cid != [])
            && (Candidates(s) != [] ==> GetTopRedditChannels(s, limit) == Cids(r))
  {
    var all := Candidates(s);
    var r := TopScored(s, limit);
    assert r == Ranking.SortDesc(all, ScoreKey)[..|r|];
    ScanTablesSpec(s, SourceTables, {});
    TopRanked(all, |r|);
  }

  /** The first `n` ranked candidates, for candidates with distinct
      non-empty ids. */
  lemma TopRanked(all: seq<Scored>, n: nat)
    requires n <= |all| && DistinctCids(all) && forall i :: 0 <= i < |all| ==> all[i].cid != []
    ensures var r := Ranking.SortDesc(all, ScoreKey)[..n];
            && Ranking.SortedDesc(r, ScoreKey)
            && multiset(r) <= multiset(all)
            && (forall x, y :: x in all && x !in r && y in r ==> x.score <= y.score)
            && (forall i, j :: 0 <= i < j < |r| ==> r[i].cid != r[j].cid)
            && (forall i :: 0 <= i < |r| ==> r[i].cid != [])
  {
    Ranking.TopOf(all, ScoreKey, n);
    TopOfCandidates(all, n);
  }

  // ---------------------------------------------------------------------------
  // replace_source_channels

  /** The summary dict; `errors` is present only when every table failed. */
  datatype ReplaceSummary = ReplaceSummary(deleted: int, inserted: int, errors: Option<int>)

  /** The row stored for one channel dict. */
  function ChannelRow(platform: string, ch: Dict): Dict {
    map["platform" := JStr(platform), "channel_id" := Get(ch, "channel_id"), "name" := Get(ch, "name"),
        "meta_data" := JObj(map["score" := Get(ch, "score"), "metrics" := Get(ch, "metrics")])]
  }

  function ChannelRows(platform: string, channels: seq<Dict>): (r: seq<Dict>)
    ensures |r| == |channels|
    ensures forall i :: 0 <= i < |channels| ==> r[i] == ChannelRow(platform, channels[i])
  {
    if channels == [] then [] else [ChannelRow(platform, channels[0])] + ChannelRows(platform, channels[1..])
  }

  function PlatformFilter(platform: string): Filter {
    Eq("platform", JStr(platform))
  }

  /** The loop over the candidate tables, carrying `deleted` and `errors`:
      either one table takes all the rows, or each table adds one error. */
  function ReplaceFrom(s: Store, tables: seq<string>, platform: string, rows: seq<Dict>,
                       deleted: int, errors: nat): (r: (Store, ReplaceSummary))
    ensures r.1.errors.None? ==> r.1.inserted == |rows|
    ensures r.1.errors.Some? ==> r.1.inserted == 0 && r.1.errors.value == errors + |tables|
    decreases |tables|
  {
    if tables == [] then (s, ReplaceSummary(deleted, 0, Some(errors)))
    else
      var t := tables[0];
      if Fails(s, t, Delete) then ReplaceFrom(s, tables[1..], platform, rows, deleted, errors + 1)
      else
        var (s1, count) := DeleteWhere(s, t, PlatformFilter(platform));
        var deleted' := if count != 0 then count else deleted;
        if rows == [] then (s1, ReplaceSummary(deleted', 0, None))
        else if Fails(s1, t, Insert) then ReplaceFrom(s1, tables[1..], platform, rows, deleted', errors + 1)
        else (InsertRows(s1, t, rows), ReplaceSummary(deleted', |rows|, None))
  }

  /** `replace_source_channels`. */
  function ReplaceSourceChannels(s: Store, platform: string, channels: seq<Dict>): (r: (Store, ReplaceSummary))
    ensures r.1.errors.None? ==> r.1.inserted == |channels|
    ensures r.1.errors.Some? ==> r.1.inserted == 0 && r.1.errors.value == |SourceTables|
    ensures forall t :: t !in SourceTables ==> Rows(r.0, t) == Rows(s, t)
    ensures r.0.faults == s.faults && r.0.tables.Keys == s.tables.Keys
  {
    ReplaceFromElsewhereAll(s, SourceTables, platform, ChannelRows(platform, channels), 0, 0);
    ReplaceFrom(s, SourceTables, platform, ChannelRows(platform, channels), 0, 0)
  }

  lemma ChannelRowsMatch(platform: string, channels: seq<Dict>)
    ensures forall i :: 0 <= i < |ChannelRows(platform, channels)| ==>
              Matches(ChannelRows(platform, channels)[i], PlatformFilter(platform))
  {
  }

  /** When the first table accepts both the delete and the insert, its rows
      for the platform become exactly the new rows (after its other rows),
      and the second table is untouched. */
  lemma ReplaceFirstTable(s: Store, platform: string, channels: seq<Dict>)
    requires channels != []
    requires !Fails(s, SourceTable, Delete) && !Fails(s, SourceTable, Insert)
    ensures var (s', summary) := ReplaceSourceChannels(s, platform, channels);
            var f := PlatformFilter(platform);
            && Rows(s', SourceTable) == WhereNot(Rows(s, SourceTable), f) + ChannelRows(platform, channels)
            && Where(Rows(s', SourceTable), f) == ChannelRows(platform, channels)
            && WhereNot(Rows(s', SourceTable), f) == WhereNot(Rows(s, SourceTable), f)
            && (forall t :: t != SourceTable ==> Rows(s', t) == Rows(s, t))
            && s'.faults == s.faults && s'.tables.Keys == s.tables.Keys
            && summary.inserted == |channels| && summary.errors.None?
  {
    var f := PlatformFilter(platform);
    var rows := ChannelRows(platform, channels);
    var kept := WhereNot(Rows(s, SourceTable), f);
    ChannelRowsMatch(platform, channels);
    WhereAll(rows, f);
    WhereNotSelects(Rows(s, SourceTable), f);
    WhereAppend(kept, rows, f);
    WhereNotAppend(kept, rows, f);
  }

  /** A table whose delete fails is left as it was and counted as an error;
      the next table is tried. */
  lemma ReplaceSkipsFailedDelete(s: Store, platform: string, channels: seq<Dict>)
    requires Fails(s, SourceTable, Delete)
    ensures ReplaceSourceChannels(s, platform, channels)
            == ReplaceFrom(s, [SourceTablesAlt], platform, ChannelRows(platform, channels), 0, 1)
  {
    assert SourceTables[1..] == [SourceTablesAlt];
  }

  /** The tables a replacement leaves do not depend on the counts carried
      along the loop. */
  lemma {:induction false} ReplaceStateIgnoresCounts(s: Store, tables: seq<string>, platform: string, rows: seq<Dict>,
                                                     d1: int, e1: nat, d2: int, e2: nat)
    decreases |tables|
    ensures ReplaceFrom(s, tables, platform, rows, d1, e1).0 == ReplaceFrom(s, tables, platform, rows, d2, e2).0
  {
    if tables != [] {
      var t := tables[0];
      if Fails(s, t, Delete) {
        ReplaceStateIgnoresCounts(s, tables[1..], platform, rows, d1, e1 + 1, d2, e2 + 1);
      } else {
        var (s1, count) := DeleteWhere(s, t, PlatformFilter(platform));
        if rows != [] && Fails(s1, t, Insert) {
          ReplaceStateIgnoresCounts(s1, tables[1..], platform, rows,
            if count != 0 then count else d1, e1 + 1, if count != 0 then count else d2, e2 + 1);
        }
      }
    }
  }

  /** Tables not in the list are never touched, and the store keeps its
      tables and faults. */
  lemma {:induction false} ReplaceFromElsewhere(s: Store, tables: seq<string>, platform: string, rows: seq<Dict>,
                                               deleted: int, errors: nat, other: string)
    requires other !in tables
    decreases |tables|
    ensures Rows(ReplaceFrom(s, tables, platform, rows, deleted, errors).0, other) == Rows(s, other)
    ensures ReplaceFrom(s, tables, platform, rows, deleted, errors).0.faults == s.faults
    ensures ReplaceFrom(s, tables, platform, rows, deleted, errors).0.tables.Keys == s.tables.Keys
    ensures ReplaceFrom(s, tables, platform, rows, deleted, errors).0.reportsCount == s.reportsCount
  {
    if tables != [] {
      var t := tables[0];
      if Fails(s, t, Delete) {
        ReplaceFromElsewhere(s, tables[1..], platform, rows, deleted, errors + 1, other);
      } else {
        var (s1, count) := DeleteWhere(s, t, PlatformFilter(platform));
        var deleted' := if count != 0 then count else deleted;
        if rows != [] && Fails(s1, t, Insert) {
          ReplaceFromElsewhere(s1, tables[1..], platform, rows, deleted', errors + 1, other);
        }
      }
    }
  }

  lemma ReplaceFromElsewhereAll(s: Store, tables: seq<string>, platform: string, rows: seq<Dict>,
                                deleted: int, errors: nat)
    requires MainTable !in tables
    ensures var s' := ReplaceFrom(s, tables, platform, rows, deleted, errors).0;
            && (forall t :: t !in tables ==> Rows(s', t) == Rows(s, t))
            && s'.faults == s.faults && s'.tables.Keys == s.tables.Keys
  {
    ReplaceFromElsewhere(s, tables, platform, rows, deleted, errors, MainTable);
    forall t | t !in tables
      ensures Rows(ReplaceFrom(s, tables, platform, rows, deleted, errors).0, t) == Rows(s, t)
    {
      ReplaceFromElsewhere(s, tables, platform, rows, deleted, errors, t);
    }
  }

  /** A delete that succeeded before a failed insert stays: the first table
      loses its platform rows, and the second table is tried. */
  lemma ReplaceKeepsDeleteBeforeFailedInsert(s: Store, platform: string, channels: seq<Dict>)
    requires channels != []
    requires !Fails(s, SourceTable, Delete) && Fails(s, SourceTable, Insert)
    ensures var (s', _) := ReplaceSourceChannels(s, platform, channels);
            Rows(s', SourceTable) == WhereNot(Rows(s, SourceTable), PlatformFilter(platform))
  {
    var f := PlatformFilter(platform);
    var rows := ChannelRows(platform, channels);
    var (s1, count) := DeleteWhere(s, SourceTable, f);
    var deleted' := if count != 0 then count else 0;
    assert Fails(s1, SourceTable, Insert);
    assert SourceTables[1..] == [SourceTablesAlt];
    assert ReplaceSourceChannels(s, platform, channels) == ReplaceFrom(s1, [SourceTablesAlt], platform, rows, deleted', 1);
    ReplaceFromElsewhere(s1, [SourceTablesAlt], platform, rows, deleted', 1, SourceTable);
  }

  /** An empty channel list still deletes the platform's rows from the first
      table that allows it, and reports nothing inserted. */
  lemma ReplaceWithNothing(s: Store, platform: string)
    requires !Fails(s, SourceTable, Delete)
    ensures var (s', summary) := ReplaceSourceChannels(s, platform, []);
            && Rows(s', SourceTable) == WhereNot(Rows(s, SourceTable), PlatformFilter(platform))
            && Where(Rows(s', SourceTable), PlatformFilter(platform)) == []
            && summary.inserted == 0 && summary.errors.None?
  {
    WhereNotSelects(Rows(s, SourceTable), PlatformFilter(platform));
  }

  /** When every table fails, the summary carries `errors`, one per table,
      and nothing changes. */
  lemma ReplaceAllFail(s: Store, platform: string, channels: seq<Dict>)
    requires Fails(s, SourceTable, Delete) && Fails(s, SourceTablesAlt, Delete)
    ensures ReplaceSourceChannels(s, platform, channels) == (s, ReplaceSummary(0, 0, Some(2)))
  {
    var rows := ChannelRows(platform, channels);
    assert SourceTables[1..] == [SourceTablesAlt];
    assert [SourceTablesAlt][1..] == [];
    calc {
      ReplaceSourceChannels(s, platform, channels);
      ReplaceFrom(s, [SourceTablesAlt], platform, rows, 0, 1);
      ReplaceFrom(s, [], platform, rows, 0, 2);
    }
  }

  predicate DistinctTables(tables: seq<string>) {
    forall i, j :: 0 <= i < j < |tables| ==> tables[i] != tables[j]
  }

  /** A delete of rows none of which match leaves the store as it is. */
  lemma DeleteNothing(s: Store, t: string, f: Filter)
    requires !Fails(s, t, Delete) && Where(Rows(s, t), f) == [] && WhereNot(Rows(s, t), f) == Rows(s, t)
    ensures DeleteWhere(s, t, f) == (s, 0)
  {
    assert s.tables[t := Rows(s, t)] == s.tables;
  }

  /** Replacing twice with the same channels leaves the same tables as
      replacing once, whatever fails. */
  lemma {:induction false} ReplaceFromIdempotent(s: Store, tables: seq<string>, platform: string, rows: seq<Dict>,
                                                 d: int, e: nat)
    requires forall i :: 0 <= i < |rows| ==> Matches(rows[i], PlatformFilter(platform))
    requires MainTable !in tables && DistinctTables(tables)
    decreases |tables|
    ensures var once := ReplaceFrom(s, tables, platform, rows, d, e).0;
            ReplaceFrom(once, tables, platform, rows, d, e).0 == once
  {
    if tables != [] {
      var t := tables[0];
      var rest := tables[1..];
      var f := PlatformFilter(platform);
      assert t !in rest && DistinctTables(rest);
      if Fails(s, t, Delete) {
        var once := ReplaceFrom(s, rest, platform, rows, d, e + 1).0;
        ReplaceFromElsewhere(s, rest, platform, rows, d, e + 1, t);
        assert Fails(once, t, Delete);
        ReplaceFromIdempotent(s, rest, platform, rows, d, e + 1);
      } else {
        var (s1, count) := DeleteWhere(s, t, f);
        var d' := if count != 0 then count else d;
        WhereNotSelects(Rows(s, t), f);
        if rows == [] {
          DeleteNothing(s1, t, f);
        } else if Fails(s1, t, Insert) {
          var once := ReplaceFrom(s1, rest, platform, rows, d', e + 1).0;
          ReplaceFromElsewhere(s1, rest, platform, rows, d', e + 1, t);
          DeleteNothing(once, t, f);
          assert Fails(once, t, Insert);
          assert ReplaceFrom(once, tables, platform, rows, d, e).0 == ReplaceFrom(once, rest, platform, rows, d, e + 1).0;
          ReplaceStateIgnoresCounts(s1, rest, platform, rows, d', e + 1, d, e + 1);
          ReplaceFromIdempotent(s1, rest, platform, rows, d, e + 1);
        } else {
          ReinsertSame(s, t, f, rows);
        }
      }
    }
  }

  /** Deleting the platform's rows of a table and inserting them again
      restores the table as the first replace left it. */
  lemma ReinsertSame(s: Store, t: string, f: Filter, rows: seq<Dict>)
    requires t != MainTable && !Fails(s, t, Delete) && !Fails(s, t, Insert)
    requires forall i :: 0 <= i < |rows| ==> Matches(rows[i], f)
    ensures var once := InsertRows(DeleteWhere(s, t, f).0, t, rows);
            && !Fails(once, t, Delete) && !Fails(once, t, Insert)
            && InsertRows(DeleteWhere(once, t, f).0, t, rows) == once
  {
    var kept := WhereNot(Rows(s, t), f);
    var s1 := DeleteWhere(s, t, f).0;
    WhereNotSelects(Rows(s, t), f);
    var once := InsertRows(s1, t, rows);
    assert Rows(once, t) == kept + rows;
    WhereAll(rows, f);
    WhereNotAppend(kept, rows, f);
    var s2 := DeleteWhere(once, t, f).0;
    assert Rows(s2, t) == kept;
    assert InsertRows(s2, t, rows) == once by {
      assert s2.tables[t := kept + rows] == once.tables;
    }
  }

  lemma ReplaceIdempotent(s: Store, platform: string, channels: seq<Dict>)
    ensures var once := ReplaceSourceChannels(s, platform, channels).0;
            ReplaceSourceChannels(once, platform, channels).0 == once
  {
    ChannelRowsMatch(platform, channels);
    ReplaceFromIdempotent(s, SourceTables, platform, ChannelRows(platform, channels), 0, 0);
  }

  /** The score a channel dict carries is the score read back from the row
      stored for it. */
  lemma ChannelScoreReadsBack(platform: string, ch: Dict, x: real)
    requires Get(ch, "score") == JFloat(x)
    ensures MetaScore(ChannelRow(platform, ch)) == x
  {
  }

  /** After the first table takes the new channels, a select on it for the
      platform returns exactly their rows. */
  lemma SelectAfterReplace(s: Store, channels: seq<Dict>)
    requires |channels| <= SelectLimit
    requires channels != []
    requires !Fails(s, SourceTable, Delete) && !Fails(s, SourceTable, Insert) && !Fails(s, SourceTable, Select)
    ensures RedditRows(ReplaceSourceChannels(s, "reddit", channels).0, SourceTable) == Some(ChannelRows("reddit", channels))
  {
    ReplaceFirstTable(s, "reddit", channels);
  }

  /** The first row of maximal score among channel rows is that of a
      channel of maximal score. */
  lemma {:induction false} FirstMaxOfChannels(channels: seq<Dict>)
    requires channels != []
    requires forall i :: 0 <= i < |channels| ==> Get(channels[i], "score").JFloat?
    ensures var k := FirstMax(ChannelRows("reddit", channels));
            && Get(ChannelRows("reddit", channels)[k], "channel_id") == Get(channels[k], "channel_id")
            && forall j :: 0 <= j < |channels| ==> Get(channels[j], "score").f <= Get(channels[k], "score").f
  {
    var rows := ChannelRows("reddit", channels);
    RowScores(channels);
    var k := FirstMax(rows);
    assert Get(rows[k], "channel_id") == Get(channels[k], "channel_id") by {
      assert rows[k] == ChannelRow("reddit", channels[k]);
    }
  }

  lemma {:induction false} RowScores(channels: seq<Dict>)
    requires forall i :: 0 <= i < |channels| ==> Get(channels[i], "score").JFloat?
    ensures forall j :: 0 <= j < |channels| ==>
              MetaScore(ChannelRows("reddit", channels)[j]) == Get(channels[j], "score").f
  {
    forall j | 0 <= j < |channels|
      ensures MetaScore(ChannelRows("reddit", channels)[j]) == Get(channels[j], "score").f
    {
      ChannelScoreReadsBack("reddit", channels[j], Get(channels[j], "score").f);
    }
  }

  /** Written then read: after the first table takes the new Reddit
      channels, `get_top_reddit_channel` names a channel of maximal score
      among them. */
  lemma TopChannelAfterReplace(s: Store, channels: seq<Dict>)
    requires 1 <= |channels| <= SelectLimit
    requires !Fails(s, SourceTable, Delete) && !Fails(s, SourceTable, Insert) && !Fails(s, SourceTable, Select)
    requires forall i :: 0 <= i < |channels| ==>
               Get(channels[i], "score").JFloat? && Get(channels[i], "channel_id").JStr?
               && Get(channels[i], "channel_id").s != []
    ensures var s' := ReplaceSourceChannels(s, "reddit", channels).0;
            exists k :: 0 <= k < |channels|
              && GetTopRedditChannel(s') == Some(Get(channels[k], "channel_id").s)
              && forall j :: 0 <= j < |channels| ==> Get(channels[j], "score").f <= Get(channels[k], "score").f
  {
    var s' := ReplaceSourceChannels(s, "reddit", channels).0;
    var rows := ChannelRows("reddit", channels);
    SelectAfterReplace(s, channels);
    FirstMaxOfChannels(channels);
    var k := FirstMax(rows);
    TopChannelFirstTable(s');
    assert GetTopRedditChannel(s') == Some(Get(channels[k], "channel_id").s);
  }
}
