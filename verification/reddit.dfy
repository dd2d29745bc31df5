/**
 * `RedditService`: the PRAW-based discovery fold (`_discover_sync`) and the
 * comment collection for one product (`get_comments_for_product`).
 *
 * PRAW is an oracle. A search yields a `Listing`: the items it produced
 * before it stopped, and whether it stopped by raising. Attributes the
 * source reads with `getattr(…, default)` are fields already holding the
 * default when absent; a missing submission id is the empty string, which
 * Python treats like `None` (falsy).
 */
module Reddit {
  import opened PyText
  import opened Json
  import opened Channels

  /** The default of `MAX_COMMENTS_PER_SUBMISSION`. */
  const DefaultMaxCommentsPerSubmission: int := 50

  /** `limit=50` on the discovery search, `limit=5` on each fetch pass. */
  const DiscoverySearchLimit: int := 50
  const FetchPassLimit: int := 5

  /** What a PRAW listing produced, and whether iterating it raised. */
  datatype Listing<T> = Listing(items: seq<T>, raised: bool)

  /** The items a `limit`-bounded loop over a listing handles. */
  function Taken<T>(l: Listing<T>, limit: int): (r: seq<T>)
    requires limit >= 0
    ensures |r| <= limit && |r| <= |l.items| && r == l.items[..|r|]
  {
    Prefix(l.items, limit)
  }

  /** The loop ends by an exception only when the listing raised before the
      limit was reached. */
  predicate StopsRaising<T>(l: Listing<T>, limit: int) {
    l.raised && |l.items| < limit
  }

  // ---------------------------------------------------------------------------
  // _discover_sync

  /** One search hit: its subreddit's display name, score and comment count. */
  datatype Hit = Hit(subreddit: string, score: int, numComments: int)

  function HitMention(h: Hit): Mention {
    Mention(h.subreddit, h.score as real, h.numComments)
  }

  function HitMentions(hits: seq<Hit>): (r: seq<Mention>)
    ensures |r| == |hits|
  {
    if hits == [] then [] else [HitMention(hits[0])] + HitMentions(hits[1..])
  }

  /** One mention per hit of each product's search, products in order. A
      search that raises keeps the hits it yielded and the loop moves on to
      the next product. */
  function ProductMentions(products: seq<string>, search: string -> Listing<Hit>): seq<Mention> {
    if products == [] then []
    else HitMentions(Taken(search(products[0]), DiscoverySearchLimit)) + ProductMentions(products[1..], search)
  }

  /** `_discover_sync`: the same fold, finalize and ranking as the gateway
      discovery, over PRAW search hits. */
  function DiscoverSync(products: seq<string>, search: string -> Listing<Hit>, maxResults: int): (r: seq<Channel>)
    ensures Ranking.SortedDesc(r, ScoreOf)
    ensures maxResults >= 0 ==> |r| <= maxResults
    ensures forall c :: c in r ==> Measured(ProductMentions(products, search), c)
  {
    var ms := ProductMentions(products, search);
    RankProperties(Fold(ms), maxResults);
    RankMeasured(ms, maxResults);
    Rank(Fold(ms), maxResults)
  }

  lemma {:induction false} ProductMentionsAppend(a: seq<string>, b: seq<string>, search: string -> Listing<Hit>)
    ensures ProductMentions(a + b, search) == ProductMentions(a, search) + ProductMentions(b, search)
  {
    if a == [] {
      assert a + b == b;
    } else {
      ProductMentionsAppend(a[1..], b, search);
      assert (a + b)[0] == a[0];
      assert (a + b)[1..] == a[1..] + b;
      AppendAssoc(HitMentions(Taken(search(a[0]), DiscoverySearchLimit)),
                  ProductMentions(a[1..], search), ProductMentions(b, search));
    }
  }

  /** A product whose search raises before yielding anything contributes
      nothing, and the products around it are aggregated as usual. */
  lemma SearchFailureIsolated(before: seq<string>, p: string, after: seq<string>, search: string -> Listing<Hit>)
    requires search(p).items == []
    ensures ProductMentions(before + [p] + after, search)
            == ProductMentions(before, search) + ProductMentions(after, search)
  {
    ProductMentionsAppend(before + [p], after, search);
    ProductMentionsAppend(before, [p], search);
    assert ProductMentions([p], search) == [] by {
      assert [p][1..] == [];
    }
  }

  /** Each product's search contributes at most 50 mentions. */
  lemma {:induction false} ProductMentionsBound(products: seq<string>, search: string -> Listing<Hit>)
    ensures |ProductMentions(products, search)| <= DiscoverySearchLimit * |products|
  {
    if products != [] {
      ProductMentionsBound(products[1..], search);
    }
  }

  /** The PRAW discovery result holds exactly `maxResults` channels, or one
      per subreddit the search hits mention when there are fewer; a negative
      `maxResults` drops that many from the end, as Python's slice does. */
  lemma DiscoverSyncProperties(products: seq<string>, search: string -> Listing<Hit>, maxResults: int)
    ensures var r := DiscoverSync(products, search, maxResults);
            var n := |Distinct(ProductMentions(products, search))|;
            && (maxResults >= 0 ==> |r| == if maxResults < n then maxResults else n)
            && (maxResults < 0 ==> |r| == if n + maxResults > 0 then n + maxResults else 0)
  {
    var ms := ProductMentions(products, search);
    RankProperties(Fold(ms), maxResults);
    FoldClosedForm(ms);
  }

  // ---------------------------------------------------------------------------
  // get_comments_for_product

  /** A comment: its body (empty when absent) and its score. */
  datatype Comment = Comment(body: string, score: int)

  /** A submission: its id (empty when absent), title, and its expanded
      comment list, `None` when expanding or listing the comments raised. */
  datatype Submission = Submission(id: string, title: string, comments: Option<seq<Comment>>)

  /** The two search orders the fetch walks, in this order. */
  datatype Sort = Top | MostCommented

  /** `subreddit_name or "all"`. */
  function TargetSubreddit(subredditName: Option<string>): (t: string)
    ensures t != []
    ensures subredditName.Some? && subredditName.value != [] ==> t == subredditName.value
  {
    if subredditName.Some? && subredditName.value != [] then subredditName.value else "all"
  }

  /** `product or "unknown"`. */
  function BrandName(product: string): (b: string)
    ensures b != []
    ensures product != [] ==> b == product
  {
    if product != [] then product else "unknown"
  }

  /** The row stored for one comment (its timestamp is not modelled). */
  function CommentRow(product: string, title: string, c: Comment): Dict {
    map["brand_name" := JStr(BrandName(product)), "product_name" := JStr(product),
        "comment" := JStr(c.body), "thread_name" := JStr(title), "upvotes" := JInt(c.score)]
  }

  /** The rows of the examined comments that have a body, in order. */
  function CommentRows(product: string, title: string, cs: seq<Comment>): (r: seq<Dict>)
    ensures |r| <= |cs|
  {
    if cs == [] then []
    else (if cs[0].body != [] then [CommentRow(product, title, cs[0])] else [])
         + CommentRows(product, title, cs[1..])
  }

  /** The rows one handled submission yields: its first `cap` comments with a
      body; none when listing its comments raised. */
  function SubmissionRows(product: string, s: Submission, cap: int): seq<Dict> {
    match s.comments
    case None => []
    case Some(cs) => CommentRows(product, s.title, Prefix(cs, cap))
  }

  /** What a row of a given product and thread looks like. */
  predicate RowOf(product: string, title: string, r: Dict) {
    && r.Keys == {"brand_name", "product_name", "comment", "thread_name", "upvotes"}
    && r["brand_name"] == JStr(BrandName(product))
    && r["product_name"] == JStr(product)
    && r["comment"].JStr? && r["comment"].s != []
    && r["thread_name"] == JStr(title)
    && r["upvotes"].JInt?
  }

  /** Every row comes from an examined comment with a non-empty body, and
      every such comment gives a row. */
  lemma {:induction false} CommentRowsExactly(product: string, title: string, cs: seq<Comment>)
    ensures forall r :: r in CommentRows(product, title, cs) ==>
              RowOf(product, title, r) && exists c :: c in cs && r == CommentRow(product, title, c)
    ensures forall c :: c in cs && c.body != [] ==> CommentRow(product, title, c) in CommentRows(product, title, cs)
  {
    if cs != [] {
      CommentRowsExactly(product, title, cs[1..]);
      forall c | c in cs && c.body != []
        ensures CommentRow(product, title, c) in CommentRows(product, title, cs)
      {
        if c != cs[0] {
          assert c in cs[1..];
        }
      }
    }
  }

  /** A submission yields at most `cap` rows, all shaped for the product and
      the submission's title, with the comment's score as upvotes. */
  lemma SubmissionRowsBound(product: string, s: Submission, cap: int)
    requires cap >= 0
    ensures |SubmissionRows(product, s, cap)| <= cap
    ensures forall r :: r in SubmissionRows(product, s, cap) ==> RowOf(product, s.title, r)
  {
    if s.comments.Some? {
      CommentRowsExactly(product, s.title, Prefix(s.comments.value, cap));
    }
  }

  /** `handle_submission`'s de-duplication over a run of submissions: which
      are handled, and the `seen_ids` afterwards. A falsy id is neither
      checked nor recorded. */
  function Dedup(subs: seq<Submission>, seen: set<string>): (r: (seq<Submission>, set<string>))
    ensures |r.0| <= |subs|
    ensures seen <= r.1
  {
    if subs == [] then ([], seen)
    else
      var s := subs[0];
      if s.id != [] && s.id in seen then Dedup(subs[1..], seen)
      else
        var rest := Dedup(subs[1..], if s.id != [] then seen + {s.id} else seen);
        ([s] + rest.0, rest.1)
  }

  function Ids(subs: seq<Submission>): set<string> {
    set i | 0 <= i < |subs| && subs[i].id != [] :: subs[i].id
  }

  /** The submissions with a falsy id, in order. */
  function Anonymous(subs: seq<Submission>): seq<Submission> {
    if subs == [] then []
    else (if subs[0].id == [] then [subs[0]] else []) + Anonymous(subs[1..])
  }

  /** De-duplication handles no id twice nor any id seen before; it drops no
      submission with a falsy id; every submission it drops has an id seen
      before or earlier in the run; and it records every id of the run. */
  lemma {:induction false} DedupSpec(subs: seq<Submission>, seen: set<string>)
    ensures var (handled, seen') := Dedup(subs, seen);
            && (forall i, j :: 0 <= i < j < |handled| && handled[i].id != [] ==> handled[i].id != handled[j].id)
            && (forall i :: 0 <= i < |handled| && handled[i].id != [] ==> handled[i].id !in seen)
            && Anonymous(handled) == Anonymous(subs)
            && (forall s :: s in subs && s !in handled ==> s.id != [] && s.id in seen + Ids(subs))
            && (forall s :: s in handled ==> s in subs)
            && seen' == seen + Ids(subs)
  {
    DedupRecords(subs, seen);
    DedupFresh(subs, seen);
    DedupKeeps(subs, seen);
    DedupDrops(subs, seen);
  }

  lemma IdsCons(subs: seq<Submission>)
    requires subs != []
    ensures Ids(subs) == (if subs[0].id != [] then {subs[0].id} else {}) + Ids(subs[1..])
  {
    var s := subs[0];
    var tail := subs[1..];
    forall x | x in Ids(subs) ensures x in (if s.id != [] then {s.id} else {}) + Ids(tail) {
      var i :| 0 <= i < |subs| && subs[i].id != [] && subs[i].id == x;
      if i > 0 { assert tail[i - 1] == subs[i]; }
    }
    forall x | x in Ids(tail) ensures x in Ids(subs) {
      var i :| 0 <= i < |tail| && tail[i].id != [] && tail[i].id == x;
      assert subs[i + 1] == tail[i];
    }
  }

  /** Every id of the run is recorded. */
  lemma {:induction false} DedupRecords(subs: seq<Submission>, seen: set<string>)
    ensures Dedup(subs, seen).1 == seen + Ids(subs)
  {
    if subs != [] {
      var s := subs[0];
      IdsCons(subs);
      if s.id != [] && s.id in seen {
        DedupRecords(subs[1..], seen);
      } else {
        DedupRecords(subs[1..], if s.id != [] then seen + {s.id} else seen);
      }
    }
  }

  /** No id of `handled` occurs twice or was seen before. */
  predicate FreshIds(handled: seq<Submission>, seen: set<string>) {
    && (forall i, j :: 0 <= i < j < |handled| && handled[i].id != [] ==> handled[i].id != handled[j].id)
    && (forall i :: 0 <= i < |handled| && handled[i].id != [] ==> handled[i].id !in seen)
  }

  /** No id is handled twice, nor one seen before. */
  lemma {:induction false} DedupFresh(subs: seq<Submission>, seen: set<string>)
    ensures FreshIds(Dedup(subs, seen).0, seen)
  {
    if subs != [] {
      var s := subs[0];
      var tail := subs[1..];
      if s.id != [] && s.id in seen {
        DedupFresh(tail, seen);
      } else {
        var seen1 := if s.id != [] then seen + {s.id} else seen;
        DedupFresh(tail, seen1);
        var rest := Dedup(tail, seen1).0;
        var handled := [s] + rest;
        assert Dedup(subs, seen).0 == handled;
        assert FreshIds(rest, seen1);
        forall i, j | 0 <= i < j < |handled| && handled[i].id != []
          ensures handled[i].id != handled[j].id
        {
          if i == 0 {
            assert handled[j] == rest[j - 1];
          } else {
            assert handled[i] == rest[i - 1] && handled[j] == rest[j - 1];
          }
        }
        forall i | 0 <= i < |handled| && handled[i].id != []
          ensures handled[i].id !in seen
        {
          if i > 0 {
            assert handled[i] == rest[i - 1];
          }
        }
      }
    }
  }

  /** Anonymous submissions are all handled, in order, and nothing is
      handled that was not submitted. */
  lemma {:induction false} DedupKeeps(subs: seq<Submission>, seen: set<string>)
    ensures var handled := Dedup(subs, seen).0;
            && Anonymous(handled) == Anonymous(subs)
            && (forall s :: s in handled ==> s in subs)
  {
    if subs != [] {
      var s := subs[0];
      var tail := subs[1..];
      if s.id != [] && s.id in seen {
        DedupKeeps(tail, seen);
      } else {
        var seen1 := if s.id != [] then seen + {s.id} else seen;
        DedupKeeps(tail, seen1);
        var rest := Dedup(tail, seen1).0;
        assert Dedup(subs, seen).0 == [s] + rest;
        assert ([s] + rest)[0] == s && ([s] + rest)[1..] == rest;
      }
    }
  }

  /** A submission is dropped only for an id seen before or earlier in the
      run. */
  lemma {:induction false} DedupDrops(subs: seq<Submission>, seen: set<string>)
    ensures var handled := Dedup(subs, seen).0;
            forall s :: s in subs && s !in handled ==> s.id != [] && s.id in seen + Ids(subs)
  {
    if subs != [] {
      var s := subs[0];
      var tail := subs[1..];
      IdsCons(subs);
      var seen1 := if s.id != [] && s.id !in seen then seen + {s.id} else seen;
      DedupDrops(tail, seen1);
      var handled := Dedup(subs, seen).0;
      forall x | x in subs && x !in handled
        ensures x.id != [] && x.id in seen + Ids(subs)
      {
        if x != s {
          assert x in tail;
        }
      }
    }
  }

  /** The two passes share `seen_ids`: de-duplicating them one after the
      other is de-duplicating their concatenation. */
  lemma {:induction false} DedupAppend(a: seq<Submission>, b: seq<Submission>, seen: set<string>)
    ensures var first := Dedup(a, seen);
            var second := Dedup(b, first.1);
            Dedup(a + b, seen) == (first.0 + second.0, second.1)
  {
    if a == [] {
      assert a + b == b;
      assert [] + Dedup(b, seen).0 == Dedup(b, seen).0;
    } else {
      assert (a + b)[0] == a[0];
      assert (a + b)[1..] == a[1..] + b;
      var s := a[0];
      if s.id != [] && s.id in seen {
        DedupAppend(a[1..], b, seen);
      } else {
        var seen1 := if s.id != [] then seen + {s.id} else seen;
        DedupAppend(a[1..], b, seen1);
        var restA := Dedup(a[1..], seen1);
        var restB := Dedup(b, restA.1);
        assert Dedup(a, seen) == ([s] + restA.0, restA.1);
        assert Dedup(a + b, seen) == ([s] + (restA.0 + restB.0), restB.1);
        assert [s] + (restA.0 + restB.0) == ([s] + restA.0) + restB.0;
      }
    }
  }

  /** The submissions `_fetch_sync` handles: the top pass, then (unless the
      top pass raised) the most-commented pass, at most five each. */
  function PassSubmissions(top: Listing<Submission>, commented: Listing<Submission>): seq<Submission> {
    Taken(top, FetchPassLimit)
    + (if StopsRaising(top, FetchPassLimit) then [] else Taken(commented, FetchPassLimit))
  }

  function RowsOfAll(product: string, subs: seq<Submission>, cap: int): seq<Dict> {
    FlatMap(subs, s => SubmissionRows(product, s, cap))
  }

  /** `get_comments_for_product`: search the target subreddit by top and then
      by most comments, handle each new submission once, and collect the
      rows of its first `cap` comments that have a body. */
  function GetCommentsForProduct(product: string, subredditName: Option<string>,
                                 search: (string, string, Sort) -> Listing<Submission>, cap: int): (r: seq<Dict>)
    ensures cap >= 0 ==> |r| <= 2 * FetchPassLimit * cap
    ensures cap >= 0 ==> forall i :: 0 <= i < |r| ==> ProductRow(product, r[i])
  {
    var target := TargetSubreddit(subredditName);
    var top := search(target, product, Top);
    var commented := search(target, product, MostCommented);
    var handledTop := Dedup(Taken(top, FetchPassLimit), {});
    var rows := RowsOfAll(product, handledTop.0, cap);
    var handledMore := Dedup(Taken(commented, FetchPassLimit), handledTop.1).0;
    var more := RowsOfAll(product, handledMore, cap);
    PassRows(product, handledTop.0, cap);
    PassRows(product, handledMore, cap);
    if StopsRaising(top, FetchPassLimit) then rows
    else rows + more
  }

  /** A row of the product from some thread. */
  ghost predicate ProductRow(product: string, r: Dict) {
    exists title :: RowOf(product, title, r)
  }

  /** The rows of one pass: at most `cap` per submission, five submissions. */
  lemma PassRows(product: string, subs: seq<Submission>, cap: int)
    ensures cap >= 0 && |subs| <= FetchPassLimit ==> |RowsOfAll(product, subs, cap)| <= FetchPassLimit * cap
    ensures cap >= 0 ==> forall i :: 0 <= i < |RowsOfAll(product, subs, cap)| ==>
                           ProductRow(product, RowsOfAll(product, subs, cap)[i])
  {
    if cap >= 0 {
      var rows := RowsOfAll(product, subs, cap);
      RowsOfAllShape(product, subs, cap);
      if |subs| <= FetchPassLimit {
        assert cap * |subs| <= cap * FetchPassLimit by { MulMono(cap, |subs|, FetchPassLimit); }
      }
      forall i | 0 <= i < |rows| ensures ProductRow(product, rows[i]) {
        assert rows[i] in rows;
        var k :| 0 <= k < |subs| && RowOf(product, subs[k].title, rows[i]);
      }
    }
  }

  lemma MulMono(a: nat, b: nat, c: nat)
    requires b <= c
    ensures a * b <= a * c
  {
  }

  lemma RowsOfAllShape(product: string, subs: seq<Submission>, cap: int)
    requires cap >= 0
    ensures |RowsOfAll(product, subs, cap)| <= cap * |subs|
    ensures forall r :: r in RowsOfAll(product, subs, cap) ==>
              exists i :: 0 <= i < |subs| && RowOf(product, subs[i].title, r)
  {
    var f := s => SubmissionRows(product, s, cap);
    forall i | 0 <= i < |subs| ensures |f(subs[i])| <= cap {
      SubmissionRowsBound(product, subs[i], cap);
    }
    FlatMapBound(subs, f, cap);
    forall r | r in RowsOfAll(product, subs, cap)
      ensures exists i :: 0 <= i < |subs| && RowOf(product, subs[i].title, r)
    {
      FlatMapMembers(subs, f, r);
      var i :| 0 <= i < |subs| && r in f(subs[i]);
      SubmissionRowsBound(product, subs[i], cap);
    }
  }

  /** The fetch is the rows of the de-duplicated submissions of both passes:
      no submission id is handled twice across the passes, falsy ids are
      never de-duplicated, at most ten submissions and `cap` rows per
      submission are taken, and every row names the product, its brand and a
      handled submission's title. */
  lemma GetCommentsForProductSpec(product: string, subredditName: Option<string>,
                                  search: (string, string, Sort) -> Listing<Submission>, cap: int)
    requires cap >= 0
    ensures var target := TargetSubreddit(subredditName);
            var subs := PassSubmissions(search(target, product, Top), search(target, product, MostCommented));
            var handled := Dedup(subs, {}).0;
            var rows := GetCommentsForProduct(product, subredditName, search, cap);
            && rows == RowsOfAll(product, handled, cap)
            && |subs| <= 2 * FetchPassLimit
            && (forall i, j :: 0 <= i < j < |handled| && handled[i].id != [] ==> handled[i].id != handled[j].id)
            && Anonymous(handled) == Anonymous(subs)
            && |rows| <= cap * |handled|
            && forall r :: r in rows ==> exists i :: 0 <= i < |handled| && RowOf(product, handled[i].title, r)
  {
    var target := TargetSubreddit(subredditName);
    var top := search(target, product, Top);
    var commented := search(target, product, MostCommented);
    var a := Taken(top, FetchPassLimit);
    var b := if StopsRaising(top, FetchPassLimit) then [] else Taken(commented, FetchPassLimit);
    DedupAppend(a, b, {});
    var first := Dedup(a, {});
    if StopsRaising(top, FetchPassLimit) {
      assert a + b == a;
      assert Dedup(b, first.1).0 == [];
      assert first.0 + [] == first.0;
    } else {
      FlatMapAppend(first.0, Dedup(b, first.1).0, s => SubmissionRows(product, s, cap));
    }
    var subs := a + b;
    DedupSpec(subs, {});
    RowsOfAllShape(product, Dedup(subs, {}).0, cap);
  }

  /** Without a subreddit the fetch searches r/all. */
  lemma DefaultsToAll(product: string, search: (string, string, Sort) -> Listing<Submission>, cap: int)
    ensures GetCommentsForProduct(product, None, search, cap) == GetCommentsForProduct(product, Some("all"), search, cap)
    ensures GetCommentsForProduct(product, Some(""), search, cap) == GetCommentsForProduct(product, Some("all"), search, cap)
  {
  }
}
