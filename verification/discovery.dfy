/**
 * `ChannelDiscoveryService.discover_reddit` and its inner helpers: response
 * unwrapping, subreddit-name resolution, the recency filter, the gateway
 * fallback, and the two measuring passes feeding the channel accumulator.
 *
 * The tool gateway is an oracle `gw: Call -> Option<Json>`: `None` stands
 * for a call that raised. The language-model suggestions are the raw reply
 * outcomes parsed by `Alias`. The clock enters as `now`, from which
 * `Earliest` derives `earliest`, the epoch-seconds threshold of the recency
 * filter.
 */
module Discovery {
  import opened PyText
  import opened Json
  import opened Channels
  import Alias

  /** `(suggested_subs or [])[:20]` and `(suggested_queries or [])[:5]`. */
  const SubredditsConsulted: int := 20
  const QueriesConsulted: int := 5

  /** The fallback search term when the first product name is empty. */
  const NeutralQueryDefault: string := "*"

  /** `DISCOVERY_LOOKBACK_DAYS`, floored at one day, before `now`. */
  function Earliest(now: real, lookbackDays: int): (e: real)
    ensures e == now - (if lookbackDays > 1 then lookbackDays else 1) as real * 86400.0
    ensures e <= now - 86400.0
  {
    now - (if lookbackDays > 1 then lookbackDays else 1) as real * 86400.0
  }

  // ---------------------------------------------------------------------------
  // extract_submissions

  /** The dict elements of a list, in order. */
  function DictsOf(items: seq<Json>): (r: seq<Dict>)
    ensures |r| <= |items|
  {
    if items == [] then []
    else (if items[0].JObj? then [items[0].fields] else []) + DictsOf(items[1..])
  }

  lemma {:induction false} DictsOfMembers(items: seq<Json>, d: Dict)
    ensures d in DictsOf(items) <==> JObj(d) in items
  {
    if items != [] {
      DictsOfMembers(items[1..], d);
      assert items == [items[0]] + items[1..];
    }
  }

  lemma DictsOfMembersAll(items: seq<Json>)
    ensures forall d :: d in DictsOf(items) <==> JObj(d) in items
  {
    forall d ensures d in DictsOf(items) <==> JObj(d) in items {
      DictsOfMembers(items, d);
    }
  }

  function Child(m: Dict, key: string): seq<Json> {
    if key in m then [m[key]] else []
  }

  /** What a dict puts on the queue: its values under `items`, `results`,
      `data`, `submissions` and `value`, in that order. */
  function Children(m: Dict): seq<Json> {
    Child(m, "items") + Child(m, "results") + Child(m, "data")
    + Child(m, "submissions") + Child(m, "value")
  }

  /** A termination measure for the queue: a dict weighs one more than the
      values it enqueues; anything else weighs one. */
  function Weight(v: Json): nat {
    match v
    case JObj(m) =>
      1 + (if "items" in m then Weight(m["items"]) else 0)
        + (if "results" in m then Weight(m["results"]) else 0)
        + (if "data" in m then Weight(m["data"]) else 0)
        + (if "submissions" in m then Weight(m["submissions"]) else 0)
        + (if "value" in m then Weight(m["value"]) else 0)
    case _ => 1
  }

  function SumWeight(q: seq<Json>): nat {
    if q == [] then 0 else Weight(q[0]) + SumWeight(q[1..])
  }

  lemma {:induction false} SumWeightAppend(a: seq<Json>, b: seq<Json>)
    ensures SumWeight(a + b) == SumWeight(a) + SumWeight(b)
  {
    if a == [] {
      assert a + b == b;
    } else {
      SumWeightAppend(a[1..], b);
      assert (a + b)[1..] == a[1..] + b;
    }
  }

  lemma ChildWeight(m: Dict, key: string)
    ensures SumWeight(Child(m, key)) == if key in m then Weight(m[key]) else 0
  {
    if key in m {
      assert Child(m, key)[1..] == [];
    }
  }

  lemma ChildrenWeight(m: Dict)
    ensures SumWeight(Children(m)) + 1 == Weight(JObj(m))
  {
    var a := Child(m, "items");
    var b := Child(m, "results");
    var c := Child(m, "data");
    var d := Child(m, "submissions");
    var e := Child(m, "value");
    SumWeightAppend(a, b);
    SumWeightAppend(a + b, c);
    SumWeightAppend(a + b + c, d);
    SumWeightAppend(a + b + c + d, e);
    ChildWeight(m, "items");
    ChildWeight(m, "results");
    ChildWeight(m, "data");
    ChildWeight(m, "submissions");
    ChildWeight(m, "value");
  }

  /** The next breadth-first level: the children of the dicts of this one. */
  function Next(level: seq<Json>): seq<Json> {
    if level == [] then []
    else (if level[0].JObj? then Children(level[0].fields) else []) + Next(level[1..])
  }

  /** The first list of a level, if any. */
  function FirstList(level: seq<Json>): Option<seq<Json>> {
    if level == [] then None
    else if level[0].JArr? then Some(level[0].items)
    else FirstList(level[1..])
  }

  lemma {:induction false} NextWeight(level: seq<Json>)
    ensures SumWeight(Next(level)) + |level| == SumWeight(level)
  {
    if level != [] {
      NextWeight(level[1..]);
      var head := if level[0].JObj? then Children(level[0].fields) else [];
      SumWeightAppend(head, Next(level[1..]));
      if level[0].JObj? {
        ChildrenWeight(level[0].fields);
      }
    }
  }

  lemma {:induction false} NextAppend(a: seq<Json>, b: seq<Json>)
    ensures Next(a + b) == Next(a) + Next(b)
  {
    if a == [] {
      assert a + b == b;
    } else {
      NextAppend(a[1..], b);
      assert (a + b)[1..] == a[1..] + b;
    }
  }

  lemma {:induction false} FirstListAppend(a: seq<Json>, b: seq<Json>)
    requires FirstList(a) == None
    ensures FirstList(a + b) == FirstList(b)
  {
    if a == [] {
      assert a + b == b;
    } else {
      FirstListAppend(a[1..], b);
      assert (a + b)[1..] == a[1..] + b;
    }
  }

  /** The reference breadth-first search, one level at a time: the dicts of
      the first list on the shallowest level that has one. */
  function Search(level: seq<Json>): seq<Dict>
    decreases SumWeight(level)
  {
    if level == [] then []
    else
      match FirstList(level)
      case Some(items) => DictsOf(items)
      case None => NextWeight(level); Search(Next(level))
  }

  /** `extract_submissions`: a bare list gives its dicts; a dict is searched
      breadth-first under the known keys; anything else gives nothing. */
  function ExtractSubmissions(payload: Json): (r: seq<Dict>)
    ensures payload.JArr? ==> forall d :: d in r <==> JObj(d) in payload.items
    ensures !payload.JArr? && !payload.JObj? ==> r == []
  {
    DictsOfMembersAll(if payload.JArr? then payload.items else []);
    match payload
    case JArr(items) => DictsOf(items)
    case JObj(_) => Search([payload])
    case _ => []
  }

  /** `extract_submissions` as the source writes it, with an explicit FIFO
      queue; it computes the level-by-level search. */
  method ExtractSubmissionsQueue(payload: Json) returns (r: seq<Dict>)
    ensures r == ExtractSubmissions(payload)
  {
    if payload.JArr? {
      return DictsOf(payload.items);
    }
    if !payload.JObj? {
      return [];
    }
    var queue := [payload];
    ghost var level := [payload];
    ghost var i := 0;
    assert level[..0] == [] && level[0..] == level;
    while queue != []
      invariant i <= |level|
      invariant queue == level[i..] + Next(level[..i])
      invariant FirstList(level[..i]) == None
      invariant Search(level) == ExtractSubmissions(payload)
      decreases SumWeight(queue)
    {
      if i == |level| {
        level := NextLevel(level, queue);
        i := 0;
      }
      var current := queue[0];
      assert current == level[i];
      if current.JArr? {
        QueueFindsList(level, i);
        return DictsOf(current.items);
      }
      var children := if current.JObj? then Children(current.fields) else [];
      QueueStep(level, i, queue, children);
      queue := queue[1..] + children;
      i := i + 1;
    }
    assert level[..i] == level;
    r := [];
  }

  /** The queue has drained one whole level without meeting a list: the
      next level is what remains, and the search continues there. */
  lemma NextLevel(level: seq<Json>, queue: seq<Json>) returns (next: seq<Json>)
    requires queue != [] && queue == level[|level|..] + Next(level[..|level|])
    requires FirstList(level[..|level|]) == None
    ensures next == Next(level) && next != [] && queue == next[0..] + Next(next[..0])
    ensures FirstList(next[..0]) == None
    ensures Search(next) == Search(level)
  {
    assert level[..|level|] == level && level[|level|..] == [];
    next := Next(level);
    assert next[..0] == [] && next[0..] == next;
  }

  lemma QueueFindsList(level: seq<Json>, i: nat)
    requires i < |level| && FirstList(level[..i]) == None && level[i].JArr?
    ensures Search(level) == DictsOf(level[i].items)
  {
    assert level == level[..i] + level[i..];
    FirstListAppend(level[..i], level[i..]);
  }

  lemma QueueStep(level: seq<Json>, i: nat, queue: seq<Json>, children: seq<Json>)
    requires i < |level| && queue == level[i..] + Next(level[..i])
    requires FirstList(level[..i]) == None && !level[i].JArr?
    requires children == if level[i].JObj? then Children(level[i].fields) else []
    ensures queue[1..] + children == level[i + 1..] + Next(level[..i + 1])
    ensures FirstList(level[..i + 1]) == None
    ensures SumWeight(queue[1..] + children) < SumWeight(queue)
  {
    QueueShift(level, i, queue, children);
    assert queue[0] == level[i];
    QueueWeight(queue, children);
  }

  lemma QueueShift(level: seq<Json>, i: nat, queue: seq<Json>, children: seq<Json>)
    requires i < |level| && queue == level[i..] + Next(level[..i])
    requires FirstList(level[..i]) == None && !level[i].JArr?
    requires children == if level[i].JObj? then Children(level[i].fields) else []
    ensures queue[1..] + children == level[i + 1..] + Next(level[..i + 1])
    ensures FirstList(level[..i + 1]) == None
  {
    assert level[i..] == [level[i]] + level[i + 1..];
    assert queue[1..] == level[i + 1..] + Next(level[..i]);
    assert level[..i + 1] == level[..i] + [level[i]];
    NextAppend(level[..i], [level[i]]);
    FirstListAppend(level[..i], [level[i]]);
    NextOfOne(level[i]);
    AppendAssoc(level[i + 1..], Next(level[..i]), children);
  }

  lemma NextOfOne(v: Json)
    ensures Next([v]) == if v.JObj? then Children(v.fields) else []
  {
    assert [v][1..] == [];
  }

  lemma QueueWeight(queue: seq<Json>, children: seq<Json>)
    requires queue != [] && !queue[0].JArr?
    requires children == if queue[0].JObj? then Children(queue[0].fields) else []
    ensures SumWeight(queue[1..] + children) < SumWeight(queue)
  {
    SumWeightAppend(queue[1..], children);
    if queue[0].JObj? {
      ChildrenWeight(queue[0].fields);
    }
  }

  // ---------------------------------------------------------------------------
  // resolve_subreddit_name, created_after_threshold, bump

  /** `resolve_subreddit_name`: the subreddit dict's `display_name or name or
      id` when that is a non-empty string, else a non-empty `subreddit`
      string, else a non-empty fallback. */
  function ResolveSubredditName(sub: Dict, fallback: Option<string>): (r: Option<string>)
    ensures r.Some? ==> r.value != []
    ensures fallback.Some? && fallback.value != [] ==> r.Some?
    ensures Get(sub, "subreddit").JStr? && Get(sub, "subreddit").s != [] ==> r == Some(Get(sub, "subreddit").s)
  {
    var subreddit := Get(sub, "subreddit");
    var fromDict :=
      if subreddit.JObj? then
        var f := subreddit.fields;
        var name := Or(Or(Get(f, "display_name"), Get(f, "name")), Get(f, "id"));
        if name.JStr? && name.s != [] then Some(name.s) else None
      else None;
    if fromDict.Some? then fromDict
    else if subreddit.JStr? && subreddit.s != [] then Some(subreddit.s)
    else if fallback.Some? && fallback.value != [] then fallback
    else None
  }

  /** Precedence inside a subreddit dict: `display_name` first, `name` only
      when `display_name` is falsy, `id` only when both are; a truthy
      non-string winner hides the others and defers to the fallback. */
  lemma NamePrecedence(f: Dict, fallback: Option<string>)
    ensures var sub := map["subreddit" := JObj(f)];
            var dn := Get(f, "display_name");
            var nm := Get(f, "name");
            var id := Get(f, "id");
            && (dn.JStr? && dn.s != [] ==> ResolveSubredditName(sub, fallback) == Some(dn.s))
            && (!Truthy(dn) && nm.JStr? && nm.s != [] ==> ResolveSubredditName(sub, fallback) == Some(nm.s))
            && (!Truthy(dn) && !Truthy(nm) && id.JStr? && id.s != [] ==> ResolveSubredditName(sub, fallback) == Some(id.s))
            && (Truthy(dn) && !dn.JStr? ==>
                  ResolveSubredditName(sub, fallback) == (if fallback.Some? && fallback.value != [] then fallback else None))
  {
  }

  /** Without a fallback (the query pass), a submission whose subreddit
      gives no name resolves to nothing and is not folded. */
  lemma NoNameWithoutFallback(sub: Dict)
    requires !Get(sub, "subreddit").JObj? && !Get(sub, "subreddit").JStr?
    ensures ResolveSubredditName(sub, None) == None
    ensures ResolveSubredditName(sub, Some("")) == None
  {
  }

  /** `created_utc or created`. */
  function CreatedValue(sub: Dict): Json {
    Or(Get(sub, "created_utc"), Get(sub, "created"))
  }

  /** `created_after_threshold`: keep a submission with no or unparseable
      timestamp, else only one at or after `earliest`. */
  function CreatedAfterThreshold(sub: Dict, earliest: real): (ok: bool)
    ensures !ok <==> PyFloat(CreatedValue(sub)).Some? && PyFloat(CreatedValue(sub)).value < earliest
  {
    var created := CreatedValue(sub);
    if created == JNull then true
    else
      match PyFloat(created)
      case None => true
      case Some(t) => t >= earliest
  }

  /** A falsy `created_utc` defers to `created`, even a zero one. */
  lemma CreatedFallsBack(utc: Json, created: Json, earliest: real)
    requires !Truthy(utc)
    ensures CreatedAfterThreshold(map["created_utc" := utc, "created" := created], earliest)
            == CreatedAfterThreshold(map["created" := created], earliest)
  {
  }

  /** `as_float(submission.get("score", 0))`. */
  function SubmissionScore(sub: Dict): real {
    AsFloat(Get(sub, "score"))
  }

  /** `as_int(submission.get("num_comments", submission.get("comments", 0)))`:
      a present `num_comments` wins even when it is null. */
  function CommentCount(sub: Dict): int {
    AsInt(if "num_comments" in sub then sub["num_comments"] else Get(sub, "comments"))
  }

  /** Unparseable numbers count as zero. */
  lemma BadNumbersCountZero(sub: Dict)
    ensures PyFloat(Get(sub, "score")).None? ==> SubmissionScore(sub) == 0.0
    ensures "num_comments" in sub && PyInt(sub["num_comments"]).None? ==> CommentCount(sub) == 0
    ensures "num_comments" !in sub && PyInt(Get(sub, "comments")).None? ==> CommentCount(sub) == 0
  {
  }

  /** `bump(aggregated, subreddit, submission)`. */
  function DiscoveryBump(acc: seq<Tally>, name: string, sub: Dict): (r: seq<Tally>)
    requires UniqueIds(acc)
    ensures UniqueIds(r)
    ensures !HasChannel(acc, name) ==>
              r == acc + [Tally("reddit", name, "r/" + name, 1, SubmissionScore(sub), CommentCount(sub))]
    ensures |r| >= |acc|
    ensures forall i :: 0 <= i < |acc| && acc[i].channelId == name ==>
              && r[i].mentions == acc[i].mentions + 1
              && r[i].scoreSum == acc[i].scoreSum + SubmissionScore(sub)
              && r[i].comments == acc[i].comments + CommentCount(sub)
    ensures forall i :: 0 <= i < |acc| && acc[i].channelId != name ==> r[i] == acc[i]
  {
    Bump(acc, Mention(name, SubmissionScore(sub), CommentCount(sub)))
  }

  /** A submission is folded when it resolves to a name and passes the
      recency filter. */
  predicate Accepted(sub: Dict, fallback: Option<string>, earliest: real) {
    ResolveSubredditName(sub, fallback).Some? && CreatedAfterThreshold(sub, earliest)
  }

  function MentionFor(sub: Dict, name: string): Mention {
    Mention(name, SubmissionScore(sub), CommentCount(sub))
  }

  /** The mentions one batch of submissions contributes, in order. */
  function MentionsOf(subs: seq<Dict>, fallback: Option<string>, earliest: real): (r: seq<Mention>)
    ensures |r| <= |subs|
  {
    if subs == [] then []
    else
      var s := subs[0];
      (if Accepted(s, fallback, earliest) then [MentionFor(s, ResolveSubredditName(s, fallback).value)] else [])
      + MentionsOf(subs[1..], fallback, earliest)
  }

  /** Every accepted submission is credited to its resolved name, and every
      mention comes from an accepted submission. */
  lemma {:induction false} MentionsOfExactly(subs: seq<Dict>, fallback: Option<string>, earliest: real)
    ensures forall i :: 0 <= i < |subs| && Accepted(subs[i], fallback, earliest) ==>
              MentionFor(subs[i], ResolveSubredditName(subs[i], fallback).value) in MentionsOf(subs, fallback, earliest)
    ensures forall m :: m in MentionsOf(subs, fallback, earliest) ==>
              exists i :: 0 <= i < |subs| && Accepted(subs[i], fallback, earliest)
                          && m == MentionFor(subs[i], ResolveSubredditName(subs[i], fallback).value)
  {
    if subs != [] {
      var tail := subs[1..];
      MentionsOfExactly(tail, fallback, earliest);
      forall i | 0 <= i < |subs| && Accepted(subs[i], fallback, earliest)
        ensures MentionFor(subs[i], ResolveSubredditName(subs[i], fallback).value) in MentionsOf(subs, fallback, earliest)
      {
        if i > 0 {
          assert subs[i] == tail[i - 1];
        }
      }
      forall m | m in MentionsOf(subs, fallback, earliest)
        ensures exists i :: 0 <= i < |subs| && Accepted(subs[i], fallback, earliest)
                            && m == MentionFor(subs[i], ResolveSubredditName(subs[i], fallback).value)
      {
        if m in MentionsOf(tail, fallback, earliest) {
          var j :| 0 <= j < |tail| && Accepted(tail[j], fallback, earliest)
                   && m == MentionFor(tail[j], ResolveSubredditName(tail[j], fallback).value);
          assert subs[j + 1] == tail[j];
        } else {
          assert Accepted(subs[0], fallback, earliest);
        }
      }
    }
  }

  // ---------------------------------------------------------------------------
  // fetch_submissions and measure_sync

  /** A gateway request: the `list_new` action, or `search` with a query
      (sorted by new, past week). */
  datatype Call = ListNew(subreddit: string) | SearchPosts(subreddit: string, query: string)

  /** `fetch_submissions`: the unwrapped result of the first action that does
      not raise, or nothing when all raise. */
  function FetchSubmissions(actions: seq<Call>, gw: Call -> Option<Json>): (r: seq<Dict>)
    ensures (forall k :: 0 <= k < |actions| ==> gw(actions[k]).None?) ==> r == []
    ensures actions != [] && gw(actions[0]).Some? ==> r == ExtractSubmissions(gw(actions[0]).value)
  {
    if actions == [] then []
    else
      match gw(actions[0])
      case Some(resp) => ExtractSubmissions(resp)
      case None => FetchSubmissions(actions[1..], gw)
  }

  /** Recent posts of one suggested subreddit: `list_new`, and the neutral
      search only when that gave nothing. */
  function SubredditSubmissions(sub: string, neutral: string, gw: Call -> Option<Json>): (r: seq<Dict>)
    ensures FetchSubmissions([ListNew(sub)], gw) != [] ==> r == FetchSubmissions([ListNew(sub)], gw)
    ensures FetchSubmissions([ListNew(sub)], gw) == [] ==> r == FetchSubmissions([SearchPosts(sub, neutral)], gw)
  {
    var listed := FetchSubmissions([ListNew(sub)], gw);
    if listed != [] then listed else FetchSubmissions([SearchPosts(sub, neutral)], gw)
  }

  /** The first pass: each suggested subreddit, credited as fallback name. */
  function SubredditPass(subs: seq<string>, neutral: string, gw: Call -> Option<Json>, earliest: real): seq<Mention> {
    if subs == [] then []
    else MentionsOf(SubredditSubmissions(subs[0], neutral, gw), Some(subs[0]), earliest)
         + SubredditPass(subs[1..], neutral, gw, earliest)
  }

  /** The second pass: each suggested query searched across r/all, with no
      fallback name. */
  function QueryPass(queries: seq<string>, gw: Call -> Option<Json>, earliest: real): seq<Mention> {
    if queries == [] then []
    else MentionsOf(FetchSubmissions([SearchPosts("all", queries[0])], gw), None, earliest)
         + QueryPass(queries[1..], gw, earliest)
  }

  /** All mentions of one discovery run, in fold order. */
  function RunMentions(subs: seq<string>, queries: seq<string>, neutral: string,
                       gw: Call -> Option<Json>, earliest: real): seq<Mention> {
    SubredditPass(Prefix(subs, SubredditsConsulted), neutral, gw, earliest)
    + QueryPass(Prefix(queries, QueriesConsulted), gw, earliest)
  }

  /** `measure_sync`: ranked by composite score, at most `maxResults`
      channels, each measured over the mentions of the run. */
  function MeasureSync(subs: seq<string>, queries: seq<string>, neutral: string,
                       gw: Call -> Option<Json>, earliest: real, maxResults: int): (r: seq<Channel>)
    ensures Ranking.SortedDesc(r, ScoreOf)
    ensures maxResults >= 0 ==> |r| <= maxResults
    ensures forall c :: c in r ==> Measured(RunMentions(subs, queries, neutral, gw, earliest), c)
  {
    var ms := RunMentions(subs, queries, neutral, gw, earliest);
    RankProperties(Fold(ms), maxResults);
    RankMeasured(ms, maxResults);
    Rank(Fold(ms), maxResults)
  }

  /** The calls made for one subreddit. */
  function SubredditHead(sub: string, neutral: string, gw: Call -> Option<Json>): seq<Call> {
    if FetchSubmissions([ListNew(sub)], gw) != [] then [ListNew(sub)]
    else [ListNew(sub), SearchPosts(sub, neutral)]
  }

  /** The gateway calls one run makes, in order. */
  function SubredditCalls(subs: seq<string>, neutral: string, gw: Call -> Option<Json>): seq<Call> {
    if subs == [] then []
    else SubredditHead(subs[0], neutral, gw) + SubredditCalls(subs[1..], neutral, gw)
  }

  function QueryCalls(queries: seq<string>): seq<Call> {
    if queries == [] then [] else [SearchPosts("all", queries[0])] + QueryCalls(queries[1..])
  }

  function RunCalls(subs: seq<string>, queries: seq<string>, neutral: string, gw: Call -> Option<Json>): seq<Call> {
    SubredditCalls(Prefix(subs, SubredditsConsulted), neutral, gw) + QueryCalls(Prefix(queries, QueriesConsulted))
  }

  /** At most 20 subreddits (each at most twice) and 5 queries reach the
      gateway. */
  lemma {:induction false} CallBudget(subs: seq<string>, queries: seq<string>, neutral: string, gw: Call -> Option<Json>)
    ensures |RunCalls(subs, queries, neutral, gw)| <= 2 * SubredditsConsulted + QueriesConsulted
  {
    SubredditCallsLength(Prefix(subs, SubredditsConsulted), neutral, gw);
    QueryCallsLength(Prefix(queries, QueriesConsulted));
  }

  lemma {:induction false} SubredditCallsLength(subs: seq<string>, neutral: string, gw: Call -> Option<Json>)
    ensures |SubredditCalls(subs, neutral, gw)| <= 2 * |subs|
  {
    if subs != [] {
      SubredditCallsLength(subs[1..], neutral, gw);
    }
  }

  lemma {:induction false} QueryCallsLength(queries: seq<string>)
    ensures |QueryCalls(queries)| == |queries|
  {
    if queries != [] {
      QueryCallsLength(queries[1..]);
    }
  }

  predicate AgreeOn(calls: seq<Call>, gw1: Call -> Option<Json>, gw2: Call -> Option<Json>) {
    forall k :: 0 <= k < |calls| ==> gw1(calls[k]) == gw2(calls[k])
  }

  lemma {:induction false} SubredditPassDependsOnCalls(subs: seq<string>, neutral: string, earliest: real,
                                                      gw1: Call -> Option<Json>, gw2: Call -> Option<Json>)
    requires AgreeOn(SubredditCalls(subs, neutral, gw1), gw1, gw2)
    ensures SubredditPass(subs, neutral, gw1, earliest) == SubredditPass(subs, neutral, gw2, earliest)
    ensures SubredditCalls(subs, neutral, gw1) == SubredditCalls(subs, neutral, gw2)
  {
    if subs != [] {
      var sub := subs[0];
      var calls := SubredditCalls(subs, neutral, gw1);
      var head := SubredditHead(sub, neutral, gw1);
      var tail := SubredditCalls(subs[1..], neutral, gw1);
      assert calls == head + tail;
      assert AgreeOn(head, gw1, gw2) by {
        forall k | 0 <= k < |head| ensures gw1(head[k]) == gw2(head[k]) {
          assert head[k] == calls[k];
        }
      }
      SubredditHeadAgrees(sub, neutral, gw1, gw2);
      assert AgreeOn(tail, gw1, gw2) by {
        forall k | 0 <= k < |tail| ensures gw1(tail[k]) == gw2(tail[k]) {
          assert tail[k] == calls[|head| + k];
        }
      }
      SubredditPassDependsOnCalls(subs[1..], neutral, earliest, gw1, gw2);
    }
  }

  lemma SubredditHeadAgrees(sub: string, neutral: string, gw1: Call -> Option<Json>, gw2: Call -> Option<Json>)
    requires AgreeOn(SubredditHead(sub, neutral, gw1), gw1, gw2)
    ensures SubredditHead(sub, neutral, gw1) == SubredditHead(sub, neutral, gw2)
    ensures SubredditSubmissions(sub, neutral, gw1) == SubredditSubmissions(sub, neutral, gw2)
  {
    var head := SubredditHead(sub, neutral, gw1);
    assert gw1(ListNew(sub)) == gw2(ListNew(sub)) by { assert head[0] == ListNew(sub); }
    if FetchSubmissions([ListNew(sub)], gw1) == [] {
      assert gw1(SearchPosts(sub, neutral)) == gw2(SearchPosts(sub, neutral)) by { assert head[1] == SearchPosts(sub, neutral); }
    }
  }

  lemma {:induction false} QueryPassDependsOnCalls(queries: seq<string>, earliest: real,
                                                  gw1: Call -> Option<Json>, gw2: Call -> Option<Json>)
    requires AgreeOn(QueryCalls(queries), gw1, gw2)
    ensures QueryPass(queries, gw1, earliest) == QueryPass(queries, gw2, earliest)
  {
    if queries != [] {
      var calls := QueryCalls(queries);
      assert calls[0] == SearchPosts("all", queries[0]);
      assert AgreeOn(QueryCalls(queries[1..]), gw1, gw2) by {
        forall k | 0 <= k < |QueryCalls(queries[1..])|
          ensures gw1(QueryCalls(queries[1..])[k]) == gw2(QueryCalls(queries[1..])[k])
        {
          assert QueryCalls(queries[1..])[k] == calls[k + 1];
        }
      }
      QueryPassDependsOnCalls(queries[1..], earliest, gw1, gw2);
    }
  }

  /** The ranking depends on the gateway only through the calls listed by
      `RunCalls`: two gateways that answer those alike give the same result. */
  lemma MeasureSyncDependsOnCalls(subs: seq<string>, queries: seq<string>, neutral: string, earliest: real,
                                  maxResults: int, gw1: Call -> Option<Json>, gw2: Call -> Option<Json>)
    requires AgreeOn(RunCalls(subs, queries, neutral, gw1), gw1, gw2)
    ensures MeasureSync(subs, queries, neutral, gw1, earliest, maxResults)
            == MeasureSync(subs, queries, neutral, gw2, earliest, maxResults)
  {
    var a := SubredditCalls(Prefix(subs, SubredditsConsulted), neutral, gw1);
    var b := QueryCalls(Prefix(queries, QueriesConsulted));
    var all := RunCalls(subs, queries, neutral, gw1);
    assert all == a + b;
    assert AgreeOn(a, gw1, gw2) by {
      forall k | 0 <= k < |a| ensures gw1(a[k]) == gw2(a[k]) { assert a[k] == all[k]; }
    }
    assert AgreeOn(b, gw1, gw2) by {
      forall k | 0 <= k < |b| ensures gw1(b[k]) == gw2(b[k]) { assert b[k] == all[|a| + k]; }
    }
    SubredditPassDependsOnCalls(Prefix(subs, SubredditsConsulted), neutral, earliest, gw1, gw2);
    QueryPassDependsOnCalls(Prefix(queries, QueriesConsulted), earliest, gw1, gw2);
  }

  /** The discovery result: ordered by non-increasing composite score, at
      most `maxResults` long, and every entry carries its subreddit's mention
      count, mean score and comment sum over the run's accepted submissions. */
  lemma MeasureSyncProperties(subs: seq<string>, queries: seq<string>, neutral: string,
                              gw: Call -> Option<Json>, earliest: real, maxResults: int)
    ensures var r := MeasureSync(subs, queries, neutral, gw, earliest, maxResults);
            var ms := RunMentions(subs, queries, neutral, gw, earliest);
            && Ranking.SortedDesc(r, ScoreOf)
            && (maxResults >= 0 ==> |r| <= maxResults)
            && |r| <= |Distinct(ms)|
            && forall c :: c in r ==> Measured(ms, c)
  {
    var ms := RunMentions(subs, queries, neutral, gw, earliest);
    RankProperties(Fold(ms), maxResults);
    FoldClosedForm(ms);
    RankMeasured(ms, maxResults);
  }

  // ---------------------------------------------------------------------------
  // discover_reddit and discover

  /** `(products[0] if products else None) or "*"`. */
  function NeutralQuery(products: seq<string>): (q: string)
    ensures q != []
    ensures |products| > 0 && products[0] != [] ==> q == products[0]
  {
    if |products| > 0 && products[0] != [] then products[0] else NeutralQueryDefault
  }

  /** `discover_reddit`: ask the model for subreddits and queries, return
      nothing when no gateway is configured, else measure with the cut-off
      `Earliest(now, lookbackDays)`. A model call that raises is not caught
      here: the whole call fails (`None`), whether or not a gateway is
      configured, since the suggestions are asked for first. */
  function DiscoverReddit(products: seq<string>, subsReply: Alias.Reply, queriesReply: Alias.Reply,
                          configured: bool, gw: Call -> Option<Json>, now: real, lookbackDays: int,
                          maxResults: int)
    : (r: Option<seq<Channel>>)
    ensures r.None? <==> subsReply.Raised? || queriesReply.Raised?
    ensures r.Some? && !configured ==> r.value == []
    ensures r.Some? && configured ==>
              r.value == MeasureSync(Alias.ParseSubreddits(subsReply.content), Alias.ParseQueries(queriesReply.content),
                                     NeutralQuery(products), gw, Earliest(now, lookbackDays), maxResults)
    ensures r.Some? ==> Ranking.SortedDesc(r.value, ScoreOf)
    ensures r.Some? && maxResults >= 0 ==> |r.value| <= maxResults
  {
    if subsReply.Raised? || queriesReply.Raised? then None
    else if !configured then Some([])
    else
      var subs := Alias.ParseSubreddits(subsReply.content);
      var queries := Alias.ParseQueries(queriesReply.content);
      var earliest := Earliest(now, lookbackDays);
      MeasureSyncProperties(subs, queries, NeutralQuery(products), gw, earliest, maxResults);
      Some(MeasureSync(subs, queries, NeutralQuery(products), gw, earliest, maxResults))
  }

  /** `discover`: one entry per platform; only Reddit is implemented. A
      failure of `discover_reddit` propagates. */
  function Discover(products: seq<string>, subsReply: Alias.Reply, queriesReply: Alias.Reply,
                    configured: bool, gw: Call -> Option<Json>, now: real, lookbackDays: int,
                    maxResults: int)
    : (r: Option<map<string, seq<Channel>>>)
    ensures r.None? <==> subsReply.Raised? || queriesReply.Raised?
    ensures r.Some? ==> r.value.Keys == {"reddit"}
                        && r.value["reddit"] == DiscoverReddit(products, subsReply, queriesReply, configured, gw, now, lookbackDays, maxResults).value
  {
    match DiscoverReddit(products, subsReply, queriesReply, configured, gw, now, lookbackDays, maxResults)
    case None => None
    case Some(channels) => Some(map["reddit" := channels])
  }
}
