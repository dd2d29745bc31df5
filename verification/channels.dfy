/**
 * The per-subreddit accumulator both discovery paths fold submissions into
 * (`bump` in the discovery service, the inline `setdefault` block in the
 * Reddit service), the finalize step that turns the summed score into a
 * mean and computes the composite score, and the ranking that sorts and
 * truncates the result.
 */
module Channels {
  import opened PyText
  import Ranking

  /** The default of `MAX_DISCOVERY_RESULTS`. */
  const DefaultMaxDiscoveryResults: int := 20

  /** One accepted submission: the subreddit it is credited to, its score and
      its comment count, already converted to numbers. */
  datatype Mention = Mention(channel: string, score: real, comments: int)

  /** An accumulator entry while folding: `metrics.avg_score` still holds
      the sum of scores. */
  datatype Tally = Tally(platform: string, channelId: string, name: string,
                         mentions: int, scoreSum: real, comments: int)

  /** A finalized channel candidate, the dict the discovery endpoints return. */
  datatype Channel = Channel(platform: string, channelId: string, name: string,
                             mentions: int, avgScore: real, comments: int, score: real)

  /** The accumulator is a dict keyed by subreddit: no key twice. */
  predicate UniqueIds(acc: seq<Tally>) {
    forall i, j :: 0 <= i < j < |acc| ==> acc[i].channelId != acc[j].channelId
  }

  predicate HasChannel(acc: seq<Tally>, name: string) {
    exists i :: 0 <= i < |acc| && acc[i].channelId == name
  }

  /** The entry `setdefault` creates the first time a subreddit is seen. */
  function Fresh(name: string): (t: Tally)
    ensures t.platform == "reddit" && t.channelId == name && t.name == "r/" + name
    ensures t.mentions == 0 && t.scoreSum == 0.0 && t.comments == 0
  {
    Tally("reddit", name, "r/" + name, 0, 0.0, 0)
  }

  function Add(t: Tally, m: Mention): Tally {
    t.(mentions := t.mentions + 1, scoreSum := t.scoreSum + m.score,
       comments := t.comments + m.comments)
  }

  /** `bump`: credit one mention to its subreddit, creating the entry (at the
      end, dict insertion order) on first sight. */
  function Bump(acc: seq<Tally>, m: Mention): (r: seq<Tally>)
    requires UniqueIds(acc)
    ensures UniqueIds(r)
    ensures HasChannel(acc, m.channel) ==> |r| == |acc|
    ensures !HasChannel(acc, m.channel) ==> r == acc + [Add(Fresh(m.channel), m)]
    ensures forall i :: 0 <= i < |acc| ==>
              r[i] == if acc[i].channelId == m.channel then Add(acc[i], m) else acc[i]
  {
    if acc == [] then [Add(Fresh(m.channel), m)]
    else if acc[0].channelId == m.channel then [Add(acc[0], m)] + acc[1..]
    else [acc[0]] + Bump(acc[1..], m)
  }

  /** Fold a run of mentions into a fresh accumulator, in order. */
  function Fold(ms: seq<Mention>): (r: seq<Tally>)
    ensures UniqueIds(r)
  {
    if ms == [] then [] else Bump(Fold(ms[..|ms| - 1]), ms[|ms| - 1])
  }

  // ---------------------------------------------------------------------------
  // A closed form of the fold: per-channel counts and sums over the mentions.

  function Count(ms: seq<Mention>, c: string): nat {
    if ms == [] then 0
    else Count(ms[..|ms| - 1], c) + (if ms[|ms| - 1].channel == c then 1 else 0)
  }

  function SumScore(ms: seq<Mention>, c: string): real {
    if ms == [] then 0.0
    else SumScore(ms[..|ms| - 1], c) + (if ms[|ms| - 1].channel == c then ms[|ms| - 1].score else 0.0)
  }

  function SumComments(ms: seq<Mention>, c: string): int {
    if ms == [] then 0
    else SumComments(ms[..|ms| - 1], c) + (if ms[|ms| - 1].channel == c then ms[|ms| - 1].comments else 0)
  }

  /** The subreddits mentioned, each once, in order of first mention. */
  function Distinct(ms: seq<Mention>): seq<string> {
    if ms == [] then []
    else
      var d := Distinct(ms[..|ms| - 1]);
      if ms[|ms| - 1].channel in d then d else d + [ms[|ms| - 1].channel]
  }

  /** What the accumulator holds for `c` after folding `ms`. */
  function Expected(ms: seq<Mention>, c: string): Tally {
    Tally("reddit", c, "r/" + c, Count(ms, c), SumScore(ms, c), SumComments(ms, c))
  }

  lemma {:induction false} DistinctMembers(ms: seq<Mention>, c: string)
    ensures c in Distinct(ms) <==> Count(ms, c) > 0
    ensures Count(ms, c) == 0 ==> SumScore(ms, c) == 0.0 && SumComments(ms, c) == 0
  {
    if ms != [] {
      DistinctMembers(ms[..|ms| - 1], c);
    }
  }

  /** Folding gives one entry per mentioned subreddit, in first-mention order,
      holding that subreddit's mention count, score sum and comment sum. */
  lemma {:induction false} FoldClosedForm(ms: seq<Mention>)
    ensures |Fold(ms)| == |Distinct(ms)|
    ensures forall i :: 0 <= i < |Fold(ms)| ==> Fold(ms)[i] == Expected(ms, Distinct(ms)[i])
  {
    FoldMatchesAll(ms);
  }

  /** The closed form holds for `ms`. */
  predicate FoldMatches(ms: seq<Mention>) {
    && |Fold(ms)| == |Distinct(ms)|
    && forall i :: 0 <= i < |Fold(ms)| ==> Fold(ms)[i] == Expected(ms, Distinct(ms)[i])
  }

  lemma {:induction false} FoldMatchesAll(ms: seq<Mention>)
    ensures FoldMatches(ms)
  {
    if ms != [] {
      var init := ms[..|ms| - 1];
      FoldMatchesAll(init);
      assert init + [ms[|ms| - 1]] == ms;
      FoldStep(init, ms[|ms| - 1]);
    }
  }

  lemma FoldStep(init: seq<Mention>, m: Mention)
    requires FoldMatches(init)
    ensures FoldMatches(init + [m])
  {
    var ms := init + [m];
    assert ms[..|ms| - 1] == init && ms[|ms| - 1] == m;
    var acc := Fold(init);
    HasChannelIff(init, m.channel);
    forall i | 0 <= i < |Fold(ms)| ensures Fold(ms)[i] == Expected(ms, Distinct(ms)[i]) {
      if i < |acc| {
        FoldStepOld(init, m, i);
      } else {
        FoldStepNew(init, m);
      }
    }
  }

  lemma HasChannelIff(init: seq<Mention>, c: string)
    requires FoldMatches(init)
    ensures HasChannel(Fold(init), c) <==> c in Distinct(init)
  {
    var acc := Fold(init);
    var d := Distinct(init);
    if c in d {
      var k :| 0 <= k < |d| && d[k] == c;
      assert acc[k].channelId == c;
    }
    if HasChannel(acc, c) {
      var k :| 0 <= k < |acc| && acc[k].channelId == c;
      assert acc[k] == Expected(init, d[k]);
      assert d[k] == c;
    }
  }

  /** A subreddit mentioned for the first time gets its entry at the end. */
  lemma FoldStepNew(init: seq<Mention>, m: Mention)
    requires FoldMatches(init) && !HasChannel(Fold(init), m.channel) && m.channel !in Distinct(init)
    ensures |Fold(init + [m])| == |Fold(init)| + 1 == |Distinct(init + [m])|
    ensures Fold(init + [m])[|Fold(init)|] == Expected(init + [m], Distinct(init + [m])[|Fold(init)|])
  {
    var ms := init + [m];
    assert ms[..|ms| - 1] == init && ms[|ms| - 1] == m;
    DistinctMembers(init, m.channel);
    assert Distinct(ms) == Distinct(init) + [m.channel];
  }

  lemma {:induction false} FoldStepOld(init: seq<Mention>, m: Mention, i: nat)
    requires i < |Fold(init)| == |Distinct(init)|
    requires Fold(init)[i] == Expected(init, Distinct(init)[i])
    ensures i < |Fold(init + [m])| && i < |Distinct(init + [m])|
    ensures Fold(init + [m])[i] == Expected(init + [m], Distinct(init + [m])[i])
  {
    var ms := init + [m];
    assert ms[..|ms| - 1] == init && ms[|ms| - 1] == m;
    var acc := Fold(init);
    var c := Distinct(init)[i];
    assert Fold(ms) == Bump(acc, m);
    assert Distinct(ms)[i] == c;
    assert Fold(ms)[i] == if acc[i].channelId == m.channel then Add(acc[i], m) else acc[i];
    assert acc[i].channelId == c;
  }

  lemma {:induction false} SumsAppend(a: seq<Mention>, b: seq<Mention>, c: string)
    ensures Count(a + b, c) == Count(a, c) + Count(b, c)
    ensures SumScore(a + b, c) == SumScore(a, c) + SumScore(b, c)
    ensures SumComments(a + b, c) == SumComments(a, c) + SumComments(b, c)
  {
    if b == [] {
      assert a + b == a;
    } else {
      SumsAppend(a, b[..|b| - 1], c);
      assert (a + b)[..|a + b| - 1] == a + b[..|b| - 1];
      assert (a + b)[|a + b| - 1] == b[|b| - 1];
    }
  }

  /** Per-subreddit metrics do not depend on the order of the submissions:
      swapping two neighbours changes no count and no sum. */
  lemma MetricsIgnoreOrder(x: seq<Mention>, a: Mention, b: Mention, y: seq<Mention>, c: string)
    ensures Expected(x + [a, b] + y, c) == Expected(x + [b, a] + y, c)
  {
    SumsAppend(x + [a, b], y, c);
    SumsAppend(x + [b, a], y, c);
    SumsAppend(x, [a, b], c);
    SumsAppend(x, [b, a], c);
    assert [a, b][..1] == [a];
    assert [b, a][..1] == [b];
    assert [a][..0] == [] && [b][..0] == [];
  }

  /** More generally, any reordering of the submissions leaves every
      channel's metrics unchanged: they depend on the multiset of mentions
      only. */
  lemma {:induction false} MetricsIgnorePermutation(a: seq<Mention>, b: seq<Mention>, c: string)
    requires multiset(a) == multiset(b)
    ensures Expected(a, c) == Expected(b, c)
    decreases |a|
  {
    if a == [] {
      assert |b| == |multiset(b)| == 0;
    } else {
      var x := a[|a| - 1];
      var a' := a[..|a| - 1];
      assert a == a' + [x];
      assert x in b by { assert x in multiset(b); }
      var i :| 0 <= i < |b| && b[i] == x;
      var lo, hi := b[..i], b[i + 1..];
      assert b == lo + [x] + hi;
      RemoveOne(a', lo, x, hi);
      MetricsIgnorePermutation(a', lo + hi, c);
      SumsAppend(a', [x], c);
      SumsSplice(lo, x, hi, c);
    }
  }

  lemma RemoveOne(a: seq<Mention>, lo: seq<Mention>, x: Mention, hi: seq<Mention>)
    requires multiset(a + [x]) == multiset(lo + [x] + hi)
    ensures multiset(a) == multiset(lo + hi)
  {
    assert multiset(a + [x]) == multiset(a) + multiset{x};
    assert multiset(lo + [x] + hi) == multiset(lo) + multiset{x} + multiset(hi);
    assert multiset(lo + hi) == multiset(lo) + multiset(hi);
    forall y ensures multiset(a)[y] == multiset(lo + hi)[y] {
      assert multiset(a + [x])[y] == multiset(lo + [x] + hi)[y];
    }
  }

  lemma SumsSplice(lo: seq<Mention>, x: Mention, hi: seq<Mention>, c: string)
    ensures Expected(lo + [x] + hi, c) == Expected(lo + hi + [x], c)
  {
    SumsAppend(lo + [x], hi, c);
    SumsAppend(lo, [x], c);
    SumsAppend(lo, hi, c);
    SumsAppend(lo + hi, [x], c);
  }

  // ---------------------------------------------------------------------------
  // Finalize and rank.

  /** `max(mentions, 1)`, the divisor for the mean. */
  function Divisor(mentions: int): (d: int)
    ensures d >= 1 && d >= mentions
  {
    if mentions > 1 then mentions else 1
  }

  /** Turn the summed score into a mean and compute the composite score
      `0.6 * mentions + 0.2 * avg + 0.2 * comments`. */
  function Finalize(t: Tally): (c: Channel)
    ensures c.platform == t.platform && c.channelId == t.channelId && c.name == t.name
    ensures c.mentions == t.mentions && c.comments == t.comments
    ensures c.avgScore * Divisor(t.mentions) as real == t.scoreSum
    ensures c.score == 0.6 * t.mentions as real + 0.2 * c.avgScore + 0.2 * t.comments as real
  {
    var avg := t.scoreSum / Divisor(t.mentions) as real;
    Channel(t.platform, t.channelId, t.name, t.mentions, avg, t.comments,
            3.0 / 5.0 * t.mentions as real + avg / 5.0 + t.comments as real / 5.0)
  }

  function FinalizeAll(acc: seq<Tally>): (r: seq<Channel>)
    ensures |r| == |acc|
    ensures forall i :: 0 <= i < |acc| ==> r[i] == Finalize(acc[i])
  {
    if acc == [] then [] else [Finalize(acc[0])] + FinalizeAll(acc[1..])
  }

  function ScoreOf(c: Channel): real { c.score }

  /** `sorted(results, key=score, reverse=True)[:maxResults]`. */
  function Rank(acc: seq<Tally>, maxResults: int): seq<Channel> {
    Prefix(Ranking.SortDesc(FinalizeAll(acc), ScoreOf), maxResults)
  }

  /** The ranking is ordered by non-increasing score, is a prefix of the
      stable sort of the finalized entries (so ties keep first-mention order),
      and holds at most `maxResults` of them. */
  lemma RankProperties(acc: seq<Tally>, maxResults: int)
    ensures Ranking.SortedDesc(Rank(acc, maxResults), ScoreOf)
    ensures |Rank(acc, maxResults)| <= |acc|
    ensures maxResults >= 0 ==> |Rank(acc, maxResults)| == if maxResults < |acc| then maxResults else |acc|
    ensures multiset(Rank(acc, maxResults)) <= multiset(FinalizeAll(acc))
    ensures forall v :: Ranking.WithKey(Ranking.SortDesc(FinalizeAll(acc), ScoreOf), ScoreOf, v)
                        == Ranking.WithKey(FinalizeAll(acc), ScoreOf, v)
  {
    var all := FinalizeAll(acc);
    var sorted := Ranking.SortDesc(all, ScoreOf);
    Ranking.SortDescSorted(all, ScoreOf);
    Ranking.SortDescPermutes(all, ScoreOf);
    var r := Rank(acc, maxResults);
    assert sorted == r + sorted[|r|..];
    assert multiset(sorted) == multiset(r) + multiset(sorted[|r|..]);
    forall v ensures Ranking.WithKey(sorted, ScoreOf, v) == Ranking.WithKey(all, ScoreOf, v) {
      Ranking.SortDescStable(all, ScoreOf, v);
    }
  }

  /** What a finalized entry says about the mentions it was folded from. */
  predicate Measured(ms: seq<Mention>, c: Channel) {
    && c.platform == "reddit" && c.name == "r/" + c.channelId
    && c.mentions == Count(ms, c.channelId) >= 1
    && c.avgScore * c.mentions as real == SumScore(ms, c.channelId)
    && c.comments == SumComments(ms, c.channelId)
    && c.score == 0.6 * c.mentions as real + 0.2 * c.avgScore + 0.2 * c.comments as real
  }

  lemma FinalizedEntryMeasured(ms: seq<Mention>, c: Channel)
    requires c in FinalizeAll(Fold(ms))
    ensures Measured(ms, c)
  {
    var i :| 0 <= i < |FinalizeAll(Fold(ms))| && FinalizeAll(Fold(ms))[i] == c;
    FoldClosedForm(ms);
    FinalizedEntryAt(ms, i);
  }

  lemma FinalizedEntryAt(ms: seq<Mention>, i: nat)
    requires |Fold(ms)| == |Distinct(ms)|
    requires i < |Fold(ms)| && Fold(ms)[i] == Expected(ms, Distinct(ms)[i])
    ensures Measured(ms, Finalize(Fold(ms)[i]))
  {
    var d := Distinct(ms)[i];
    assert d in Distinct(ms);
    DistinctMembers(ms, d);
    FinalizeMeasured(ms, d);
  }

  lemma FinalizeMeasured(ms: seq<Mention>, d: string)
    requires Count(ms, d) >= 1
    ensures Measured(ms, Finalize(Expected(ms, d)))
  {
    var t := Expected(ms, d);
    var c := Finalize(t);
    assert Divisor(t.mentions) == t.mentions;
    assert c.channelId == d;
  }

  /** Every ranked channel carries its subreddit's mention count, mean score
      and comment sum over the folded mentions, and the composite score. */
  lemma RankMeasured(ms: seq<Mention>, maxResults: int)
    ensures forall c :: c in Rank(Fold(ms), maxResults) ==> Measured(ms, c)
  {
    RankProperties(Fold(ms), maxResults);
    forall c | c in Rank(Fold(ms), maxResults) ensures Measured(ms, c) {
      assert c in multiset(Rank(Fold(ms), maxResults));
      FinalizedEntryMeasured(ms, c);
    }
  }

  /** The worked example: three submissions in one subreddit with scores
      10, 20, 30 and 1, 2, 3 comments score 3*0.6 + 20*0.2 + 6*0.2 = 7. */
  lemma WorkedExample()
    ensures var ms := [Mention("gadgets", 10.0, 1), Mention("gadgets", 20.0, 2), Mention("gadgets", 30.0, 3)];
            FinalizeAll(Fold(ms)) == [Channel("reddit", "gadgets", "r/gadgets", 3, 20.0, 6, 7.0)]
  {
    var ms := [Mention("gadgets", 10.0, 1), Mention("gadgets", 20.0, 2), Mention("gadgets", 30.0, 3)];
    assert ms[..2] == [Mention("gadgets", 10.0, 1), Mention("gadgets", 20.0, 2)];
    assert ms[..2][..1] == [Mention("gadgets", 10.0, 1)];
    assert ms[..2][..1][..0] == [];
    assert "r/" + "gadgets" == "r/gadgets";
    assert Fold(ms[..2][..1]) == [Tally("reddit", "gadgets", "r/gadgets", 1, 10.0, 1)];
    assert Fold(ms[..2]) == [Tally("reddit", "gadgets", "r/gadgets", 2, 30.0, 3)];
    assert Fold(ms) == [Tally("reddit", "gadgets", "r/gadgets", 3, 60.0, 6)];
    assert Finalize(Fold(ms)[0]).avgScore == 20.0;
  }

  /** Equal composite scores are ordered by first mention, so the ranking
      (unlike the per-channel metrics) depends on submission order. */
  lemma RankingDependsOnOrder()
    ensures var a := Mention("a", 1.0, 0);
            var b := Mention("b", 1.0, 0);
            && Rank(Fold([a, b]), 20)[0].channelId == "a"
            && Rank(Fold([b, a]), 20)[0].channelId == "b"
  {
    var a := Mention("a", 1.0, 0);
    var b := Mention("b", 1.0, 0);
    TieKeepsFirst(a, b);
    TieKeepsFirst(b, a);
  }

  lemma TieKeepsFirst(a: Mention, b: Mention)
    requires a.channel != b.channel && a.score == b.score && a.comments == b.comments
    ensures Rank(Fold([a, b]), 20)[0].channelId == a.channel
  {
    assert [a, b][..1] == [a] && [a][..0] == [];
    var ta := Add(Fresh(a.channel), a);
    var tb := Add(Fresh(b.channel), b);
    assert Fold([a]) == [ta];
    assert Fold([a, b]) == [ta, tb];
    var ab := FinalizeAll([ta, tb]);
    assert ab == [Finalize(ta), Finalize(tb)];
    assert ab[0].score == ab[1].score;
    assert Ranking.SortedDesc(ab, ScoreOf);
    Ranking.SortDescOfSorted(ab, ScoreOf);
  }
}
