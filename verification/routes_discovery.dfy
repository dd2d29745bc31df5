/**
 * The `/discover` endpoint: clean the product list, run discovery, store
 * the Reddit results as the new source channels when there are any, and
 * answer with the discovery result. The language-model replies and the
 * tool gateway are the oracles of the Discovery model. A model call that
 * raises is caught by nothing on the way: the framework answers 500 and
 * nothing is stored.
 */
module DiscoveryRoutes {
  import opened PyText
  import opened Json
  import Channels
  import Alias
  import Ranking
  import Database
  import Discovery

  const BadRequest: int := 400
  const NoProducts: string := "At least one product required"
  /** The framework's answer to an exception the handler does not catch. */
  const ServerError: int := 500

  datatype Outcome =
    | Rejected(status: int, detail: string)
    | Responded(store: Database.Store, body: map<string, seq<Channels.Channel>>)
    | Failed(status: int, store: Database.Store)

  /** A discovered channel as the dict `replace_source_channels` receives. */
  function ChannelDict(c: Channels.Channel): Dict {
    map["platform" := JStr(c.platform), "channel_id" := JStr(c.channelId), "name" := JStr(c.name),
        "score" := JFloat(c.score),
        "metrics" := JObj(map["mentions" := JInt(c.mentions), "avg_score" := JFloat(c.avgScore),
                              "comments" := JInt(c.comments)])]
  }

  function ChannelDicts(cs: seq<Channels.Channel>): (r: seq<Dict>)
    ensures |r| == |cs|
    ensures forall i :: 0 <= i < |cs| ==> r[i] == ChannelDict(cs[i])
  {
    if cs == [] then [] else [ChannelDict(cs[0])] + ChannelDicts(cs[1..])
  }

  /** The discovery oracles, gathered. */
  datatype Oracles = Oracles(subsReply: Alias.Reply, queriesReply: Alias.Reply, configured: bool,
                             gw: Discovery.Call -> Option<Json>, now: real, lookbackDays: int,
                             maxResults: int)

  function RunDiscover(products: seq<string>, o: Oracles): Option<map<string, seq<Channels.Channel>>> {
    Discovery.Discover(products, o.subsReply, o.queriesReply, o.configured, o.gw, o.now, o.lookbackDays, o.maxResults)
  }

  /** `discover_products`. */
  function DiscoverProducts(s: Database.Store, payload: seq<string>, o: Oracles): (r: Outcome)
    ensures r.Rejected? <==> Trimmed(payload) == []
    ensures r.Rejected? ==> r.status == BadRequest && r.detail == NoProducts
    ensures r.Failed? <==> Trimmed(payload) != [] && (o.subsReply.Raised? || o.queriesReply.Raised?)
    ensures r.Failed? ==> r.status == ServerError && r.store == s
    ensures r.Responded? ==> r.body.Keys == {"reddit"}
  {
    if payload == [] then Rejected(BadRequest, NoProducts)
    else
      var products := Trimmed(payload);
      if products == [] then Rejected(BadRequest, NoProducts)
      else
        match RunDiscover(products, o)
        case None => Failed(ServerError, s)
        case Some(discovery) =>
          var reddit := if "reddit" in discovery then discovery["reddit"] else [];
          var s' := if reddit != [] then Database.ReplaceSourceChannels(s, "reddit", ChannelDicts(reddit)).0 else s;
          Responded(s', discovery)
  }

  /** An empty payload, or one whose products are all blank, is rejected;
      a payload with a non-blank product is not. */
  lemma RejectsOnlyBlank(s: Database.Store, payload: seq<string>, o: Oracles)
    ensures (forall i :: 0 <= i < |payload| ==> Strip(payload[i]) == []) <==> DiscoverProducts(s, payload, o).Rejected?
  {
    TrimmedMembers(payload);
    if Trimmed(payload) != [] {
      assert Trimmed(payload)[0] in Trimmed(payload);
    }
  }

  /** Discovery sees the products stripped and cleared of blanks; when it
      does not fail, the response is its result unchanged. */
  lemma RespondsWithDiscovery(s: Database.Store, payload: seq<string>, o: Oracles)
    requires Trimmed(payload) != []
    ensures var r := DiscoverProducts(s, payload, o);
            var d := RunDiscover(Trimmed(payload), o);
            d.Some? ==> && r.Responded? && r.body == d.value
                        && Ranking.SortedDesc(r.body["reddit"], Channels.ScoreOf)
                        && (o.maxResults >= 0 ==> |r.body["reddit"]| <= o.maxResults)
  {
  }

  /** The source channels are written only when Reddit found something. */
  lemma StoresOnlyFindings(s: Database.Store, payload: seq<string>, o: Oracles)
    requires Trimmed(payload) != []
    ensures var r := DiscoverProducts(s, payload, o);
            var d := RunDiscover(Trimmed(payload), o);
            d.Some? && d.value["reddit"] == [] ==> r.store == s
  {
  }

  /** The stored dict of a channel carries its score and its id. */
  lemma ChannelDictsFields(found: seq<Channels.Channel>)
    ensures forall i :: 0 <= i < |found| ==>
              Get(ChannelDicts(found)[i], "score") == JFloat(found[i].score)
              && Get(ChannelDicts(found)[i], "channel_id") == JStr(found[i].channelId)
  {
    forall i | 0 <= i < |found|
      ensures Get(ChannelDicts(found)[i], "score") == JFloat(found[i].score)
      ensures Get(ChannelDicts(found)[i], "channel_id") == JStr(found[i].channelId)
    {
      var d := ChannelDict(found[i]);
      assert "score" in d && d["score"] == JFloat(found[i].score);
      assert "channel_id" in d && d["channel_id"] == JStr(found[i].channelId);
    }
  }

  /** Storing ranked channels, then reading the single top channel, gives
      a channel of the highest score. */
  lemma TopAfterStoring(s: Database.Store, found: seq<Channels.Channel>)
    requires 1 <= |found| <= Database.SelectLimit
    requires Ranking.SortedDesc(found, Channels.ScoreOf)
    requires forall i :: 0 <= i < |found| ==> found[i].channelId != []
    requires !Database.Fails(s, Database.SourceTable, Database.Delete)
    requires !Database.Fails(s, Database.SourceTable, Database.Insert)
    requires !Database.Fails(s, Database.SourceTable, Database.Select)
    ensures var s' := Database.ReplaceSourceChannels(s, "reddit", ChannelDicts(found)).0;
            exists k :: 0 <= k < |found| && Database.GetTopRedditChannel(s') == Some(found[k].channelId)
                        && found[k].score == found[0].score
  {
    var k := TopIndex(s, found);
    assert Channels.ScoreOf(found[k]) <= Channels.ScoreOf(found[0]);
  }

  /** The index of the channel the read names; no stored score beats it. */
  lemma TopIndex(s: Database.Store, found: seq<Channels.Channel>) returns (k: nat)
    requires 1 <= |found| <= Database.SelectLimit
    requires forall i :: 0 <= i < |found| ==> found[i].channelId != []
    requires !Database.Fails(s, Database.SourceTable, Database.Delete)
    requires !Database.Fails(s, Database.SourceTable, Database.Insert)
    requires !Database.Fails(s, Database.SourceTable, Database.Select)
    ensures k < |found|
    ensures Database.GetTopRedditChannel(Database.ReplaceSourceChannels(s, "reddit", ChannelDicts(found)).0)
            == Some(found[k].channelId)
    ensures forall j :: 0 <= j < |found| ==> found[j].score <= found[k].score
  {
    var dicts := ChannelDicts(found);
    ChannelDictsFields(found);
    k := TopWitness(s, dicts);
    forall j | 0 <= j < |found|
      ensures found[j].score <= found[k].score
    {
      assert Get(dicts[j], "score").f <= Get(dicts[k], "score").f;
    }
  }

  lemma TopWitness(s: Database.Store, dicts: seq<Dict>) returns (k: nat)
    requires 1 <= |dicts| <= Database.SelectLimit
    requires !Database.Fails(s, Database.SourceTable, Database.Delete)
    requires !Database.Fails(s, Database.SourceTable, Database.Insert)
    requires !Database.Fails(s, Database.SourceTable, Database.Select)
    requires forall i :: 0 <= i < |dicts| ==>
               Get(dicts[i], "score").JFloat? && Get(dicts[i], "channel_id").JStr?
               && Get(dicts[i], "channel_id").s != []
    ensures k < |dicts|
    ensures Database.GetTopRedditChannel(Database.ReplaceSourceChannels(s, "reddit", dicts).0)
            == Some(Get(dicts[k], "channel_id").s)
    ensures forall j :: 0 <= j < |dicts| ==> Get(dicts[j], "score").f <= Get(dicts[k], "score").f
  {
    Database.TopChannelAfterReplace(s, dicts);
    var s' := Database.ReplaceSourceChannels(s, "reddit", dicts).0;
    k :| 0 <= k < |dicts| && Database.GetTopRedditChannel(s') == Some(Get(dicts[k], "channel_id").s)
         && forall j :: 0 <= j < |dicts| ==> Get(dicts[j], "score").f <= Get(dicts[k], "score").f;
  }

  /** When Reddit found channels and the first source table accepts the
      write, a later `get_top_reddit_channel` names a channel of the highest
      discovered score. */
  lemma DiscoveredTopIsReadBack(s: Database.Store, payload: seq<string>, o: Oracles)
    requires Trimmed(payload) != [] && RunDiscover(Trimmed(payload), o).Some?
    requires var found := RunDiscover(Trimmed(payload), o).value["reddit"];
             1 <= |found| <= Database.SelectLimit
             && forall i :: 0 <= i < |found| ==> found[i].channelId != []
    requires !Database.Fails(s, Database.SourceTable, Database.Delete)
    requires !Database.Fails(s, Database.SourceTable, Database.Insert)
    requires !Database.Fails(s, Database.SourceTable, Database.Select)
    ensures var found := RunDiscover(Trimmed(payload), o).value["reddit"];
            var s' := DiscoverProducts(s, payload, o).store;
            exists k :: 0 <= k < |found| && Database.GetTopRedditChannel(s') == Some(found[k].channelId)
                        && found[k].score == found[0].score
  {
    var found := RunDiscover(Trimmed(payload), o).value["reddit"];
    RespondsWithDiscovery(s, payload, o);
    assert DiscoverProducts(s, payload, o).store == Database.ReplaceSourceChannels(s, "reddit", ChannelDicts(found)).0;
    TopAfterStoring(s, found);
  }
}
