/**
 * Parsing of the language model's comma-separated replies into subreddit
 * names and search queries (`AliasHelper.suggest_subreddits` and
 * `AliasHelper.suggest_reddit_queries`). The model call itself is an
 * oracle: its reply content is the input here, `None` when the reply
 * carries no content; a `Reply` also records a call that raised.
 */
module Alias {
  import opened PyText

  const MaxSubreddits: int := 8
  const MaxQueries: int := 5

  /** The characters `lstrip("r/")` removes: a set, not a prefix. */
  const PrefixChars: set<char> := {'r', '/'}

  /** The outcome of one `chat.completions.create` call: the reply's
      content, or `Raised` when the call raised. Nothing catches that
      exception, so it leaves the suggestion method. */
  datatype Reply = Content(content: Option<string>) | Raised

  /** `resp.choices[0].message.content or ""`. */
  function ReplyText(reply: Option<string>): string {
    match reply
    case Some(t) => t
    case None => ""
  }

  function StripPrefixChars(names: seq<string>): (r: seq<string>)
    ensures |r| == |names|
    ensures forall i :: 0 <= i < |r| ==> r[i] == LStripChars(names[i], PrefixChars)
  {
    if names == [] then [] else [LStripChars(names[0], PrefixChars)] + StripPrefixChars(names[1..])
  }

  /** `suggest_subreddits` after the model call. Blank pieces are dropped
      before the character-set strip, so a returned name can be empty. */
  function ParseSubreddits(reply: Option<string>): (r: seq<string>)
    ensures |r| <= MaxSubreddits
    ensures forall i :: 0 <= i < |r| ==> r[i] == [] || r[i][0] !in PrefixChars
  {
    Prefix(StripPrefixChars(Trimmed(Split(ReplyText(reply), ','))), MaxSubreddits)
  }

  /** `suggest_reddit_queries` after the model call. */
  function ParseQueries(reply: Option<string>): (r: seq<string>)
    ensures |r| <= MaxQueries
    ensures forall i :: 0 <= i < |r| ==> r[i] != [] && Strip(r[i]) == r[i]
  {
    Prefix(Trimmed(Split(ReplyText(reply), ',')), MaxQueries)
  }

  /** Each name is a trimmed non-blank piece of the reply with its leading
      `r`/`/` characters removed, in reply order. */
  lemma SubredditsFromPieces(reply: Option<string>)
    ensures var pieces := Trimmed(Split(ReplyText(reply), ','));
            && |ParseSubreddits(reply)| == (if |pieces| < MaxSubreddits then |pieces| else MaxSubreddits)
            && forall i :: 0 <= i < |ParseSubreddits(reply)| ==>
                 ParseSubreddits(reply)[i] == LStripChars(pieces[i], PrefixChars)
  {
  }

  /** An empty or missing reply gives no suggestions. */
  lemma EmptyReply(reply: Option<string>)
    requires reply == None || reply == Some("")
    ensures ParseSubreddits(reply) == [] && ParseQueries(reply) == []
  {
    assert Split("", ',') == [""];
    assert Strip("") == "";
  }

  /** `"rust".lstrip("r/")` is `"ust"`: the strip removes characters of a
      set, not a prefix. */
  lemma StripIsCharacterSet()
    ensures ParseSubreddits(Some("rust")) == ["ust"]
  {
    SplitWithoutSep("rust", ',');
    StripUnchanged("rust");
    assert Trimmed(["rust"]) == ["rust"];
    assert "rust"[1..] == "ust";
    assert LStripChars("ust", PrefixChars) == "ust" by {
      assert "ust"[0] == 'u' && 'u' !in PrefixChars;
    }
    assert LStripChars("rust", PrefixChars) == "ust";
    assert StripPrefixChars(["rust"]) == ["ust"];
    assert Split(ReplyText(Some("rust")), ',') == ["rust"];
  }

  /** `" r/ "` is not blank, so it survives the filter and strips to an empty
      name. */
  lemma BlankAfterStrip()
    ensures ParseSubreddits(Some(" r/ ")) == [""]
  {
    SplitWithoutSep(" r/ ", ',');
    PaddedPrefix();
    assert Trimmed([" r/ "]) == ["r/"];
    assert LStripChars("r/", PrefixChars) == "" by {
      assert "r/"[1..] == "/";
      assert "/"[1..] == "";
    }
    assert StripPrefixChars(["r/"]) == [""];
  }

  lemma PaddedPrefix()
    ensures Strip(" r/ ") == "r/"
  {
    assert TrimLeft(" r/ ") == "r/ " by { assert " r/ "[1..] == "r/ "; }
    assert TrimRight("r/ ") == "r/" by { assert "r/ "[..2] == "r/"; }
    assert TrimRight("r/") == "r/";
  }

  /** Round trip: joining up to five trimmed, non-blank, comma-free queries
      with commas and parsing the reply gives them back. */
  lemma QueriesRoundTrip(qs: seq<string>)
    requires 1 <= |qs| <= MaxQueries
    requires forall i :: 0 <= i < |qs| ==> qs[i] != [] && Strip(qs[i]) == qs[i] && ',' !in qs[i]
    ensures ParseQueries(Some(Join(qs, ','))) == qs
  {
    SplitJoin(qs, ',');
    TrimmedOfClean(qs);
  }

  /** Round trip: up to eight trimmed, comma-free names that do not start
      with `r` or `/` come back unchanged. */
  lemma SubredditsRoundTrip(names: seq<string>)
    requires 1 <= |names| <= MaxSubreddits
    requires forall i :: 0 <= i < |names| ==>
               names[i] != [] && Strip(names[i]) == names[i] && ',' !in names[i] && names[i][0] !in PrefixChars
    ensures ParseSubreddits(Some(Join(names, ','))) == names
  {
    SplitJoin(names, ',');
    TrimmedOfClean(names);
    var text := ReplyText(Some(Join(names, ',')));
    assert Trimmed(Split(text, ',')) == names;
    PrefixCharsAbsent(names);
    assert Prefix(names, MaxSubreddits) == names;
  }

  lemma PrefixCharsAbsent(names: seq<string>)
    requires forall i :: 0 <= i < |names| ==> names[i] != [] && names[i][0] !in PrefixChars
    ensures StripPrefixChars(names) == names
  {
    forall i | 0 <= i < |names|
      ensures StripPrefixChars(names)[i] == names[i]
    {
      assert LStripChars(names[i], PrefixChars) == names[i];
    }
  }
}
