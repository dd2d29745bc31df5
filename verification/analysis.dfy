/**
 * Sentiment post-processing (`analysis_service.py`): normalising the model's
 * percentage triads to 100, classifying by net score, turning the model's
 * decoded reply into the three stored fields, and the skip/update pass
 * over recent comment rows.
 *
 * The language model is an oracle `llm: string -> Json`, from the comment
 * text to the decoded JSON of its reply (`JNull` when the call or the
 * decoding raised). The row update is recorded as a request; its outcome is
 * ignored, as in the source.
 */
module Analysis {
  import opened PyText
  import opened Json

  /** The attribute vocabulary offered to the model; the reply's
      `attribute_discussed` is not checked against it. */
  const AttributeVocab: seq<string> := [
    "battery life", "price", "health features", "fitness tracking", "design",
    "notifications", "sleep tracking", "ECG", "heart rate accuracy", "durability",
    "water resistance", "charging speed", "Siri", "apps ecosystem",
    "integration with iPhone", "screen brightness", "cellular connectivity",
    "Apple Pay", "maps/navigation", "bands/straps", "general"
  ]

  /** The default of `ANALYSIS_LIMIT`. */
  const DefaultAnalysisLimit: int := 100

  /** A percentage triad: positive, neutral, negative. */
  datatype Triad = Triad(pos: int, neu: int, neg: int)

  function Total(t: Triad): int { t.pos + t.neu + t.neg }

  /** `_fix_to_100`: a triad that does not sum to 100 has its first largest
      component (in order positive, neutral, negative) moved by the
      difference. Nothing is clamped. */
  function FixTo100(t: Triad): (r: Triad)
    ensures Total(r) == 100
    ensures Total(t) == 100 ==> r == t
    ensures r.pos != t.pos ==> t.pos >= t.neu && t.pos >= t.neg
    ensures r.neu != t.neu ==> t.neu > t.pos && t.neu >= t.neg
    ensures r.neg != t.neg ==> t.neg > t.pos && t.neg > t.neu
    ensures (r.pos == t.pos && r.neu == t.neu) || (r.pos == t.pos && r.neg == t.neg) || (r.neu == t.neu && r.neg == t.neg)
  {
    if Total(t) == 100 then t
    else
      var delta := 100 - Total(t);
      if t.pos >= t.neu && t.pos >= t.neg then t.(pos := t.pos + delta)
      else if t.neu >= t.neg then t.(neu := t.neu + delta)
      else t.(neg := t.neg + delta)
  }

  /** Which component absorbs the difference is the first maximal one, so
      the result is determined: ties go to the earlier component. */
  lemma FixTo100Ties()
    ensures FixTo100(Triad(40, 40, 0)) == Triad(60, 40, 0)
    ensures FixTo100(Triad(10, 40, 40)) == Triad(10, 50, 40)
    ensures FixTo100(Triad(10, 20, 30)) == Triad(10, 20, 70)
  {
  }

  /** In-range inputs can leave the range: the result is not clamped. */
  lemma FixTo100NotClamped()
    ensures FixTo100(Triad(100, 100, 100)) == Triad(-100, 100, 100)
  {
  }

  /** Normalising twice is normalising once. */
  lemma FixTo100Idempotent(t: Triad)
    ensures FixTo100(FixTo100(t)) == FixTo100(t)
  {
  }

  const Negative: string := "negative"
  const Neutral: string := "neutral"
  const Positive: string := "positive"

  /** `_classify_from_net`, on the net score `positive - negative`. */
  function ClassifyFromNet(positive: int, negative: int): (verdict: string)
    ensures verdict == Negative <==> positive - negative < 40
    ensures verdict == Neutral <==> 40 <= positive - negative <= 60
    ensures verdict == Positive <==> positive - negative > 60
  {
    var net := positive - negative;
    if net < 40 then Negative
    else if net <= 60 then Neutral
    else Positive
  }

  /** The thresholds are inclusive on the neutral side. */
  lemma ClassifyBoundaries()
    ensures ClassifyFromNet(70, 10) == Neutral
    ensures ClassifyFromNet(71, 10) == Positive
    ensures ClassifyFromNet(49, 10) == Negative
    ensures ClassifyFromNet(50, 10) == Neutral
  {
  }

  function Rank(verdict: string): int {
    if verdict == Negative then 0 else if verdict == Neutral then 1 else 2
  }

  /** More positive or less negative never gives a worse label. */
  lemma ClassifyMonotone(p1: int, n1: int, p2: int, n2: int)
    requires p1 <= p2 && n1 >= n2
    ensures Rank(ClassifyFromNet(p1, n1)) <= Rank(ClassifyFromNet(p2, n2))
  {
  }

  /** The keys the reply must carry. */
  const ReplyKeys: set<string> := {
    "sentiment_positive", "sentiment_neutral", "sentiment_negative", "attribute_discussed",
    "attribute_sentiment_positive", "attribute_sentiment_neutral", "attribute_sentiment_negative"
  }

  /** The three fields written back to a row. */
  const AnalysisKeys: set<string> := {"comment_sentiment", "attribute_discussed", "attribute_sentiment"}

  function Int(d: Dict, key: string): Option<int> {
    if key in d then PyInt(d[key]) else None
  }

  /** `int(data[...])` for three keys, as a triad. */
  function TriadOf(d: Dict, p: string, n: string, g: string): Option<Triad> {
    match (Int(d, p), Int(d, n), Int(d, g))
    case (Some(a), Some(b), Some(c)) => Some(Triad(a, b, c))
    case _ => None
  }

  function CommentTriad(d: Dict): Option<Triad> {
    TriadOf(d, "sentiment_positive", "sentiment_neutral", "sentiment_negative")
  }

  function AttributeTriad(d: Dict): Option<Triad> {
    TriadOf(d, "attribute_sentiment_positive", "attribute_sentiment_neutral", "attribute_sentiment_negative")
  }

  predicate IsLabel(v: Json) {
    v == JStr(Negative) || v == JStr(Neutral) || v == JStr(Positive)
  }

  /** `_analyze_comment` after the model call: both triads are normalised,
      each is classified from its fixed positive and negative values, and
      `attribute_discussed` is passed through. `None` stands for the
      `KeyError`, `TypeError` or `ValueError` Python raises on a reply that
      is not an object, lacks a key or holds a non-integer. */
  function AnalyzeReply(data: Json): (r: Option<Dict>)
    ensures r.Some? <==> data.JObj? && ReplyKeys <= data.fields.Keys
                         && CommentTriad(data.fields).Some? && AttributeTriad(data.fields).Some?
    ensures r.Some? ==> r.value.Keys == AnalysisKeys
                        && IsLabel(r.value["comment_sentiment"]) && IsLabel(r.value["attribute_sentiment"])
                        && r.value["attribute_discussed"] == data.fields["attribute_discussed"]
    ensures r.Some? ==> var s := FixTo100(CommentTriad(data.fields).value);
                        r.value["comment_sentiment"] == JStr(ClassifyFromNet(s.pos, s.neg))
    ensures r.Some? ==> var a := FixTo100(AttributeTriad(data.fields).value);
                        r.value["attribute_sentiment"] == JStr(ClassifyFromNet(a.pos, a.neg))
  {
    if !data.JObj? then None
    else
      var d := data.fields;
      match (CommentTriad(d), AttributeTriad(d))
      case (Some(s), Some(a)) =>
        if "attribute_discussed" !in d then None
        else
          var s' := FixTo100(s);
          var a' := FixTo100(a);
          Some(map["comment_sentiment" := JStr(ClassifyFromNet(s'.pos, s'.neg)),
                   "attribute_discussed" := d["attribute_discussed"],
                   "attribute_sentiment" := JStr(ClassifyFromNet(a'.pos, a'.neg))])
      case _ => None
  }

  /** A reply whose triads already sum to 100 is classified on its own
      numbers. */
  lemma ReplyClassifiedAsGiven(data: Json)
    requires AnalyzeReply(data).Some?
    requires Total(CommentTriad(data.fields).value) == 100
    requires Total(AttributeTriad(data.fields).value) == 100
    ensures var s := CommentTriad(data.fields).value;
            var a := AttributeTriad(data.fields).value;
            && AnalyzeReply(data).value["comment_sentiment"] == JStr(ClassifyFromNet(s.pos, s.neg))
            && AnalyzeReply(data).value["attribute_sentiment"] == JStr(ClassifyFromNet(a.pos, a.neg))
  {
  }

  /** An off-total reply is normalised before classifying: 50/0/0 moves the
      positive bucket to 100, so the net is 100 and the label positive. */
  lemma ReplyNormalisedFirst()
    ensures var d := map["sentiment_positive" := JInt(50), "sentiment_neutral" := JInt(0),
                         "sentiment_negative" := JInt(0), "attribute_discussed" := JStr("price"),
                         "attribute_sentiment_positive" := JInt(0), "attribute_sentiment_neutral" := JInt(100),
                         "attribute_sentiment_negative" := JInt(0)];
            AnalyzeReply(JObj(d)) == Some(map["comment_sentiment" := JStr(Positive),
                                              "attribute_discussed" := JStr("price"),
                                              "attribute_sentiment" := JStr(Negative)])
  {
    var d := map["sentiment_positive" := JInt(50), "sentiment_neutral" := JInt(0),
                 "sentiment_negative" := JInt(0), "attribute_discussed" := JStr("price"),
                 "attribute_sentiment_positive" := JInt(0), "attribute_sentiment_neutral" := JInt(100),
                 "attribute_sentiment_negative" := JInt(0)];
    SampleTriads(d);
    assert "attribute_discussed" in d && d["attribute_discussed"] == JStr("price");
    assert FixTo100(Triad(50, 0, 0)) == Triad(100, 0, 0);
    assert FixTo100(Triad(0, 100, 0)) == Triad(0, 100, 0);
  }

  lemma SampleTriads(d: Dict)
    requires d == map["sentiment_positive" := JInt(50), "sentiment_neutral" := JInt(0),
                      "sentiment_negative" := JInt(0), "attribute_discussed" := JStr("price"),
                      "attribute_sentiment_positive" := JInt(0), "attribute_sentiment_neutral" := JInt(100),
                      "attribute_sentiment_negative" := JInt(0)]
    ensures CommentTriad(d) == Some(Triad(50, 0, 0))
    ensures AttributeTriad(d) == Some(Triad(0, 100, 0))
  {
    assert Int(d, "sentiment_positive") == Some(50);
    assert Int(d, "sentiment_neutral") == Some(0);
    assert Int(d, "sentiment_negative") == Some(0);
    assert Int(d, "attribute_sentiment_positive") == Some(0);
    assert Int(d, "attribute_sentiment_neutral") == Some(100);
    assert Int(d, "attribute_sentiment_negative") == Some(0);
  }

  // ---------------------------------------------------------------------------
  // analyze_recent_comments

  /** One requested row update: `update_comment_fields(int(cid), analysis)`. */
  datatype FieldUpdate = FieldUpdate(id: int, fields: Dict)

  /** What the loop does with one row. */
  datatype RowStep = Skip | Update(u: FieldUpdate) | Raise

  /** `(row.get("comment") or "").strip()`; `None` when the comment is a
      truthy non-string, whose `.strip()` raises. */
  function CommentText(row: Dict): Option<string> {
    var v := Or(Get(row, "comment"), JStr(""));
    if v.JStr? then Some(Strip(v.s)) else None
  }

  /** The skip test: a falsy id or an empty stripped text. */
  predicate Skipped(row: Dict) {
    CommentText(row).Some? && (!Truthy(Get(row, "id")) || CommentText(row).value == [])
  }

  function Step(row: Dict, llm: string -> Json): RowStep {
    match CommentText(row)
    case None => Raise
    case Some(text) =>
      if !Truthy(Get(row, "id")) || text == [] then Skip
      else
        match AnalyzeReply(llm(text))
        case None => Raise
        case Some(fields) =>
          match PyInt(Get(row, "id"))
          case None => Raise
          case Some(id) => Update(FieldUpdate(id, fields))
  }

  /** A row is skipped exactly when its id is falsy or its stripped text is
      empty; a row that is processed has a truthy id and asks for the three
      analysis fields. */
  lemma StepSpec(row: Dict, llm: string -> Json)
    ensures Step(row, llm).Skip? <==> Skipped(row)
    ensures Step(row, llm).Update? ==>
              && Step(row, llm).u.fields.Keys == AnalysisKeys
              && Truthy(Get(row, "id"))
              && PyInt(Get(row, "id")) == Some(Step(row, llm).u.id)
  {
  }

  /** The outcome of a pass: the summary on a normal return, or the
      exception that escaped; either way the updates requested so far. */
  datatype Run =
    | Completed(updates: seq<FieldUpdate>, updated: nat, skipped: nat, totalScanned: nat)
    | Raised(updates: seq<FieldUpdate>)

  /** The updates a run of rows requests, in order. */
  function Requests(rows: seq<Dict>, step: Dict -> RowStep): seq<FieldUpdate> {
    FlatMap(rows, row => if step(row).Update? then [step(row).u] else [])
  }

  function CountSkips(rows: seq<Dict>, step: Dict -> RowStep): nat {
    if rows == [] then 0 else (if step(rows[0]).Skip? then 1 else 0) + CountSkips(rows[1..], step)
  }

  /** The loop of `analyze_recent_comments`, for any per-row behaviour:
      counts skips and updates, and stops at the first row that raises. */
  method RunSteps(rows: seq<Dict>, step: Dict -> RowStep) returns (run: Run)
    ensures run.Completed? <==> forall i :: 0 <= i < |rows| ==> !step(rows[i]).Raise?
    ensures run.Completed? ==> run.updated + run.skipped == run.totalScanned == |rows|
    ensures run.Completed? ==> run.skipped == CountSkips(rows, step) && run.updates == Requests(rows, step)
    ensures run.Raised? ==> exists k :: 0 <= k < |rows| && step(rows[k]).Raise?
                                        && (forall i :: 0 <= i < k ==> !step(rows[i]).Raise?)
                                        && run.updates == Requests(rows[..k], step)
  {
    var updates: seq<FieldUpdate> := [];
    var updated := 0;
    var skipped := 0;
    var i := 0;
    while i < |rows|
      invariant 0 <= i <= |rows|
      invariant forall j :: 0 <= j < i ==> !step(rows[j]).Raise?
      invariant updates == Requests(rows[..i], step)
      invariant skipped == CountSkips(rows[..i], step)
      invariant updated + skipped == i
    {
      var st := step(rows[i]);
      RunStep(rows[..i], rows[i], step);
      assert rows[..i + 1] == rows[..i] + [rows[i]];
      if st.Raise? {
        return Raised(updates);
      } else if st.Skip? {
        skipped := skipped + 1;
      } else {
        updates := updates + [st.u];
        updated := updated + 1;
      }
      i := i + 1;
    }
    assert rows[..i] == rows;
    return Completed(updates, updated, skipped, |rows|);
  }

  lemma RunStep(done: seq<Dict>, row: Dict, step: Dict -> RowStep)
    ensures Requests(done + [row], step)
            == Requests(done, step) + (if step(row).Update? then [step(row).u] else [])
    ensures CountSkips(done + [row], step) == CountSkips(done, step) + (if step(row).Skip? then 1 else 0)
  {
    var f := (r: Dict) => if step(r).Update? then [step(r).u] else [];
    FlatMapAppend(done, [row], f);
    assert FlatMap([row], f) == f(row) + FlatMap([row][1..], f);
    CountSkipsAppend(done, [row], step);
    assert CountSkips([row], step) == (if step(row).Skip? then 1 else 0) + CountSkips([row][1..], step);
  }

  lemma {:induction false} CountSkipsAppend(a: seq<Dict>, b: seq<Dict>, step: Dict -> RowStep)
    ensures CountSkips(a + b, step) == CountSkips(a, step) + CountSkips(b, step)
  {
    if a == [] {
      assert a + b == b;
    } else {
      CountSkipsAppend(a[1..], b, step);
      assert (a + b)[0] == a[0];
      assert (a + b)[1..] == a[1..] + b;
    }
  }

  predicate Raises(row: Dict, llm: string -> Json) {
    Step(row, llm).Raise?
  }

  /** The rows skipped for a falsy id or blank text. */
  function SkipCount(rows: seq<Dict>): nat {
    if rows == [] then 0 else (if Skipped(rows[0]) then 1 else 0) + SkipCount(rows[1..])
  }

  lemma {:induction false} SkipsAreSkipped(rows: seq<Dict>, llm: string -> Json)
    ensures CountSkips(rows, row => Step(row, llm)) == SkipCount(rows)
  {
    if rows != [] {
      StepSpec(rows[0], llm);
      SkipsAreSkipped(rows[1..], llm);
    }
  }

  function UpdatesOf(rows: seq<Dict>, llm: string -> Json): seq<FieldUpdate> {
    Requests(rows, row => Step(row, llm))
  }

  /** `analyze_recent_comments` on the fetched rows: on a normal return,
      updated + skipped = scanned = the number of rows, the skipped rows are
      exactly those with a falsy id or blank text, and one update is asked
      for every other row, in order; an exception from the model reply or
      from `int(cid)` escapes after the updates of the rows before it. */
  method AnalyzeRecentComments(rows: seq<Dict>, llm: string -> Json) returns (run: Run)
    ensures run.Completed? <==> forall i :: 0 <= i < |rows| ==> !Raises(rows[i], llm)
    ensures run.Completed? ==> run.updated + run.skipped == run.totalScanned == |rows|
    ensures run.Completed? ==> run.skipped == SkipCount(rows) && run.updates == UpdatesOf(rows, llm)
    ensures run.Raised? ==> exists k :: 0 <= k < |rows| && Raises(rows[k], llm)
                                        && (forall i :: 0 <= i < k ==> !Raises(rows[i], llm))
                                        && run.updates == UpdatesOf(rows[..k], llm)
  {
    run := RunSteps(rows, row => Step(row, llm));
    SkipsAreSkipped(rows, llm);
  }

  /** Each row that is not skipped and does not raise requests exactly one
      update, for its own id, with the three analysis fields. */
  lemma UpdatesOfMembers(rows: seq<Dict>, llm: string -> Json, u: FieldUpdate)
    requires u in UpdatesOf(rows, llm)
    ensures exists i :: 0 <= i < |rows| && !Skipped(rows[i]) && Step(rows[i], llm) == Update(u)
                        && PyInt(Get(rows[i], "id")) == Some(u.id) && u.fields.Keys == AnalysisKeys
  {
    var i := RequestsMembers(rows, row => Step(row, llm), u);
    StepSpec(rows[i], llm);
  }

  lemma RequestsMembers(rows: seq<Dict>, step: Dict -> RowStep, u: FieldUpdate) returns (i: int)
    requires u in Requests(rows, step)
    ensures 0 <= i < |rows| && step(rows[i]) == Update(u)
  {
    var f := row => if step(row).Update? then [step(row).u] else [];
    FlatMapMembers(rows, f, u);
    i :| 0 <= i < |rows| && u in f(rows[i]);
  }

  /** A row with a falsy id or blank text is skipped and never reaches the
      model, whatever the model would answer. */
  lemma SkipIgnoresModel(row: Dict, llm1: string -> Json, llm2: string -> Json)
    requires Skipped(row)
    ensures Step(row, llm1) == Step(row, llm2) == Skip
  {
    StepSpec(row, llm1);
    StepSpec(row, llm2);
  }
}
