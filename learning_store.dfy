/**
 * The learning database as a store whose tables the learning service updates
 * in place, inside transactions that either commit every statement or roll
 * all of them back.
 */
module LearningStore {
  import opened Wrappers
  import opened Seqs
  import opened LearningTables
  import opened Ranking
  import PatternExtraction

  /** The fields of a non-conformity that learnFromNC reads. */
  datatype NonConformity = NonConformity(criterion: CriterionId, impact: string, description: string, solution: string)

  /**
   * The statement of learnFromNC's transaction that raises an error: the
   * upsert of the pattern at that position, the suggestion statement, the
   * metrics statement, or COMMIT.
   */
  datatype LearnFault = PatternFails(index: nat) | SuggestionFails | MetricsFails | LearnCommitFails

  /** The statement of recordFeedback's transaction that raises an error. */
  datatype FeedbackFault = InsertFails | StatsFails | FeedbackCommitFails

  /** The contents of the four tables and the AUTOINCREMENT counter of learning_suggestions. */
  datatype Snapshot = Snapshot(
    patterns: map<PatternKey, nat>,
    suggestions: seq<Suggestion>,
    feedback: seq<Feedback>,
    metrics: map<CriterionId, Metric>,
    nextId: nat)

  /** The suggestions table is well formed and every stored pattern was counted at least once. */
  ghost predicate StateValid(st: Snapshot)
  {
    TableValid(st.suggestions, st.nextId) && forall k :: k in st.patterns ==> st.patterns[k] > 0
  }

  /** A pattern fault strikes only when the loop reaches its position. */
  predicate Strikes(fault: LearnFault, patternCount: nat)
  {
    !fault.PatternFails? || fault.index < patternCount
  }

  /** The tables after a committed learnFromNC. */
  function Learned(st: Snapshot, nc: NonConformity): Snapshot
  {
    var u := Upsert(st.suggestions, st.nextId, nc.criterion, nc.impact, nc.description, nc.solution);
    Snapshot(
      BumpPatterns(st.patterns, nc.criterion, PatternExtraction.Extracted(nc.description)),
      u.table,
      st.feedback,
      RefreshMetric(st.metrics, u.table, nc.criterion),
      u.nextId)
  }

  /** The tables after a committed recordFeedback. */
  function FeedbackRecorded(st: Snapshot, id: nat, helpful: bool, project: Option<string>): Snapshot
  {
    st.(feedback := st.feedback + [Feedback(id, helpful, project)],
        suggestions := BumpStats(st.suggestions, id, helpful))
  }

  /** Learning keeps the tables well formed. */
  lemma LearnedKeepsValid(st: Snapshot, nc: NonConformity)
    requires StateValid(st)
    ensures StateValid(Learned(st, nc))
  {
    UpsertKeepsTable(st.suggestions, st.nextId, nc.criterion, nc.impact, nc.description, nc.solution);
    var ps := PatternExtraction.Extracted(nc.description);
    var freq := BumpPatterns(st.patterns, nc.criterion, ps);
    BumpPatternsCounts(st.patterns, nc.criterion, ps);
    forall k | k in freq ensures freq[k] > 0 {
      if k !in st.patterns {
        assert k.0 == nc.criterion && k.1 in ps;
      }
    }
  }

  /** After learning, every pattern extracted from the description is stored for the criterion. */
  lemma LearnedStoresPatterns(st: Snapshot, nc: NonConformity)
    ensures forall p :: p in PatternExtraction.Extracted(nc.description) ==> (nc.criterion, p) in Learned(st, nc).patterns
  {
    BumpPatternsCounts(st.patterns, nc.criterion, PatternExtraction.Extracted(nc.description));
  }

  /**
   * After learning, the returned id names the suggestion of the criterion
   * with that description, and the criterion's metric row matches its
   * suggestions.
   */
  lemma LearnedRefreshesMetric(st: Snapshot, nc: NonConformity)
    requires StateValid(st)
    ensures var after := Learned(st, nc);
            var id := Upsert(st.suggestions, st.nextId, nc.criterion, nc.impact, nc.description, nc.solution).id;
            && (exists s :: s in after.suggestions && s.id == id && s.criterion == nc.criterion && s.description == nc.description)
            && nc.criterion in after.metrics
            && Some(after.metrics[nc.criterion]) == ComputeMetric(after.suggestions, nc.criterion)
            && after.metrics[nc.criterion].suggestionCount > 0
  {
    var u := Upsert(st.suggestions, st.nextId, nc.criterion, nc.impact, nc.description, nc.solution);
    UpsertKeepsTable(st.suggestions, st.nextId, nc.criterion, nc.impact, nc.description, nc.solution);
    var i :| 0 <= i < |u.table| && u.table[i].id == u.id && u.table[i].criterion == nc.criterion && u.table[i].description == nc.description;
    var s := u.table[i];
    assert s in u.table && s.criterion == nc.criterion;
    assert ComputeMetric(u.table, nc.criterion).Some?;
    assert Learned(st, nc).suggestions == u.table;
  }

  /**
   * recordFeedback does not refresh learning_metrics: a metric row that
   * matched the criterion's suggestions stops matching them once feedback on
   * one of those suggestions is committed.
   */
  lemma FeedbackLeavesMetricStale(st: Snapshot, id: nat, helpful: bool, project: Option<string>, c: CriterionId)
    requires c in st.metrics && Some(st.metrics[c]) == ComputeMetric(st.suggestions, c)
    requires exists s :: s in st.suggestions && s.id == id && s.criterion == c
    ensures var after := FeedbackRecorded(st, id, helpful, project);
            after.metrics == st.metrics && Some(after.metrics[c]) != ComputeMetric(after.suggestions, c)
  {
    StatsOutdateMetric(st.suggestions, id, helpful, c, st.metrics[c]);
  }

  class Store {
    var patterns: map<PatternKey, nat>
    var suggestions: seq<Suggestion>
    var feedback: seq<Feedback>
    var metrics: map<CriterionId, Metric>
    var nextId: nat

    function State(): Snapshot
      reads this
    {
      Snapshot(patterns, suggestions, feedback, metrics, nextId)
    }

    ghost predicate Valid()
      reads this
    {
      StateValid(State())
    }

    /** A freshly created database: empty tables, ids starting at 1. */
    constructor ()
      ensures Valid()
      ensures State() == Snapshot(map[], [], [], map[], 1)
    {
      patterns := map[];
      suggestions := [];
      feedback := [];
      metrics := map[];
      nextId := 1;
    }

    /**
     * updatePatterns: the upserts run one pattern at a time; when the upsert
     * at position `failAt` raises, the loop stops there with the earlier
     * upserts applied.
     */
    method UpdatePatterns(c: CriterionId, ps: seq<string>, failAt: Option<nat>) returns (ok: bool)
      requires Valid()
      modifies this
      ensures Valid()
      ensures ok <==> failAt.None? || failAt.value >= |ps|
      ensures ok ==> patterns == BumpPatterns(old(patterns), c, ps)
      ensures !ok ==> patterns == BumpPatterns(old(patterns), c, ps[..failAt.value])
      ensures suggestions == old(suggestions) && feedback == old(feedback)
      ensures metrics == old(metrics) && nextId == old(nextId)
    {
      for i := 0 to |ps|
        invariant patterns == BumpPatterns(old(patterns), c, ps[..i])
        invariant Valid()
        invariant failAt.Some? ==> failAt.value >= i
        invariant suggestions == old(suggestions) && feedback == old(feedback)
        invariant metrics == old(metrics) && nextId == old(nextId)
      {
        if failAt == Some(i) {
          return false;
        }
        assert ps[..i + 1] == ps[..i] + [ps[i]];
        BumpPatternsSnoc(old(patterns), c, ps[..i], ps[i]);
        patterns := patterns[(c, ps[i]) := Frequency(patterns, (c, ps[i])) + 1];
      }
      assert ps[..|ps|] == ps;
      ok := true;
    }

    /** createOrUpdateSuggestion: the upsert keyed by (criterion, description); returns the suggestion's id. */
    method CreateOrUpdateSuggestion(c: CriterionId, impact: string, description: string, solution: string) returns (id: nat)
      requires Valid()
      modifies this
      ensures Valid()
      ensures var u := Upsert(old(suggestions), old(nextId), c, impact, description, solution);
              suggestions == u.table && nextId == u.nextId && id == u.id
      ensures patterns == old(patterns) && feedback == old(feedback) && metrics == old(metrics)
    {
      UpsertKeepsTable(suggestions, nextId, c, impact, description, solution);
      var u := Upsert(suggestions, nextId, c, impact, description, solution);
      suggestions, nextId, id := u.table, u.nextId, u.id;
    }

    /** updateSuggestionStats: one more use of the suggestion, and one more success when helpful. */
    method UpdateSuggestionStats(id: nat, helpful: bool)
      requires Valid()
      modifies this
      ensures Valid()
      ensures suggestions == BumpStats(old(suggestions), id, helpful)
      ensures patterns == old(patterns) && feedback == old(feedback)
      ensures metrics == old(metrics) && nextId == old(nextId)
    {
      BumpStatsKeepsTable(suggestions, nextId, id, helpful);
      suggestions := BumpStats(suggestions, id, helpful);
    }

    /** updateMetrics: the criterion's row recomputed from its suggestions, if it has any. */
    method UpdateMetrics(c: CriterionId)
      modifies this
      ensures metrics == RefreshMetric(old(metrics), old(suggestions), c)
      ensures patterns == old(patterns) && suggestions == old(suggestions)
      ensures feedback == old(feedback) && nextId == old(nextId)
    {
      metrics := RefreshMetric(metrics, suggestions, c);
    }

    /** ROLLBACK: the tables return to what they held at BEGIN TRANSACTION. */
    method Rollback(snap: Snapshot)
      modifies this
      ensures State() == snap
    {
      patterns, suggestions, feedback, metrics, nextId := snap.patterns, snap.suggestions, snap.feedback, snap.metrics, snap.nextId;
    }

    /**
     * learnFromNC: extract the description's patterns, count them, upsert
     * the suggestion and refresh the criterion's metric in one transaction.
     * When a statement raises, the transaction is rolled back and the error
     * is passed on; otherwise the suggestion's id is returned.
     */
    method LearnFromNC(nc: NonConformity, fault: Option<LearnFault>) returns (r: Result<nat, LearnFault>)
      requires Valid()
      modifies this
      ensures Valid()
      ensures var fires := fault.Some? && Strikes(fault.value, |PatternExtraction.Extracted(nc.description)|);
              if fires then r == Err(fault.value) && State() == old(State())
              else r == Ok(Upsert(old(suggestions), old(nextId), nc.criterion, nc.impact, nc.description, nc.solution).id)
                   && State() == Learned(old(State()), nc)
    {
      var snap := State();
      var ps := PatternExtraction.ExtractPatterns(nc.description);
      var failAt := if fault.Some? && fault.value.PatternFails? then Some(fault.value.index) else None;
      var ok := UpdatePatterns(nc.criterion, ps, failAt);
      if !ok {
        Rollback(snap);
        return Err(fault.value);
      }
      assert patterns == Learned(snap, nc).patterns;
      if fault.Some? && fault.value.SuggestionFails? {
        Rollback(snap);
        return Err(fault.value);
      }
      var id := CreateOrUpdateSuggestion(nc.criterion, nc.impact, nc.description, nc.solution);
      if fault.Some? && fault.value.MetricsFails? {
        Rollback(snap);
        return Err(fault.value);
      }
      UpdateMetrics(nc.criterion);
      if fault.Some? && fault.value.LearnCommitFails? {
        Rollback(snap);
        return Err(fault.value);
      }
      assert State() == Learned(snap, nc);
      LearnedKeepsValid(snap, nc);
      r := Ok(id);
    }

    /**
     * recordFeedback: insert the feedback row and count the use in one
     * transaction, rolled back when a statement raises. learning_metrics is
     * left as it was.
     */
    method RecordFeedback(id: nat, helpful: bool, project: Option<string>, fault: Option<FeedbackFault>) returns (committed: bool)
      requires Valid()
      modifies this
      ensures Valid()
      ensures committed <==> fault.None?
      ensures committed ==> State() == FeedbackRecorded(old(State()), id, helpful, project)
      ensures !committed ==> State() == old(State())
    {
      var snap := State();
      if fault.Some? && fault.value.InsertFails? {
        Rollback(snap);
        return false;
      }
      feedback := feedback + [Feedback(id, helpful, project)];
      if fault.Some? && fault.value.StatsFails? {
        Rollback(snap);
        return false;
      }
      UpdateSuggestionStats(id, helpful);
      if fault.Some? {
        Rollback(snap);
        return false;
      }
      committed := true;
    }

    /**
     * getSuggestions: at most five eligible suggestions of the criterion, the
     * best five by confidence, projects and uses, ordered by relevance. A
     * suggestion left out ranks no higher than any returned one, and fewer
     * than five are returned only when no eligible suggestion is left out.
     * `queryFails` stands for the SELECT raising an error, which the catch
     * turns into an empty list.
     */
    function GetSuggestions(c: CriterionId, ctx: Context, decay: nat -> real, queryFails: bool): (r: seq<Ranked>)
      reads this
      requires forall id :: decay(id) > 0.0
      ensures queryFails ==> r == []
      ensures |r| <= 5
      ensures forall i, j :: 0 <= i < j < |r| ==> r[i].relevance >= r[j].relevance
      ensures forall x :: x in r ==> Offered(x, suggestions, feedback, patterns, c, ctx, decay)
      ensures forall x, s :: x in r && LeftOut(s, r, suggestions, feedback, patterns, c) ==> RanksAbove(x.row, RowOf(s, feedback, patterns))
      ensures !queryFails && |r| < 5 ==> forall s :: !LeftOut(s, r, suggestions, feedback, patterns, c)
    {
      if queryFails then []
      else
        var r := Rank(Selection(Candidates(suggestions, feedback, patterns, c)), ctx, decay);
        SuggestedMeaning(suggestions, feedback, patterns, c, ctx, decay);
        r
    }
  }

  /** A returned entry: an eligible suggestion of the criterion, with its relevance, in [0, 1]. */
  ghost predicate Offered(x: Ranked, ss: seq<Suggestion>, fb: seq<Feedback>, freq: map<PatternKey, nat>, c: CriterionId, ctx: Context, decay: nat -> real)
    requires forall id :: decay(id) > 0.0
  {
    && x.row.suggestion in ss && x.row.suggestion.criterion == c
    && x.row == RowOf(x.row.suggestion, fb, freq) && Eligible(x.row)
    && x.relevance == Relevance(x.row, ctx, decay(x.row.suggestion.id))
    && 0.0 <= x.relevance <= 1.0
  }

  /** An eligible suggestion of the criterion whose row is not among those returned. */
  ghost predicate LeftOut(s: Suggestion, r: seq<Ranked>, ss: seq<Suggestion>, fb: seq<Feedback>, freq: map<PatternKey, nat>, c: CriterionId)
  {
    s in ss && s.criterion == c && Eligible(RowOf(s, fb, freq)) && RowOf(s, fb, freq) !in RowsOf(r)
  }

  lemma SuggestedMeaning(ss: seq<Suggestion>, fb: seq<Feedback>, freq: map<PatternKey, nat>, c: CriterionId, ctx: Context, decay: nat -> real)
    requires forall id :: decay(id) > 0.0
    ensures var rows := Candidates(ss, fb, freq, c);
            var r := Rank(Selection(rows), ctx, decay);
            && (forall x :: x in r ==> Offered(x, ss, fb, freq, c, ctx, decay))
            && (forall x, s :: x in r && LeftOut(s, r, ss, fb, freq, c) ==> RanksAbove(x.row, RowOf(s, fb, freq)))
            && (|r| < 5 ==> forall s :: !LeftOut(s, r, ss, fb, freq, c))
  {
    var rows := Candidates(ss, fb, freq, c);
    var sel := Selection(rows);
    var r := Rank(sel, ctx, decay);
    SelectedFrom(rows, sel);
    forall y | y in sel ensures y.confidence.Some? ==> y.confidence.value >= 0.0 {
      assert y == RowOf(y.suggestion, fb, freq);
    }
    RankedRows(r, sel, ctx, decay);
    SelectionComplete(rows, sel);
    forall x | x in r ensures Offered(x, ss, fb, freq, c, ctx, decay) {
      assert x.row in rows;
    }
    forall x, s | x in r && LeftOut(s, r, ss, fb, freq, c) ensures RanksAbove(x.row, RowOf(s, fb, freq)) {
      assert RowOf(s, fb, freq) in rows && RowOf(s, fb, freq) !in sel;
    }
  }

  /** The rows of a ranking are the rows it was built from. */
  lemma RankedRows(r: seq<Ranked>, sel: seq<Row>, ctx: Context, decay: nat -> real)
    requires forall id :: decay(id) > 0.0
    requires r == Rank(sel, ctx, decay)
    requires forall y :: y in sel ==> y.confidence.Some? ==> y.confidence.value >= 0.0
    ensures forall x :: x in r ==> x.row in sel && 0.0 <= x.relevance <= 1.0
    ensures forall y :: y in RowsOf(r) <==> y in sel
  {
    forall x | x in r ensures x.row in sel {
      var i :| 0 <= i < |r| && r[i] == x;
      RowsOfAt(r, i);
      assert x.row in multiset(RowsOf(r));
    }
    forall x | x in r ensures 0.0 <= x.relevance <= 1.0 {
      RelevanceInRange(x.row, ctx, decay(x.row.suggestion.id));
    }
    forall y ensures y in RowsOf(r) <==> y in sel {
      assert y in RowsOf(r) <==> y in multiset(RowsOf(r));
      assert y in sel <==> y in multiset(sel);
    }
  }

  /** The selected rows come from the candidates. */
  lemma SelectedFrom(rows: seq<Row>, sel: seq<Row>)
    requires sel == Selection(rows)
    ensures forall y :: y in sel ==> y in rows
  {
    forall y | y in sel ensures y in rows {
      assert y in multiset(sel);
    }
  }

  /** A selection shorter than its limit kept every row. */
  lemma SelectionComplete(rows: seq<Row>, sel: seq<Row>)
    requires sel == Selection(rows)
    ensures |sel| < 5 ==> forall y :: y in rows ==> y in sel
  {
    forall y | |sel| < 5 && y in rows ensures y in sel {
      assert |sel| == |rows|;
      assert multiset(sel) == multiset(rows) by {
        assert |multiset(sel)| == |multiset(rows)|;
        assert multiset(sel) <= multiset(rows);
        MultisetSubsetCard(multiset(sel), multiset(rows));
      }
      assert y in multiset(rows);
    }
  }

  lemma MultisetSubsetCard<T>(a: multiset<T>, b: multiset<T>)
    requires a <= b && |a| == |b|
    ensures a == b
  {
    var d := b - a;
    assert b == a + d;
    assert |d| == 0;
  }
}
