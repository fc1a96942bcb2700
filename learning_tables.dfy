/**
 * The tables of the learning database (learning_patterns,
 * learning_suggestions, learning_feedback, learning_metrics) as values, and
 * the pure computations the learning service performs on them.
 */
module LearningTables {
  import opened Wrappers
  import opened Seqs

  type CriterionId = string

  /** A key of learning_patterns, unique per UNIQUE(criterion_id, pattern). */
  type PatternKey = (CriterionId, string)

  /** A row of learning_suggestions; `used` and `success` are its INTEGER counters. */
  datatype Suggestion = Suggestion(
    id: nat,
    criterion: CriterionId,
    impact: string,
    description: string,
    solution: string,
    used: nat,
    success: nat)

  /** A row of learning_feedback; a missing project id is NULL. */
  datatype Feedback = Feedback(suggestion: nat, helpful: bool, project: Option<string>)

  /** A row of learning_metrics. */
  datatype Metric = Metric(suggestionCount: nat, successRate: real, usageCount: nat)

  /** The invariants of learning_suggestions: AUTOINCREMENT ids below the next one, UNIQUE(criterion_id, description), and no more successes than uses. */
  ghost predicate TableValid(ss: seq<Suggestion>, nextId: nat)
  {
    && nextId > 0
    && (forall s :: s in ss ==> 0 < s.id < nextId && s.success <= s.used)
    && (forall i, j :: 0 <= i < j < |ss| ==> ss[i].id != ss[j].id)
    && (forall i, j :: 0 <= i < j < |ss| ==> ss[i].criterion != ss[j].criterion || ss[i].description != ss[j].description)
  }

  // ---------------------------------------------------------------------
  // learning_patterns
  // ---------------------------------------------------------------------

  /** The stored frequency of a key, 0 when it has no row. */
  function Frequency(freq: map<PatternKey, nat>, k: PatternKey): nat
  {
    if k in freq then freq[k] else 0
  }

  /** updatePatterns: one upsert per pattern, in order; a new key starts at 1, an existing one gains 1. */
  function BumpPatterns(freq: map<PatternKey, nat>, c: CriterionId, ps: seq<string>): map<PatternKey, nat>
  {
    if ps == [] then freq
    else
      var prev := BumpPatterns(freq, c, ps[..|ps| - 1]);
      prev[(c, ps[|ps| - 1]) := Frequency(prev, (c, ps[|ps| - 1])) + 1]
  }

  /** One more upsert at the end of the pattern list. */
  lemma BumpPatternsSnoc(freq: map<PatternKey, nat>, c: CriterionId, ps: seq<string>, p: string)
    ensures BumpPatterns(freq, c, ps + [p]) == BumpPatterns(freq, c, ps)[(c, p) := Frequency(BumpPatterns(freq, c, ps), (c, p)) + 1]
  {
    assert (ps + [p])[..|ps|] == ps;
  }

  /**
   * After the upserts, each key of the criterion is counted once more per
   * occurrence of its pattern in `ps`; no other key changes.
   */
  lemma {:induction false} BumpPatternsCounts(freq: map<PatternKey, nat>, c: CriterionId, ps: seq<string>)
    ensures forall k :: k in BumpPatterns(freq, c, ps) <==> k in freq || (k.0 == c && k.1 in ps)
    ensures forall k :: k in BumpPatterns(freq, c, ps) ==>
              BumpPatterns(freq, c, ps)[k] == Frequency(freq, k) + (if k.0 == c then Count(ps, k.1) else 0)
  {
    if ps != [] {
      var init, p := ps[..|ps| - 1], ps[|ps| - 1];
      assert ps == init + [p];
      BumpPatternsCounts(freq, c, init);
      forall q: string
        ensures Count(ps, q) == Count(init, q) + (if q == p then 1 else 0)
      {
        CountAppend(init, [p], q);
      }
    }
  }

  // ---------------------------------------------------------------------
  // learning_suggestions
  // ---------------------------------------------------------------------

  /** `SELECT … WHERE criterion_id = ? AND description = ?`: the position of the suggestion with that key, if any. */
  function FindSuggestion(ss: seq<Suggestion>, c: CriterionId, d: string): (r: Option<nat>)
    ensures r.Some? ==> r.value < |ss| && ss[r.value].criterion == c && ss[r.value].description == d
    ensures r.None? ==> forall s :: s in ss ==> s.criterion != c || s.description != d
  {
    if ss == [] then None
    else if ss[0].criterion == c && ss[0].description == d then Some(0)
    else match FindSuggestion(ss[1..], c, d)
      case None =>
        assert forall s :: s in ss ==> s == ss[0] || s in ss[1..];
        None
      case Some(i) => Some(i + 1)
  }

  /**
   * The guard `used_count > 10 AND success_count/used_count > 0.8`. Both
   * columns are INTEGER, so SQLite divides with truncation before comparing.
   */
  predicate Proven(s: Suggestion)
  {
    s.used > 10 && (s.success / s.used) as real > 0.8
  }

  /** With at most as many successes as uses, the guard holds exactly when every one of more than ten uses succeeded. */
  lemma ProvenMeansAllSucceeded(s: Suggestion)
    requires s.success <= s.used
    ensures Proven(s) <==> s.used > 10 && s.success == s.used
  {
    if s.used > 10 {
      if s.success == s.used {
        assert s.success / s.used == 1;
      } else {
        assert s.success / s.used == 0;
      }
    }
  }

  /** A suggestion helpful in 13 of 15 uses (a ratio above 0.8) is not proven: its advice is still overwritten. */
  lemma HighRatioNotProven()
    ensures var s := Suggestion(1, "1.1", "", "", "", 15, 13);
            s.success as real / s.used as real > 0.8 && !Proven(s)
  {
    var s := Suggestion(1, "1.1", "", "", "", 15, 13);
    assert s.success / s.used == 0;
  }

  /** The UPDATE of createOrUpdateSuggestion: a proven suggestion keeps its impact and solution, any other takes the new ones; nothing else changes. */
  function MergeReport(s: Suggestion, impact: string, solution: string): (r: Suggestion)
    ensures r.id == s.id && r.criterion == s.criterion && r.description == s.description
    ensures r.used == s.used && r.success == s.success
    ensures Proven(s) ==> r.impact == s.impact && r.solution == s.solution
    ensures !Proven(s) ==> r.impact == impact && r.solution == solution
  {
    if Proven(s) then s else s.(impact := impact, solution := solution)
  }

  /** The table, the next AUTOINCREMENT id and the id createOrUpdateSuggestion resolves with. */
  datatype Upserted = Upserted(table: seq<Suggestion>, nextId: nat, id: nat)

  /**
   * createOrUpdateSuggestion on the table: with no suggestion for the key,
   * a new row with zero counters and a fresh id; otherwise that row merged
   * in place and its id.
   */
  function Upsert(ss: seq<Suggestion>, nextId: nat, c: CriterionId, impact: string, description: string, solution: string): (u: Upserted)
    ensures FindSuggestion(ss, c, description).None? ==>
              u.table == ss + [Suggestion(nextId, c, impact, description, solution, 0, 0)]
              && u.id == nextId && u.nextId == nextId + 1
    ensures FindSuggestion(ss, c, description).Some? ==>
              var i := FindSuggestion(ss, c, description).value;
              u.table == ss[i := MergeReport(ss[i], impact, solution)] && u.id == ss[i].id && u.nextId == nextId
  {
    match FindSuggestion(ss, c, description)
    case None => Upserted(ss + [Suggestion(nextId, c, impact, description, solution, 0, 0)], nextId + 1, nextId)
    case Some(i) => Upserted(ss[i := MergeReport(ss[i], impact, solution)], nextId, ss[i].id)
  }

  /**
   * After the upsert the table is still valid, holds exactly one suggestion
   * for the key, and that suggestion carries the returned id.
   */
  lemma UpsertKeepsTable(ss: seq<Suggestion>, nextId: nat, c: CriterionId, impact: string, description: string, solution: string)
    requires TableValid(ss, nextId)
    ensures var u := Upsert(ss, nextId, c, impact, description, solution);
            TableValid(u.table, u.nextId)
            && |u.table| == |ss| + (if FindSuggestion(ss, c, description).None? then 1 else 0)
            && exists i :: 0 <= i < |u.table| && u.table[i].id == u.id && u.table[i].criterion == c && u.table[i].description == description
  {
    var u := Upsert(ss, nextId, c, impact, description, solution);
    match FindSuggestion(ss, c, description)
    case None =>
      var t := u.table;
      assert t[|ss|].id == u.id;
      forall i, j | 0 <= i < j < |t| ensures t[i].criterion != t[j].criterion || t[i].description != t[j].description {
        if j == |ss| {
          assert t[i] in ss;
        }
      }
      forall i, j | 0 <= i < j < |t| ensures t[i].id != t[j].id {
        if j == |ss| {
          assert t[i] in ss;
        }
      }
    case Some(k) =>
      var t := u.table;
      assert t[k].id == u.id;
      forall s | s in t ensures 0 < s.id < u.nextId && s.success <= s.used {
        var i :| 0 <= i < |t| && t[i] == s;
        assert i != k ==> t[i] == ss[i];
        assert ss[i] in ss;
      }
  }

  /** The UPDATE of updateSuggestionStats: the row with the id counts one more use, and one more success when helpful. */
  function BumpStats(ss: seq<Suggestion>, id: nat, helpful: bool): (r: seq<Suggestion>)
    ensures |r| == |ss|
    ensures forall i :: 0 <= i < |ss| ==>
              r[i].id == ss[i].id && r[i].criterion == ss[i].criterion && r[i].description == ss[i].description
              && r[i].impact == ss[i].impact && r[i].solution == ss[i].solution
              && r[i].used == ss[i].used + (if ss[i].id == id then 1 else 0)
              && r[i].success == ss[i].success + (if ss[i].id == id && helpful then 1 else 0)
  {
    seq(|ss|, i requires 0 <= i < |ss| =>
      if ss[i].id == id then ss[i].(used := ss[i].used + 1, success := ss[i].success + (if helpful then 1 else 0))
      else ss[i])
  }

  /** Counting a use keeps the table valid, in particular no more successes than uses. */
  lemma BumpStatsKeepsTable(ss: seq<Suggestion>, nextId: nat, id: nat, helpful: bool)
    requires TableValid(ss, nextId)
    ensures TableValid(BumpStats(ss, id, helpful), nextId)
  {
    var r := BumpStats(ss, id, helpful);
    forall s | s in r ensures 0 < s.id < nextId && s.success <= s.used {
      var i :| 0 <= i < |r| && r[i] == s;
      assert ss[i] in ss;
    }
  }

  /** Number of rows of the table with that id and criterion. */
  function Uses(ss: seq<Suggestion>, id: nat, c: CriterionId): (n: nat)
    ensures n == 0 <==> forall s :: s in ss ==> s.id != id || s.criterion != c
  {
    if ss == [] then 0
    else
      var init, s := ss[..|ss| - 1], ss[|ss| - 1];
      assert ss == init + [s];
      Uses(init, id, c) + (if s.id == id && s.criterion == c then 1 else 0)
  }

  // ---------------------------------------------------------------------
  // learning_metrics
  // ---------------------------------------------------------------------

  /** `WHERE criterion_id = ?` on learning_suggestions. */
  function OfCriterion(ss: seq<Suggestion>, c: CriterionId): seq<Suggestion>
  {
    Filter(ss, (s: Suggestion) => s.criterion == c)
  }

  /** `CASE WHEN used_count > 0 THEN success_count * 1.0 / used_count ELSE 0 END` */
  function SuccessRatio(s: Suggestion): (r: real)
    ensures s.success <= s.used ==> 0.0 <= r <= 1.0
  {
    if s.used > 0 then s.success as real / s.used as real else 0.0
  }

  function SumRatios(ss: seq<Suggestion>): real
  {
    if ss == [] then 0.0 else SumRatios(ss[..|ss| - 1]) + SuccessRatio(ss[|ss| - 1])
  }

  /** `SUM(used_count)` */
  function SumUsed(ss: seq<Suggestion>): nat
  {
    if ss == [] then 0 else SumUsed(ss[..|ss| - 1]) + ss[|ss| - 1].used
  }

  lemma {:induction false} SumRatiosBounds(ss: seq<Suggestion>)
    requires forall s :: s in ss ==> s.success <= s.used
    ensures 0.0 <= SumRatios(ss) <= |ss| as real
  {
    if ss != [] {
      var init := ss[..|ss| - 1];
      assert forall s :: s in init ==> s in ss;
      assert ss[|ss| - 1] in ss;
      SumRatiosBounds(init);
    }
  }

  /** `COUNT(DISTINCT id)` */
  function DistinctIds(ss: seq<Suggestion>): set<nat>
  {
    set s | s in ss :: s.id
  }

  /**
   * The row updateMetrics writes for a criterion: the number of its
   * suggestions, the mean of their success ratios and the sum of their
   * uses; none when it has no suggestion (the GROUP BY yields no row).
   */
  function ComputeMetric(ss: seq<Suggestion>, c: CriterionId): (m: Option<Metric>)
    ensures m.None? <==> forall s :: s in ss ==> s.criterion != c
    ensures m.Some? ==> m.value.suggestionCount > 0 && m.value.usageCount == SumUsed(OfCriterion(ss, c))
    ensures m.Some? ==> MeanRatio(m.value.successRate, OfCriterion(ss, c))
  {
    var rows := OfCriterion(ss, c);
    OfCriterionEmpty(ss, c);
    if rows == [] then None else Some(GroupMetric(rows))
  }

  lemma OfCriterionEmpty(ss: seq<Suggestion>, c: CriterionId)
    ensures OfCriterion(ss, c) == [] <==> forall s :: s in ss ==> s.criterion != c
  {
    if OfCriterion(ss, c) != [] {
      assert OfCriterion(ss, c)[0] in OfCriterion(ss, c);
    }
  }

  /** The aggregates of one non-empty group of suggestions. */
  function GroupMetric(rows: seq<Suggestion>): (m: Metric)
    requires rows != []
    ensures m.suggestionCount > 0 && m.usageCount == SumUsed(rows)
    ensures MeanRatio(m.successRate, rows)
  {
    assert rows[0] in rows && rows[0].id in DistinctIds(rows);
    Metric(|DistinctIds(rows)|, Mean(SumRatios(rows), |rows|), SumUsed(rows))
  }

  /** `r` is the mean success ratio of `rows`: `r` times their number is the sum of their ratios. */
  ghost predicate MeanRatio(r: real, rows: seq<Suggestion>)
  {
    r * |rows| as real == SumRatios(rows)
  }

  /** `AVG`: a sum over `n` rows divided by `n`. */
  function Mean(sum: real, n: nat): (r: real)
    requires n > 0
    ensures r * n as real == sum
  {
    sum / n as real
  }

  lemma CancelFactor(x: real, y: real, k: real)
    requires k > 0.0 && x * k < y * k
    ensures x < y
  {
  }

  lemma {:induction false} SumRatiosAllOne(rows: seq<Suggestion>)
    requires forall s :: s in rows ==> SuccessRatio(s) == 1.0
    ensures SumRatios(rows) == |rows| as real
  {
    if rows != [] {
      var init := rows[..|rows| - 1];
      assert forall s :: s in init ==> s in rows;
      assert rows[|rows| - 1] in rows;
      SumRatiosAllOne(init);
    }
  }

  /** When every suggestion of the criterion was used and always helped, the success rate is 1. */
  lemma {:induction false} MetricAllSucceeded(ss: seq<Suggestion>, c: CriterionId)
    requires exists s :: s in ss && s.criterion == c
    requires forall s :: s in ss && s.criterion == c ==> 0 < s.used && s.success == s.used
    ensures ComputeMetric(ss, c).Some? && ComputeMetric(ss, c).value.successRate == 1.0
  {
    var rows := OfCriterion(ss, c);
    assert forall s :: s in rows ==> SuccessRatio(s) == 1.0 by {
      forall s | s in rows ensures SuccessRatio(s) == 1.0 {
        assert s in ss && s.criterion == c;
      }
    }
    assert rows != [] by {
      var s :| s in ss && s.criterion == c;
      assert s in rows;
    }
    SumRatiosAllOne(rows);
    assert ComputeMetric(ss, c).value.successRate == Mean(|rows| as real, |rows|);
    MeanOfCount(|rows|);
  }

  lemma MeanOfCount(n: nat)
    requires n > 0
    ensures Mean(n as real, n) == 1.0
  {
  }


  /**
   * A suggestion that was never used counts in the mean with ratio 0 (the
   * `ELSE 0` branch), so adding one dilutes the success rate instead of
   * leaving it as it was.
   */
  lemma {:induction false} UnusedSuggestionDilutesRate(ss: seq<Suggestion>, c: CriterionId, s: Suggestion)
    requires s.criterion == c && s.used == 0
    requires ComputeMetric(ss, c).Some?
    ensures ComputeMetric(ss + [s], c).Some?
    ensures OfCriterion(ss + [s], c) == OfCriterion(ss, c) + [s]
    ensures SumRatios(OfCriterion(ss + [s], c)) == SumRatios(OfCriterion(ss, c))
    ensures ComputeMetric(ss, c).value.successRate > 0.0 ==>
              ComputeMetric(ss + [s], c).value.successRate < ComputeMetric(ss, c).value.successRate
  {
    var rows := OfCriterion(ss, c);
    OfCriterionSnoc(ss, c, s);
    assert s in ss + [s];
    assert ComputeMetric(ss, c) == Some(GroupMetric(rows));
    assert ComputeMetric(ss + [s], c) == Some(GroupMetric(rows + [s]));
    GroupMetricGrows(rows, s);
    MeanDilutes(SumRatios(rows), |rows|, ComputeMetric(ss, c).value.successRate, ComputeMetric(ss + [s], c).value.successRate);
  }

  /** The success rates of a group before and after one more row whose ratio is 0. */
  lemma GroupMetricGrows(rows: seq<Suggestion>, s: Suggestion)
    requires rows != [] && s.used == 0
    ensures GroupMetric(rows).successRate == Mean(SumRatios(rows), |rows|)
    ensures GroupMetric(rows + [s]).successRate == Mean(SumRatios(rows), |rows| + 1)
  {
    assert (rows + [s])[..|rows|] == rows;
  }

  lemma OfCriterionSnoc(ss: seq<Suggestion>, c: CriterionId, s: Suggestion)
    requires s.criterion == c && s.used == 0
    ensures OfCriterion(ss + [s], c) == OfCriterion(ss, c) + [s]
    ensures SumRatios(OfCriterion(ss, c) + [s]) == SumRatios(OfCriterion(ss, c))
  {
    assert (ss + [s])[..|ss|] == ss;
    var rows := OfCriterion(ss, c);
    assert (rows + [s])[..|rows|] == rows;
  }

  /** A sum spread over one more row gives a smaller mean when it is positive. */
  lemma MeanDilutes(sum: real, n: nat, before: real, after: real)
    requires n > 0 && before == Mean(sum, n) && after == Mean(sum, n + 1)
    ensures after * (n as real + 1.0) == before * n as real
    ensures before > 0.0 ==> after < before
  {
    assert (n + 1) as real == n as real + 1.0;
    if before > 0.0 {
      assert before * (n as real + 1.0) == sum + before;
      CancelFactor(after, before, n as real + 1.0);
    }
  }





  /** On a valid table the metric counts every suggestion of the criterion once and its success rate lies in [0, 1]. */
  lemma MetricMeaning(ss: seq<Suggestion>, nextId: nat, c: CriterionId)
    requires TableValid(ss, nextId)
    requires ComputeMetric(ss, c).Some?
    ensures var m := ComputeMetric(ss, c).value;
            m.suggestionCount == |Elements(OfCriterion(ss, c))| && 0.0 <= m.successRate <= 1.0
  {
    var rows := OfCriterion(ss, c);
    assert forall s :: s in rows ==> s.success <= s.used;
    SumRatiosBounds(rows);
    DistinctIdsCount(rows, ss);
    MeanBounds(SumRatios(rows), |rows|);
    assert ComputeMetric(ss, c).value == GroupMetric(rows);
  }

  lemma MeanBounds(sum: real, n: nat)
    requires 0 < n && 0.0 <= sum <= n as real
    ensures 0.0 <= Mean(sum, n) <= 1.0
  {
  }

  /** The distinct ids of rows drawn from a table with unique ids are as many as the distinct rows. */
  lemma DistinctIdsCount(rows: seq<Suggestion>, ss: seq<Suggestion>)
    requires forall i, j :: 0 <= i < j < |ss| ==> ss[i].id != ss[j].id
    requires forall s :: s in rows ==> s in ss
    ensures |DistinctIds(rows)| == |Elements(rows)|
  {
    IdsOfDistinct(Elements(rows), ss);
    assert DistinctIds(rows) == set s | s in Elements(rows) :: s.id;
  }

  /** Distinct suggestions of a table with unique ids have distinct ids. */
  lemma {:induction false} IdsOfDistinct(rows: set<Suggestion>, ss: seq<Suggestion>)
    requires forall i, j :: 0 <= i < j < |ss| ==> ss[i].id != ss[j].id
    requires forall s :: s in rows ==> s in ss
    ensures |set s | s in rows :: s.id| == |rows|
    decreases |rows|
  {
    if rows != {} {
      var x :| x in rows;
      var rest := rows - {x};
      IdsOfDistinct(rest, ss);
      var ids := set s | s in rows :: s.id;
      var restIds := set s | s in rest :: s.id;
      assert ids == restIds + {x.id};
      forall y | y in rest ensures y.id != x.id {
        var i :| 0 <= i < |ss| && ss[i] == x;
        var j :| 0 <= j < |ss| && ss[j] == y;
        assert i != j;
      }
      assert x.id !in restIds;
    }
  }

  /** Sum of `used` over the rows of the criterion, without building the filtered table. */
  function UsedOf(ss: seq<Suggestion>, c: CriterionId): nat
  {
    if ss == [] then 0
    else UsedOf(ss[..|ss| - 1], c) + (if ss[|ss| - 1].criterion == c then ss[|ss| - 1].used else 0)
  }

  lemma {:induction false} SumUsedOf(ss: seq<Suggestion>, c: CriterionId)
    ensures SumUsed(OfCriterion(ss, c)) == UsedOf(ss, c)
  {
    if ss != [] {
      var init, s := ss[..|ss| - 1], ss[|ss| - 1];
      assert ss == init + [s];
      SumUsedOf(init, c);
      FilterAppend(init, [s], (s: Suggestion) => s.criterion == c);
      SumUsedAppend(OfCriterion(init, c), Filter([s], (s: Suggestion) => s.criterion == c));
    }
  }

  lemma {:induction false} BumpStatsUsage(ss: seq<Suggestion>, id: nat, helpful: bool, c: CriterionId)
    ensures UsedOf(BumpStats(ss, id, helpful), c) == UsedOf(ss, c) + Uses(ss, id, c)
  {
    if ss != [] {
      var init := ss[..|ss| - 1];
      var b := BumpStats(ss, id, helpful);
      assert b[..|b| - 1] == BumpStats(init, id, helpful);
      BumpStatsUsage(init, id, helpful, c);
    }
  }

  lemma SumUsedAppend(a: seq<Suggestion>, b: seq<Suggestion>)
    requires |b| <= 1
    ensures SumUsed(a + b) == SumUsed(a) + SumUsed(b)
  {
    if |b| == 1 {
      assert (a + b)[..|a + b| - 1] == a;
      assert b[..0] == [];
    } else {
      assert a + b == a;
    }
  }

  /**
   * Counting a use of one of the criterion's suggestions changes the metric
   * its rows give, so a stored metric that matched them before no longer does.
   */
  lemma StatsOutdateMetric(ss: seq<Suggestion>, id: nat, helpful: bool, c: CriterionId, stored: Metric)
    requires ComputeMetric(ss, c) == Some(stored)
    requires exists s :: s in ss && s.id == id && s.criterion == c
    ensures ComputeMetric(BumpStats(ss, id, helpful), c) != Some(stored)
  {
    BumpStatsUsage(ss, id, helpful, c);
    SumUsedOf(ss, c);
    SumUsedOf(BumpStats(ss, id, helpful), c);
  }

  /**
   * updateMetrics: `INSERT OR REPLACE` of the criterion's recomputed row;
   * the table is left as it was when the criterion has no suggestion.
   */
  function RefreshMetric(metrics: map<CriterionId, Metric>, ss: seq<Suggestion>, c: CriterionId): (r: map<CriterionId, Metric>)
    ensures forall k :: k != c ==> (k in r <==> k in metrics) && (k in r ==> r[k] == metrics[k])
    ensures ComputeMetric(ss, c).Some? ==> c in r && r[c] == ComputeMetric(ss, c).value
    ensures ComputeMetric(ss, c).None? ==> r == metrics
  {
    match ComputeMetric(ss, c)
    case None => metrics
    case Some(m) => metrics[c := m]
  }

  /**
   * getMetrics: the row of one criterion, or every row when no criterion
   * (or the falsy empty id) is given.
   */
  function SelectMetrics(metrics: map<CriterionId, Metric>, c: Option<CriterionId>): (r: map<CriterionId, Metric>)
    ensures c.None? || c.value == "" ==> r == metrics
    ensures c.Some? && c.value != "" ==> (forall k :: k in r <==> k == c.value && k in metrics)
    ensures forall k :: k in r ==> k in metrics && r[k] == metrics[k]
  {
    if c.None? || c.value == "" then metrics
    else if c.value in metrics then map[c.value := metrics[c.value]]
    else map[]
  }
}
