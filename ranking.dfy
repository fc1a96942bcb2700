/**
 * getSuggestions: the query that selects at most five suggestions of a
 * criterion, and the relevance score by which they are then re-ranked.
 */
module Ranking {
  import opened Wrappers
  import opened Seqs
  import opened Sorting
  import opened LearningTables

  /** A row of the suggestions query: the suggestion, its confidence (NULL when unused), its distinct projects and the criterion's learned patterns. */
  datatype Row = Row(suggestion: Suggestion, confidence: Option<real>, projects: nat, learned: set<string>)

  /** The request context; `patterns` is absent (or falsy) or a list of tags. */
  datatype Context = Context(patterns: Option<seq<string>>)

  /** A returned suggestion with its relevance score. */
  datatype Ranked = Ranked(row: Row, relevance: real)

  /** `success_count * 1.0 / NULLIF(used_count, 0)`: the share of helpful uses, NULL for an unused suggestion. */
  function Confidence(s: Suggestion): (r: Option<real>)
    ensures r.None? <==> s.used == 0
    ensures r.Some? ==> r.value * s.used as real == s.success as real && r.value >= 0.0
    ensures r.Some? && s.success <= s.used ==> 0.0 <= r.value <= 1.0
  {
    if s.used == 0 then None else Some(s.success as real / s.used as real)
  }

  /** `COUNT(DISTINCT f.project_id)` over the suggestion's feedback; NULL project ids are not counted. */
  function ProjectsCount(fb: seq<Feedback>, id: nat): nat
  {
    |set f | f in fb && f.suggestion == id && f.project.Some? :: f.project.value|
  }

  /** `GROUP_CONCAT(DISTINCT p.pattern)` over the patterns learned for the criterion, as the set it lists. */
  function LearnedPatterns(freq: map<PatternKey, nat>, c: CriterionId): set<string>
  {
    set k | k in freq && k.0 == c :: k.1
  }

  function RowOf(s: Suggestion, fb: seq<Feedback>, freq: map<PatternKey, nat>): Row
  {
    Row(s, Confidence(s), ProjectsCount(fb, s.id), LearnedPatterns(freq, s.criterion))
  }

  /** `HAVING confidence IS NULL OR confidence > 0.3` */
  predicate Eligible(r: Row)
  {
    r.confidence.None? || r.confidence.value > 0.3
  }

  /** The rows of the criterion's eligible suggestions, in table order. */
  function Candidates(ss: seq<Suggestion>, fb: seq<Feedback>, freq: map<PatternKey, nat>, c: CriterionId): (rows: seq<Row>)
    ensures forall r :: r in rows ==> Eligible(r) && r.suggestion in ss && r.suggestion.criterion == c && r == RowOf(r.suggestion, fb, freq)
    ensures forall s :: s in ss && s.criterion == c && Eligible(RowOf(s, fb, freq)) ==> RowOf(s, fb, freq) in rows
  {
    if ss == [] then []
    else
      var init, s := ss[..|ss| - 1], ss[|ss| - 1];
      assert ss == init + [s];
      var rows := Candidates(init, fb, freq, c);
      if s.criterion == c && Eligible(RowOf(s, fb, freq)) then rows + [RowOf(s, fb, freq)] else rows
  }

  /**
   * `ORDER BY confidence DESC NULLS LAST, projects_count DESC, used_count
   * DESC`: `a` may come before `b`.
   */
  predicate RanksAbove(a: Row, b: Row)
  {
    if a.confidence != b.confidence then
      a.confidence.Some? && (b.confidence.None? || a.confidence.value > b.confidence.value)
    else if a.projects != b.projects then a.projects > b.projects
    else a.suggestion.used >= b.suggestion.used
  }

  lemma RanksAboveOrders()
    ensures TotalPreorder(RanksAbove)
  {
    forall a: Row, b: Row, c: Row | RanksAbove(a, b) && RanksAbove(b, c) ensures RanksAbove(a, c) {
      if a.confidence == b.confidence && b.confidence == c.confidence && a.projects == b.projects {
        assert RanksAbove(a, c);
      }
    }
  }

  /**
   * `ORDER BY … LIMIT 5`: the five best-ranked rows in order. Among equal
   * keys the table order is kept, one of the orders SQLite may produce.
   */
  function Selection(rows: seq<Row>): (sel: seq<Row>)
    ensures |sel| == Min(5, |rows|)
    ensures SortedBy(sel, RanksAbove)
    ensures multiset(sel) <= multiset(rows)
    ensures forall x, y :: x in sel && y in rows && y !in sel ==> RanksAbove(x, y)
  {
    RanksAboveOrders();
    var sorted := SortBy(rows, RanksAbove);
    var sel := Take(sorted, 5);
    assert sel == sorted[..|sel|];
    PrefixRanksAbove(rows, sorted, |sel|, RanksAbove);
    sel
  }

  /** The criterion's learned patterns that the context lists. */
  function MatchedPatterns(learned: set<string>, listed: seq<string>): (m: set<string>)
    ensures m <= learned
  {
    set p | p in learned && p in listed
  }

  /** Number of the criterion's learned patterns the context lists; no bonus when the context lists none. */
  function Matching(learned: set<string>, ctx: Context): (n: nat)
    ensures n <= |learned|
    ensures ctx.patterns.None? ==> n == 0
  {
    if ctx.patterns.Some? then
      var m := MatchedPatterns(learned, ctx.patterns.value);
      SubsetCard(m, learned);
      |m|
    else 0
  }

  /** The score before decay: confidence (0 when NULL), a tenth per project up to five, a tenth per matching pattern. */
  function Score(row: Row, ctx: Context): (v: real)
    ensures row.confidence.Some? && row.confidence.value >= 0.0 ==> v >= 0.0
  {
    (if row.confidence.Some? then row.confidence.value else 0.0)
    + Min(row.projects, 5) as real / 10.0
    + 0.1 * Matching(row.learned, ctx) as real
  }

  /**
   * calculateRelevanceScore with the recency factor `decay` (the
   * exponential of minus the age in years, always positive) as a parameter.
   */
  function Relevance(row: Row, ctx: Context, decay: real): (r: real)
    requires decay > 0.0
    ensures r <= 1.0
    ensures Score(row, ctx) >= 0.0 ==> r >= 0.0
  {
    Decayed(Score(row, ctx), decay)
  }

  /** `Math.min(1, score * decay)` */
  function Decayed(score: real, decay: real): (r: real)
    requires decay > 0.0
    ensures r <= 1.0
    ensures score >= 0.0 ==> r >= 0.0
  {
    var v := score * decay;
    if v < 1.0 then v else 1.0
  }

  /** A higher score never gives a lower relevance. */
  lemma DecayedMonotone(x: real, y: real, decay: real)
    requires decay > 0.0 && x <= y
    ensures Decayed(x, decay) <= Decayed(y, decay)
  {
    assert (y - x) * decay >= 0.0;
  }

  /** A context that lists more of the learned patterns never lowers a suggestion's relevance. */
  lemma MoreMatchesRankHigher(row: Row, ctxA: Context, ctxB: Context, decay: real)
    requires decay > 0.0
    requires Matching(row.learned, ctxA) <= Matching(row.learned, ctxB)
    ensures Relevance(row, ctxA, decay) <= Relevance(row, ctxB, decay)
  {
    DecayedMonotone(Score(row, ctxA), Score(row, ctxB), decay);
  }

  /** A row of a valid table has a non-negative score, so its relevance lies in [0, 1]. */
  lemma RelevanceInRange(row: Row, ctx: Context, decay: real)
    requires decay > 0.0
    requires row.confidence.Some? ==> row.confidence.value >= 0.0
    ensures 0.0 <= Relevance(row, ctx, decay) <= 1.0
  {
  }

  /** The comparator `(a, b) => b.relevanceScore - a.relevanceScore`: `a` may come before `b`. */
  predicate ByRelevance(a: Ranked, b: Ranked)
  {
    a.relevance >= b.relevance
  }

  lemma ByRelevanceOrders()
    ensures TotalPreorder(ByRelevance)
  {
  }

  /** Each selected row with its relevance; `decay` gives each suggestion's recency factor by id. */
  function Scored(sel: seq<Row>, ctx: Context, decay: nat -> real): (r: seq<Ranked>)
    requires forall id :: decay(id) > 0.0
    ensures |r| == |sel|
    ensures forall i :: 0 <= i < |sel| ==> r[i].row == sel[i] && r[i].relevance == Relevance(sel[i], ctx, decay(sel[i].suggestion.id))
  {
    seq(|sel|, i requires 0 <= i < |sel| => Ranked(sel[i], Relevance(sel[i], ctx, decay(sel[i].suggestion.id))))
  }

  /** The rows of a ranked list. */
  function RowsOf(r: seq<Ranked>): (rows: seq<Row>)
    ensures |rows| == |r|
  {
    if r == [] then [] else [r[0].row] + RowsOf(r[1..])
  }

  lemma {:induction false} RowsOfAt(r: seq<Ranked>, i: nat)
    requires i < |r|
    ensures RowsOf(r)[i] == r[i].row
  {
    if i > 0 {
      RowsOfAt(r[1..], i - 1);
    }
  }

  lemma {:induction false} RowsOfAppend(a: seq<Ranked>, b: seq<Ranked>)
    ensures RowsOf(a + b) == RowsOf(a) + RowsOf(b)
  {
    if a != [] {
      assert (a + b)[1..] == a[1..] + b;
      RowsOfAppend(a[1..], b);
    } else {
      assert a + b == b;
    }
  }

  /** Reordering a ranked list reorders its rows alike. */
  lemma {:induction false} RowsOfMultiset(a: seq<Ranked>, b: seq<Ranked>)
    requires multiset(a) == multiset(b)
    ensures multiset(RowsOf(a)) == multiset(RowsOf(b))
    decreases |a|
  {
    if a != [] {
      var x := a[0];
      assert x in multiset(b);
      var j :| 0 <= j < |b| && b[j] == x;
      var b' := b[..j] + b[j + 1..];
      RemoveAt(b, j);
      ConsMultiset(a);
      RowsOfMultiset(a[1..], b');
      RowsOfAppend([x], a[1..]);
      assert RowsOf([x]) == [x.row];
      assert multiset(RowsOf(a)) == multiset{x.row} + multiset(RowsOf(a[1..]));
    }
  }

  lemma ConsMultiset(a: seq<Ranked>)
    requires a != []
    ensures a == [a[0]] + a[1..] && multiset(a[1..]) == multiset(a) - multiset{a[0]}
  {
    assert a == [a[0]] + a[1..];
  }

  /** Taking out the element at `j` takes its row out of the rows. */
  lemma RemoveAt(b: seq<Ranked>, j: nat)
    requires j < |b|
    ensures multiset(b[..j] + b[j + 1..]) == multiset(b) - multiset{b[j]}
    ensures multiset(RowsOf(b)) == multiset(RowsOf(b[..j] + b[j + 1..])) + multiset{b[j].row}
  {
    var left, x, right := b[..j], b[j], b[j + 1..];
    assert b[j..] == [x] + right;
    assert b == left + ([x] + right);
    RemoveRowAt(left, x, right);
    RemoveElementAt(left, x, right);
  }

  lemma RemoveElementAt(left: seq<Ranked>, x: Ranked, right: seq<Ranked>)
    ensures multiset(left + right) == multiset(left + ([x] + right)) - multiset{x}
  {
    assert multiset(left + ([x] + right)) == multiset(left) + multiset{x} + multiset(right);
  }

  lemma RemoveRowAt(left: seq<Ranked>, x: Ranked, right: seq<Ranked>)
    ensures multiset(RowsOf(left + ([x] + right))) == multiset(RowsOf(left + right)) + multiset{x.row}
  {
    RowsOfAppend(left, [x] + right);
    RowsOfAppend([x], right);
    RowsOfAppend(left, right);
    var rl, rr := RowsOf(left), RowsOf(right);
    assert RowsOf([x] + right) == [x.row] + rr;
    assert multiset(rl + ([x.row] + rr)) == multiset(rl) + multiset{x.row} + multiset(rr);
  }

  /**
   * The mapped rows sorted by relevance, highest first; `Array.prototype.sort`
   * is stable, so equal scores keep the query's order.
   */
  function Rank(sel: seq<Row>, ctx: Context, decay: nat -> real): (r: seq<Ranked>)
    requires forall id :: decay(id) > 0.0
    ensures |r| == |sel|
    ensures forall i, j :: 0 <= i < j < |r| ==> r[i].relevance >= r[j].relevance
    ensures multiset(RowsOf(r)) == multiset(sel)
    ensures forall x :: x in r ==> x.relevance == Relevance(x.row, ctx, decay(x.row.suggestion.id))
  {
    ByRelevanceOrders();
    var scored := Scored(sel, ctx, decay);
    var r := SortBy(scored, ByRelevance);
    RowsOfMultiset(r, scored);
    ScoredRows(sel, ctx, decay);
    forall x | x in r ensures x.relevance == Relevance(x.row, ctx, decay(x.row.suggestion.id)) {
      assert x in multiset(scored);
    }
    r
  }

  lemma ScoredRows(sel: seq<Row>, ctx: Context, decay: nat -> real)
    requires forall id :: decay(id) > 0.0
    ensures RowsOf(Scored(sel, ctx, decay)) == sel
    ensures forall x :: x in Scored(sel, ctx, decay) ==> x.relevance == Relevance(x.row, ctx, decay(x.row.suggestion.id))
  {
    var scored := Scored(sel, ctx, decay);
    forall i | 0 <= i < |sel| ensures RowsOf(scored)[i] == sel[i] {
      RowsOfAt(scored, i);
    }
  }

  // ---------------------------------------------------------------------
  // The relevance score as the source computes it
  // ---------------------------------------------------------------------

  /**
   * calculateRelevanceScore as it is called: it receives the query row,
   * whose `patterns` is still the GROUP_CONCAT string. When the context
   * has patterns and the criterion has learned some, `.filter` on that
   * string throws a TypeError.
   */
  function RelevanceAsWritten(row: Row, ctx: Context, decay: real): (r: Result<real, string>)
    requires decay > 0.0
    ensures r.Err? <==> ctx.patterns.Some? && row.learned != {}
    ensures r.Ok? ==> r.value == Relevance(row, ctx, decay)
  {
    if ctx.patterns.Some? && row.learned != {} then Err("TypeError: suggestion.patterns.filter is not a function")
    else Ok(Relevance(row, ctx, decay))
  }

  /** getSuggestions as written: the first relevance that throws is caught and the whole answer becomes []. */
  function RankAsWritten(sel: seq<Row>, ctx: Context, decay: nat -> real): (r: seq<Ranked>)
    requires forall id :: decay(id) > 0.0
  {
    if exists x :: x in sel && RelevanceAsWritten(x, ctx, decay(x.suggestion.id)).Err? then []
    else Rank(sel, ctx, decay)
  }

  /**
   * As written, a context that lists patterns empties the answer for any
   * criterion with learned patterns, while the relevance computed on the
   * split pattern list ranks every selected row.
   */
  lemma AsWrittenDropsEverything(sel: seq<Row>, ctx: Context, decay: nat -> real)
    requires forall id :: decay(id) > 0.0
    requires ctx.patterns.Some?
    requires exists x :: x in sel && x.learned != {}
    ensures RankAsWritten(sel, ctx, decay) == []
    ensures |Rank(sel, ctx, decay)| == |sel| > 0
  {
    var x :| x in sel && x.learned != {};
    assert RelevanceAsWritten(x, ctx, decay(x.suggestion.id)).Err?;
  }

  /** Without patterns in the context (what the default `{}` gives) the two agree. */
  lemma AsWrittenAgreesWithoutPatterns(sel: seq<Row>, ctx: Context, decay: nat -> real)
    requires forall id :: decay(id) > 0.0
    requires ctx.patterns.None?
    ensures RankAsWritten(sel, ctx, decay) == Rank(sel, ctx, decay)
  {
  }

  /** One unused suggestion of criterion 1.1, whose pattern `images:alt` the context repeats: as written the answer is empty. */
  lemma AsWrittenExample()
    ensures var s := Suggestion(1, "1.1", "", "Image sans alternative", "", 0, 0);
            var freq := map[("1.1", "images:alt") := 1];
            var ctx := Context(Some(["images:alt"]));
            var sel := Selection(Candidates([s], [], freq, "1.1"));
            RankAsWritten(sel, ctx, (id: nat) => 1.0) == [] && |Rank(sel, ctx, (id: nat) => 1.0)| == 1
  {
    var s := Suggestion(1, "1.1", "", "Image sans alternative", "", 0, 0);
    var freq := map[("1.1", "images:alt") := 1];
    var sel := Selection(Candidates([s], [], freq, "1.1"));
    ExampleSelection();
    assert sel[0] in sel;
    AsWrittenDropsEverything(sel, Context(Some(["images:alt"])), (id: nat) => 1.0);
  }

  lemma ExampleSelection()
    ensures var s := Suggestion(1, "1.1", "", "Image sans alternative", "", 0, 0);
            var sel := Selection(Candidates([s], [], map[("1.1", "images:alt") := 1], "1.1"));
            |sel| == 1 && sel[0].learned != {}
  {
    var s := Suggestion(1, "1.1", "", "Image sans alternative", "", 0, 0);
    var freq := map[("1.1", "images:alt") := 1];
    var row := RowOf(s, [], freq);
    assert ("1.1", "images:alt") in freq;
    assert "images:alt" in row.learned;
    var rows := Candidates([s], [], freq, "1.1");
    assert row in rows;
    var sel := Selection(rows);
    assert |sel| == 1;
    assert sel[0] in multiset(rows);
    assert sel[0].learned == row.learned;
  }
}
