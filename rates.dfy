/**
 * The conformity-rate engine of models/database.js: page, average and global
 * rates and the per-criterion status query, computed over the audit_results
 * table of one project. The table is a sequence of rows; the SQL reads become
 * filters over it, and the catalog is the list of criterion ids (its length
 * is the total number of criteria).
 */
module Rates {
  import opened Wrappers
  import opened Seqs

  type PageId = nat
  type CriterionId = string

  /** Conformant, non-conformant, not applicable, not tested. */
  datatype Status = C | NC | NA | NT

  /** One row of audit_results. */
  datatype AuditRow = AuditRow(page: PageId, criterion: CriterionId, status: Status)

  /** The table's UNIQUE(page_id, criterion_id) constraint. */
  ghost predicate UniqueKeys(rows: seq<AuditRow>)
  {
    forall i, j :: 0 <= i < j < |rows| ==> rows[i].page != rows[j].page || rows[i].criterion != rows[j].criterion
  }

  /** Every row names a criterion of the catalog. */
  ghost predicate InCatalog(rows: seq<AuditRow>, catalog: seq<CriterionId>)
  {
    forall r :: r in rows ==> r.criterion in catalog
  }

  /** Every row names a page of the project. */
  ghost predicate OnListedPages(rows: seq<AuditRow>, pages: seq<PageId>)
  {
    forall r :: r in rows ==> r.page in pages
  }

  /** `SELECT … FROM audit_results WHERE page_id = ?` */
  function RowsOfPage(rows: seq<AuditRow>, p: PageId): seq<AuditRow>
  {
    Filter(rows, (r: AuditRow) => r.page == p)
  }

  /** `SELECT status FROM audit_results WHERE criterion_id = ?` */
  function RowsOfCriterion(rows: seq<AuditRow>, c: CriterionId): seq<AuditRow>
  {
    Filter(rows, (r: AuditRow) => r.criterion == c)
  }

  function StatusesOf(rows: seq<AuditRow>): (r: seq<Status>)
    ensures |r| == |rows|
  {
    seq(|rows|, i requires 0 <= i < |rows| => rows[i].status)
  }

  /** `rows.filter(r => r.status === st).length` */
  function CountStatus(rows: seq<AuditRow>, st: Status): nat
  {
    Count(StatusesOf(rows), st)
  }

  lemma StatusesOfSnoc(rows: seq<AuditRow>, r: AuditRow)
    ensures StatusesOf(rows + [r]) == StatusesOf(rows) + [r.status]
  {
  }

  /** A JavaScript number as the rate functions can produce it. */
  datatype JsNumber = Finite(value: int) | NaN | PosInfinity

  /** `Math.round(n / d)` for a positive `d`, in exact arithmetic: the nearest integer, halves rounded up. */
  function RoundHalfUp(n: int, d: int): (r: int)
    requires d > 0
    ensures NearestHalfUp(r, n, d)
  {
    var q := (2 * n + d) / (2 * d);
    var m := (2 * n + d) % (2 * d);
    assert 2 * d * q + m == 2 * n + d && 0 <= m < 2 * d;
    q
  }

  /** `r` is the integer nearest to `n / d`, a half rounding up: `r - 1/2 <= n / d < r + 1/2`. */
  predicate NearestHalfUp(r: int, n: int, d: int)
  {
    d * (2 * r - 1) <= 2 * n < d * (2 * r + 1)
  }

  /** A rounded quotient of something between `lo·d` and `hi·d` lies between `lo` and `hi`. */
  lemma RoundHalfUpBetween(n: int, d: int, lo: int, hi: int)
    requires d > 0
    requires d * lo <= n <= d * hi
    ensures lo <= RoundHalfUp(n, d) <= hi
  {
    RoundHalfUpAtMost(n, d, hi);
    RoundHalfUpAtLeast(n, d, lo);
  }

  lemma RoundHalfUpAtMost(n: int, d: int, hi: int)
    requires d > 0 && n <= d * hi
    ensures RoundHalfUp(n, d) <= hi
  {
    var r := RoundHalfUp(n, d);
    assert d * (2 * hi + 1) == 2 * (d * hi) + d;
    if r > hi {
      MulMonotone(d, 2 * hi + 1, 2 * r - 1);
    }
  }

  lemma RoundHalfUpAtLeast(n: int, d: int, lo: int)
    requires d > 0 && d * lo <= n
    ensures lo <= RoundHalfUp(n, d)
  {
    var r := RoundHalfUp(n, d);
    assert d * (2 * lo - 1) == 2 * (d * lo) - d;
    if r < lo {
      MulMonotone(d, 2 * r + 1, 2 * lo - 1);
    }
  }

  lemma MulMonotone(d: int, a: int, b: int)
    requires d > 0 && a <= b
    ensures d * a <= d * b
  {
    assert d * b - d * a == d * (b - a);
  }

  /** `v` is 100·part/whole rounded to the nearest integer, halves up (`whole` > 0). */
  ghost predicate NearestPercent(v: int, part: int, whole: int)
  {
    whole * (2 * v - 1) <= 200 * part < whole * (2 * v + 1)
  }

  /**
   * `Math.round((100 / applicable) * conform)` with no guard against a zero
   * divisor: 100/0 is Infinity, and Infinity·0 is NaN.
   */
  function RateFormula(conform: nat, applicable: int): (r: JsNumber)
    ensures applicable == 0 ==> r == (if conform == 0 then NaN else PosInfinity)
    ensures applicable != 0 ==> r.Finite?
    ensures applicable > 0 ==> NearestPercent(r.value, conform, applicable)
    ensures 0 < applicable && conform <= applicable ==> 0 <= r.value <= 100
  {
    if applicable == 0 then (if conform == 0 then NaN else PosInfinity)
    else if applicable > 0 then
      var v := RoundHalfUp(100 * conform, applicable);
      assert conform <= applicable ==> 0 <= v <= 100 by {
        if conform <= applicable {
          RoundHalfUpBetween(100 * conform, applicable, 0, 100);
        }
      }
      Finite(v)
    else Finite(RoundHalfUp(-100 * conform, -applicable))
  }

  /**
   * calculatePageRate: `na` and `conform` count the page's NA and C rows, and
   * the rate is 100·conform/(total − na) rounded; a zero divisor gives NaN or
   * Infinity, not 0.
   */
  function PageRate(rows: seq<AuditRow>, p: PageId, total: nat): (r: JsNumber)
    ensures var results := RowsOfPage(rows, p);
            var na, conform := CountStatus(results, NA), CountStatus(results, C);
            && (total > na ==> r.Finite? && NearestPercent(r.value, conform, total - na))
            && (total == na ==> r == (if conform == 0 then NaN else PosInfinity))
  {
    var results := RowsOfPage(rows, p);
    RateFormula(CountStatus(results, C), total - CountStatus(results, NA))
  }

  /** Distinct criteria all drawn from `cat` number at most |cat|. */
  lemma {:induction false} DistinctCriteriaBound(rows: seq<AuditRow>, cat: set<CriterionId>)
    requires forall i, j :: 0 <= i < j < |rows| ==> rows[i].criterion != rows[j].criterion
    requires forall r :: r in rows ==> r.criterion in cat
    ensures |rows| <= |cat|
  {
    if rows != [] {
      var init, last := rows[..|rows| - 1], rows[|rows| - 1];
      assert rows == init + [last];
      forall r | r in init ensures r.criterion in cat - {last.criterion} {
        var i :| 0 <= i < |init| && init[i] == r;
        assert rows[i] == r;
      }
      DistinctCriteriaBound(init, cat - {last.criterion});
    }
  }

  /** A page's rows are at most as many as the catalog when they are unique and drawn from it. */
  lemma PageRowsBound(rows: seq<AuditRow>, p: PageId, catalog: seq<CriterionId>)
    requires UniqueKeys(rows) && InCatalog(rows, catalog)
    ensures |RowsOfPage(rows, p)| <= |catalog|
  {
    var results := RowsOfPage(rows, p);
    forall i, j | 0 <= i < j < |results| ensures results[i].criterion != results[j].criterion {
      FilterUnique(rows, p, i, j);
    }
    DistinctCriteriaBound(results, Elements(catalog));
    ElementsCard(catalog);
  }

  /** Two distinct positions of a page's rows come from distinct table rows, hence name distinct criteria. */
  lemma {:induction false} FilterUnique(rows: seq<AuditRow>, p: PageId, i: int, j: int)
    requires UniqueKeys(rows)
    requires 0 <= i < j < |RowsOfPage(rows, p)|
    ensures RowsOfPage(rows, p)[i].criterion != RowsOfPage(rows, p)[j].criterion
    decreases |rows|
  {
    var init, last := rows[..|rows| - 1], rows[|rows| - 1];
    assert rows == init + [last];
    assert UniqueKeys(init);
    if last.page == p && j == |RowsOfPage(rows, p)| - 1 {
      var x := RowsOfPage(rows, p)[i];
      assert x in RowsOfPage(init, p);
      var k :| 0 <= k < |init| && init[k] == x;
      assert rows[k] == x && k < |rows| - 1;
    } else {
      FilterUnique(init, p, i, j);
    }
  }

  /**
   * With unique rows drawn from the catalog, a page's rate is NaN exactly when
   * every catalog criterion is NA on it, and otherwise an integer in [0, 100].
   */
  lemma PageRateInRange(rows: seq<AuditRow>, p: PageId, catalog: seq<CriterionId>)
    requires UniqueKeys(rows) && InCatalog(rows, catalog)
    ensures var r := PageRate(rows, p, |catalog|);
            && (r.NaN? <==> CountStatus(RowsOfPage(rows, p), NA) == |catalog|)
            && (!r.NaN? ==> r.Finite? && 0 <= r.value <= 100)
  {
    var results := RowsOfPage(rows, p);
    PageRowsBound(rows, p, catalog);
    CountTwo(StatusesOf(results), C, NA);
  }

  /** A page with no C row and some applicable criterion rates 0: all NC, or nothing tested yet. */
  lemma PageRateNoConform(rows: seq<AuditRow>, p: PageId, total: nat)
    requires CountStatus(RowsOfPage(rows, p), C) == 0
    requires total > CountStatus(RowsOfPage(rows, p), NA)
    ensures PageRate(rows, p, total) == Finite(0)
  {
    var a := total - CountStatus(RowsOfPage(rows, p), NA);
    RoundHalfUpBetween(0, a, 0, 0);
  }

  /** A page whose every applicable criterion is C rates 100 (2 C and 3 NA out of 5 give 100). */
  lemma PageRateAllApplicableConform(rows: seq<AuditRow>, p: PageId, total: nat)
    requires var results := RowsOfPage(rows, p);
             CountStatus(results, C) + CountStatus(results, NA) == total > CountStatus(results, NA)
    ensures PageRate(rows, p, total) == Finite(100)
  {
    var results := RowsOfPage(rows, p);
    var a := CountStatus(results, C);
    RoundHalfUpBetween(100 * a, a, 100, 100);
  }

  /** `pages.map(page => calculatePageRate(page.id))` */
  function PageRates(rows: seq<AuditRow>, pages: seq<PageId>, total: nat): (rates: seq<JsNumber>)
    ensures |rates| == |pages|
  {
    seq(|pages|, i requires 0 <= i < |pages| => PageRate(rows, pages[i], total))
  }

  /** `rates.filter(rate => !isNaN(rate))`: Infinity is not NaN and is kept. */
  function ValidRates(rates: seq<JsNumber>): (valid: seq<JsNumber>)
    ensures forall x :: x in valid ==> !x.NaN?
  {
    Filter(rates, (x: JsNumber) => !x.NaN?)
  }

  /** `valid.reduce((a, b) => a + b, 0)` over numbers that are never NaN. */
  function JsSum(xs: seq<JsNumber>): (r: JsNumber)
    requires forall x :: x in xs ==> !x.NaN?
    ensures r.PosInfinity? <==> PosInfinity in xs
    ensures !r.NaN?
  {
    if xs == [] then Finite(0)
    else
      var init, last := xs[..|xs| - 1], xs[|xs| - 1];
      assert xs == init + [last];
      var s := JsSum(init);
      if s.PosInfinity? || last.PosInfinity? then PosInfinity else Finite(s.value + last.value)
  }

  /** A sum of `n` finite numbers each in [0, 100] is finite and in [0, 100·n]. */
  lemma {:induction false} JsSumBounds(xs: seq<JsNumber>)
    requires forall x :: x in xs ==> x.Finite? && 0 <= x.value <= 100
    ensures JsSum(xs).Finite? && 0 <= JsSum(xs).value <= 100 * |xs|
  {
    if xs != [] {
      var init := xs[..|xs| - 1];
      assert xs == init + [xs[|xs| - 1]];
      JsSumBounds(init);
    }
  }

  /**
   * calculateAverageRate: 0 with no pages or no non-NaN page rate, otherwise
   * the rounded mean of the non-NaN page rates (Infinity if one is Infinity).
   */
  function AverageRate(rows: seq<AuditRow>, pages: seq<PageId>, total: nat): (r: JsNumber)
    ensures !r.NaN?
    ensures |pages| == 0 || |ValidRates(PageRates(rows, pages, total))| == 0 ==> r == Finite(0)
    ensures r.PosInfinity? <==> |pages| > 0 && PosInfinity in PageRates(rows, pages, total)
  {
    if |pages| == 0 then Finite(0)
    else
      var valid := ValidRates(PageRates(rows, pages, total));
      if |valid| == 0 then
        assert PosInfinity !in PageRates(rows, pages, total);
        Finite(0)
      else
        var sum := JsSum(valid);
        if sum.PosInfinity? then PosInfinity else Finite(RoundHalfUp(sum.value, |valid|))
  }

  /**
   * With unique rows drawn from the catalog the average rate is an integer in
   * [0, 100]: every page rate is NaN (dropped) or in [0, 100].
   */
  lemma AverageRateInRange(rows: seq<AuditRow>, pages: seq<PageId>, catalog: seq<CriterionId>)
    requires UniqueKeys(rows) && InCatalog(rows, catalog)
    ensures AverageRate(rows, pages, |catalog|).Finite?
    ensures 0 <= AverageRate(rows, pages, |catalog|).value <= 100
  {
    var rates := PageRates(rows, pages, |catalog|);
    forall i | 0 <= i < |pages| ensures rates[i].NaN? || (rates[i].Finite? && 0 <= rates[i].value <= 100) {
      PageRateInRange(rows, pages[i], catalog);
    }
    var valid := ValidRates(rates);
    forall x | x in valid ensures x.Finite? && 0 <= x.value <= 100 {
      var i :| 0 <= i < |rates| && rates[i] == x;
    }
    if |pages| > 0 && |valid| > 0 {
      JsSumBounds(valid);
      RoundHalfUpBetween(JsSum(valid).value, |valid|, 0, 100);
    }
  }

  /** The plain sum of the finite values, added from the front; a non-finite value adds nothing. */
  function FiniteSum(xs: seq<JsNumber>): int
  {
    if xs == [] then 0 else (if xs[0].Finite? then xs[0].value else 0) + FiniteSum(xs[1..])
  }

  lemma {:induction false} FiniteSumSnoc(xs: seq<JsNumber>, x: JsNumber)
    requires x.Finite?
    ensures FiniteSum(xs + [x]) == FiniteSum(xs) + x.value
  {
    if xs != [] {
      assert (xs + [x])[1..] == xs[1..] + [x];
      FiniteSumSnoc(xs[1..], x);
    }
  }

  /** Over finite numbers the `reduce` yields their plain sum. */
  lemma {:induction false} JsSumValue(xs: seq<JsNumber>)
    requires forall x :: x in xs ==> x.Finite?
    ensures JsSum(xs) == Finite(FiniteSum(xs))
  {
    if xs != [] {
      var init, last := xs[..|xs| - 1], xs[|xs| - 1];
      assert xs == init + [last];
      assert forall x :: x in init ==> x in xs;
      JsSumValue(init);
      FiniteSumSnoc(init, last);
    }
  }

  /**
   * When no page rate is Infinity and some is not NaN, the average rate is
   * the integer nearest to the mean of the non-NaN page rates, a half
   * rounding up.
   */
  lemma AverageRateValue(rows: seq<AuditRow>, pages: seq<PageId>, total: nat)
    requires |pages| > 0 && PosInfinity !in PageRates(rows, pages, total)
    requires |ValidRates(PageRates(rows, pages, total))| > 0
    ensures var valid := ValidRates(PageRates(rows, pages, total));
            var sum := FiniteSum(valid);
            var r := AverageRate(rows, pages, total);
            r.Finite? && NearestHalfUp(r.value, sum, |valid|)
  {
    AverageRateRounded(rows, pages, total);
  }

  lemma AverageRateRounded(rows: seq<AuditRow>, pages: seq<PageId>, total: nat)
    requires |pages| > 0 && PosInfinity !in PageRates(rows, pages, total)
    requires |ValidRates(PageRates(rows, pages, total))| > 0
    ensures var valid := ValidRates(PageRates(rows, pages, total));
            AverageRate(rows, pages, total) == Finite(RoundHalfUp(FiniteSum(valid), |valid|))
  {
    var valid := ValidRates(PageRates(rows, pages, total));
    forall x | x in valid ensures x.Finite? {
      assert x in PageRates(rows, pages, total);
    }
    JsSumValue(valid);
  }

  /** Page 1 has both criteria C; page 2 has one C and one NC. */
  const ExampleRows: seq<AuditRow> := [AuditRow(1, "1.1", C), AuditRow(1, "1.2", C), AuditRow(2, "1.1", C), AuditRow(2, "1.2", NC)]

  lemma ExampleRowsOfPages()
    ensures RowsOfPage(ExampleRows, 1) == [AuditRow(1, "1.1", C), AuditRow(1, "1.2", C)]
    ensures RowsOfPage(ExampleRows, 2) == [AuditRow(2, "1.1", C), AuditRow(2, "1.2", NC)]
  {
    var a1 := [AuditRow(1, "1.1", C)];
    var a2 := a1 + [AuditRow(1, "1.2", C)];
    var a3 := a2 + [AuditRow(2, "1.1", C)];
    var a4 := a3 + [AuditRow(2, "1.2", NC)];
    assert a4 == ExampleRows;
    assert a4[..3] == a3 && a3[..2] == a2 && a2[..1] == a1 && a1[..0] == [];
    assert RowsOfPage(a1, 1) == a1 && RowsOfPage(a1, 2) == [];
    assert RowsOfPage(a2, 1) == a2 && RowsOfPage(a2, 2) == [];
    assert RowsOfPage(a3, 1) == a2 && RowsOfPage(a3, 2) == [AuditRow(2, "1.1", C)];
  }

  lemma ExamplePageRates()
    ensures PageRates(ExampleRows, [1, 2], 2) == [Finite(100), Finite(50)]
  {
    ExampleRowsOfPages();
    assert StatusesOf(RowsOfPage(ExampleRows, 1)) == [C, C];
    assert StatusesOf(RowsOfPage(ExampleRows, 2)) == [C, NC];
    assert CountStatus(RowsOfPage(ExampleRows, 1), C) == 2 && CountStatus(RowsOfPage(ExampleRows, 1), NA) == 0;
    assert CountStatus(RowsOfPage(ExampleRows, 2), C) == 1 && CountStatus(RowsOfPage(ExampleRows, 2), NA) == 0;
  }

  lemma ExampleValidRates()
    ensures ValidRates([Finite(100), Finite(50)]) == [Finite(100), Finite(50)]
  {
    var rates := [Finite(100), Finite(50)];
    assert rates[..1] == [Finite(100)] && rates[..1][..0] == [];
    assert ValidRates(rates[..1]) == rates[..1];
  }

  /** Two pages rated 100 and 50 average to 75. */
  lemma AverageRateExample()
    ensures PageRates(ExampleRows, [1, 2], 2) == [Finite(100), Finite(50)]
    ensures AverageRate(ExampleRows, [1, 2], 2) == Finite(75)
  {
    ExamplePageRates();
    ExampleValidRates();
    AverageRateValue(ExampleRows, [1, 2], 2);
    assert FiniteSum([Finite(100), Finite(50)]) == 150 by {
      assert [Finite(100), Finite(50)][1..] == [Finite(50)];
    }
  }

  /** Every row in `rows` has status `st` (`results.every(r => r.status === st)`). */
  predicate AllHave(rows: seq<AuditRow>, st: Status)
  {
    forall r | r in rows :: r.status == st
  }

  /**
   * The consolidated status of one criterion across the project: NA (or C)
   * when it has as many rows as there are pages and every one is NA (or C),
   * NC otherwise.
   */
  function Consolidate(rows: seq<AuditRow>, pageCount: nat, c: CriterionId): (s: Status)
    ensures s == NA ==> |RowsOfCriterion(rows, c)| == pageCount && AllHave(RowsOfCriterion(rows, c), NA)
    ensures s == C ==> |RowsOfCriterion(rows, c)| == pageCount && AllHave(RowsOfCriterion(rows, c), C)
    ensures s != NT
  {
    var results := RowsOfCriterion(rows, c);
    if |results| == pageCount && AllHave(results, NA) then NA
    else if |results| == pageCount && AllHave(results, C) then C
    else NC
  }

  /** The pages of a criterion's rows. */
  function PagesOf(rows: seq<AuditRow>): (ps: seq<PageId>)
    ensures |ps| == |rows|
  {
    seq(|rows|, i requires 0 <= i < |rows| => rows[i].page)
  }

  /** A criterion's rows are on pairwise distinct pages. */
  lemma {:induction false} CriterionPagesDistinct(rows: seq<AuditRow>, c: CriterionId)
    requires UniqueKeys(rows)
    ensures NoDup(PagesOf(RowsOfCriterion(rows, c)))
    decreases |rows|
  {
    if rows != [] {
      var init, last := rows[..|rows| - 1], rows[|rows| - 1];
      assert rows == init + [last];
      assert UniqueKeys(init);
      CriterionPagesDistinct(init, c);
      if last.criterion == c {
        var ps := PagesOf(RowsOfCriterion(init, c));
        forall k | 0 <= k < |ps| ensures ps[k] != last.page {
          var x := RowsOfCriterion(init, c)[k];
          assert x in RowsOfCriterion(init, c);
          var m :| 0 <= m < |init| && init[m] == x;
          assert rows[m] == x;
        }
        assert PagesOf(RowsOfCriterion(rows, c)) == ps + [last.page];
      }
    }
  }

  /**
   * When rows are unique and name only listed pages, a criterion consolidates
   * to NA (or C) exactly when every page has a row for it and that row is NA
   * (or C); a page without a row makes it NC.
   */
  lemma ConsolidateMeaning(rows: seq<AuditRow>, pages: seq<PageId>, c: CriterionId, st: Status)
    requires UniqueKeys(rows) && NoDup(pages) && OnListedPages(rows, pages)
    requires |pages| > 0
    requires st == NA || st == C
    ensures Consolidate(rows, |pages|, c) == st <==> forall p :: p in pages ==> AuditRow(p, c, st) in rows
  {
    var results := RowsOfCriterion(rows, c);
    var rp := PagesOf(results);
    CriterionPagesDistinct(rows, c);
    ElementsCard(rp);
    ElementsCard(pages);
    assert Elements(rp) <= Elements(pages) by {
      forall x | x in Elements(rp) ensures x in Elements(pages) {
        var k :| 0 <= k < |rp| && rp[k] == x;
        assert results[k] in results;
      }
    }
    SubsetCard(Elements(rp), Elements(pages));
    if Consolidate(rows, |pages|, c) == st {
      assert |results| == |pages| && AllHave(results, st);
      forall p | p in pages ensures AuditRow(p, c, st) in rows {
        assert p in Elements(pages);
        var k :| 0 <= k < |rp| && rp[k] == p;
        assert results[k] in results;
      }
    }
    if forall p :: p in pages ==> AuditRow(p, c, st) in rows {
      assert Elements(pages) <= Elements(rp) by {
        forall p | p in Elements(pages) ensures p in Elements(rp) {
          var row := AuditRow(p, c, st);
          assert row in results;
          var k :| 0 <= k < |results| && results[k] == row;
          assert rp[k] == p;
        }
      }
      SubsetCard(Elements(pages), Elements(rp));
      forall r | r in results ensures r.status == st {
        var row := AuditRow(r.page, c, st);
        assert row in rows;
        var i :| 0 <= i < |rows| && rows[i] == r;
        var j :| 0 <= j < |rows| && rows[j] == row;
        assert i == j;
      }
      assert |results| > 0 && results[0] in results;
    }
  }

  /** `allCriteria.map(criterion => consolidated status)` */
  function GlobalStatuses(rows: seq<AuditRow>, pageCount: nat, catalog: seq<CriterionId>): (gs: seq<Status>)
    ensures |gs| == |catalog|
  {
    seq(|catalog|, i requires 0 <= i < |catalog| => Consolidate(rows, pageCount, catalog[i]))
  }

  /**
   * The global formula on the counts of consolidated statuses: 0 when nothing
   * is applicable, otherwise 100·conform/(total − na) rounded, in [0, 100].
   */
  function GlobalFromCounts(total: nat, na: nat, conform: nat): (r: int)
    requires na + conform <= total
    ensures 0 <= r <= 100
    ensures na == total ==> r == 0
    ensures na < total ==> NearestPercent(r, conform, total - na)
  {
    var applicable := total - na;
    if applicable == 0 then 0 else RateFormula(conform, applicable).value
  }

  /**
   * calculateGlobalRate: 0 with no pages or no applicable criterion, otherwise
   * 100·#C/(total − #NA) rounded over the consolidated statuses; always an
   * integer in [0, 100].
   */
  function GlobalRate(rows: seq<AuditRow>, pages: seq<PageId>, catalog: seq<CriterionId>): (r: int)
    ensures 0 <= r <= 100
    ensures |pages| == 0 ==> r == 0
    ensures var gs := GlobalStatuses(rows, |pages|, catalog);
            |pages| > 0 && Count(gs, NA) < |catalog| ==> NearestPercent(r, Count(gs, C), |catalog| - Count(gs, NA))
  {
    if |pages| == 0 then 0
    else
      var gs := GlobalStatuses(rows, |pages|, catalog);
      var na, conform := Count(gs, NA), Count(gs, C);
      CountTwo(gs, C, NA);
      GlobalFromCounts(|gs|, na, conform)
  }

  /** When every criterion consolidates to NA there is nothing applicable and the global rate is 0. */
  lemma GlobalRateAllNA(rows: seq<AuditRow>, pages: seq<PageId>, catalog: seq<CriterionId>)
    requires forall c :: c in catalog ==> Consolidate(rows, |pages|, c) == NA
    ensures GlobalRate(rows, pages, catalog) == 0
  {
    var gs := GlobalStatuses(rows, |pages|, catalog);
    forall s | s in gs ensures s == NA {
      var i :| 0 <= i < |gs| && gs[i] == s;
      assert catalog[i] in catalog;
    }
    CountFull(gs, NA);
  }

  /** Label of one criterion in the per-criterion status map. */
  datatype StatusLabel = Single(status: Status) | Multiple

  /** `SELECT criterion_id, status FROM audit_results WHERE page_id = ?` */
  function PageStatusQuery(rows: seq<AuditRow>, p: PageId): (q: seq<(CriterionId, StatusLabel)>)
    ensures forall e :: e in q ==> exists r :: r in rows && r.page == p && e == (r.criterion, Single(r.status))
    ensures forall r :: r in rows && r.page == p ==> (r.criterion, Single(r.status)) in q
  {
    var results := RowsOfPage(rows, p);
    var q := seq(|results|, i requires 0 <= i < |results| => (results[i].criterion, Single(results[i].status)));
    assert forall k :: 0 <= k < |q| ==> results[k] in results;
    forall r | r in rows && r.page == p ensures (r.criterion, Single(r.status)) in q {
      assert r in results;
      var k :| 0 <= k < |results| && results[k] == r;
      assert q[k] == (r.criterion, Single(r.status));
    }
    q
  }

  /** Some row of `rows` is for criterion `c`. */
  predicate HasCriterion(rows: seq<AuditRow>, c: CriterionId)
  {
    exists r :: r in rows && r.criterion == c
  }

  /** The first row of each criterion, in table order. */
  function FirstRows(rows: seq<AuditRow>): (fr: seq<AuditRow>)
    ensures forall r :: r in fr ==> r in rows
    ensures forall r :: r in rows ==> HasCriterion(fr, r.criterion)
  {
    if rows == [] then []
    else
      var init, last := rows[..|rows| - 1], rows[|rows| - 1];
      assert rows == init + [last];
      var fi := FirstRows(init);
      if HasCriterion(init, last.criterion) then
        assert HasCriterion(fi, last.criterion);
        fi
      else
        assert forall r :: r in rows ==> HasCriterion(fi + [last], r.criterion) by {
          forall r | r in rows ensures HasCriterion(fi + [last], r.criterion) {
            if r in init {
              var f :| f in fi && f.criterion == r.criterion;
              assert f in fi + [last];
            } else {
              assert last in fi + [last];
            }
          }
        }
        fi + [last]
  }

  /** Two rows of criterion `c` carry different statuses. */
  ghost predicate Disagree(rows: seq<AuditRow>, c: CriterionId)
  {
    exists r1, r2 :: r1 in rows && r2 in rows && r1.criterion == r2.criterion == c && r1.status != r2.status
  }

  /**
   * `CASE WHEN COUNT(DISTINCT status) > 1 THEN 'MULTIPLE' ELSE MAX(status) END`
   * over the group of `f`'s criterion: MULTIPLE exactly when two of its rows
   * disagree, otherwise the status every one of its rows shares.
   */
  function CriterionLabel(rows: seq<AuditRow>, f: AuditRow): (lab: StatusLabel)
    requires f in rows
    ensures lab == Multiple <==> Disagree(rows, f.criterion)
    ensures lab.Single? ==> lab.status == f.status && forall r :: r in rows && r.criterion == f.criterion ==> r.status == f.status
  {
    if exists r :: r in rows && r.criterion == f.criterion && r.status != f.status then Multiple else Single(f.status)
  }

  /** Some entry of `entries` is keyed by `c`. */
  ghost predicate HasKey(entries: seq<(CriterionId, StatusLabel)>, c: CriterionId)
  {
    exists e :: e in entries && e.0 == c
  }

  /** `e` is the grouped entry of the criterion of some row `f`. */
  ghost predicate GroupEntry(rows: seq<AuditRow>, e: (CriterionId, StatusLabel))
  {
    exists f :: f in rows && e == (f.criterion, CriterionLabel(rows, f))
  }

  /** `SELECT criterion_id, CASE … END FROM audit_results GROUP BY criterion_id` */
  function GroupedStatusQuery(rows: seq<AuditRow>): (q: seq<(CriterionId, StatusLabel)>)
    ensures forall e :: e in q ==> GroupEntry(rows, e)
    ensures forall r :: r in rows ==> HasKey(q, r.criterion)
  {
    var fr := FirstRows(rows);
    var q := seq(|fr|, i requires 0 <= i < |fr| => (fr[i].criterion, CriterionLabel(rows, fr[i])));
    forall e | e in q ensures GroupEntry(rows, e) {
      var k :| 0 <= k < |q| && q[k] == e;
      assert fr[k] in fr;
    }
    forall r | r in rows ensures HasKey(q, r.criterion) {
      var f :| f in fr && f.criterion == r.criterion;
      var k :| 0 <= k < |fr| && fr[k] == f;
      assert q[k] in q;
    }
    q
  }

  /** The dictionary built by `results.forEach(r => statuses[r.criterion_id] = r.status)`: later entries overwrite earlier ones. */
  function MapOf(entries: seq<(CriterionId, StatusLabel)>): (m: map<CriterionId, StatusLabel>)
    ensures forall c :: c in m <==> HasKey(entries, c)
    ensures forall c :: c in m ==> (c, m[c]) in entries
  {
    if entries == [] then map[]
    else
      var init, last := entries[..|entries| - 1], entries[|entries| - 1];
      assert entries == init + [last];
      MapOf(init)[last.0 := last.1]
  }

  /** What the per-page status map holds: one entry per criterion the page has a row for, with that row's status. */
  ghost predicate PageStatuses(rows: seq<AuditRow>, p: PageId, m: map<CriterionId, StatusLabel>)
  {
    && (forall c :: c in m <==> exists r :: r in rows && r.page == p && r.criterion == c)
    && (forall c :: c in m ==> exists r :: r in rows && r.page == p && r.criterion == c && m[c] == Single(r.status))
  }

  /** What the grouped status map holds: one entry per criterion with rows, MULTIPLE exactly when they disagree. */
  ghost predicate GroupedStatuses(rows: seq<AuditRow>, m: map<CriterionId, StatusLabel>)
  {
    && (forall c :: c in m <==> HasCriterion(rows, c))
    && (forall c :: c in m ==>
          (m[c] == Multiple <==> Disagree(rows, c)))
    && (forall c :: c in m && m[c].Single? ==> forall r :: r in rows && r.criterion == c ==> r.status == m[c].status)
  }

  lemma PageStatusesHold(rows: seq<AuditRow>, p: PageId)
    ensures PageStatuses(rows, p, MapOf(PageStatusQuery(rows, p)))
  {
    var results := PageStatusQuery(rows, p);
    forall c | exists r :: r in rows && r.page == p && r.criterion == c ensures c in MapOf(results) {
      var r :| r in rows && r.page == p && r.criterion == c;
      assert (r.criterion, Single(r.status)) in results;
    }
  }

  lemma GroupedStatusesHold(rows: seq<AuditRow>)
    ensures GroupedStatuses(rows, MapOf(GroupedStatusQuery(rows)))
  {
    var results := GroupedStatusQuery(rows);
    GroupedEntriesStatuses(rows, results, MapOf(results));
  }

  lemma GroupedEntriesStatuses(rows: seq<AuditRow>, results: seq<(CriterionId, StatusLabel)>, m: map<CriterionId, StatusLabel>)
    requires forall e :: e in results ==> GroupEntry(rows, e)
    requires forall r :: r in rows ==> HasKey(results, r.criterion)
    requires forall c :: c in m <==> HasKey(results, c)
    requires forall c :: c in m ==> (c, m[c]) in results
    ensures GroupedStatuses(rows, m)
  {
    forall c ensures c in m <==> HasCriterion(rows, c) {
      GroupedKey(rows, results, m, c);
    }
    forall c | c in m
      ensures m[c] == Multiple <==> Disagree(rows, c)
      ensures m[c].Single? ==> forall r :: r in rows && r.criterion == c ==> r.status == m[c].status
    {
      GroupedEntryMeaning(rows, c, m[c]);
    }
  }

  lemma GroupedKey(rows: seq<AuditRow>, results: seq<(CriterionId, StatusLabel)>, m: map<CriterionId, StatusLabel>, c: CriterionId)
    requires forall e :: e in results ==> GroupEntry(rows, e)
    requires forall r :: r in rows ==> HasKey(results, r.criterion)
    requires forall c :: c in m <==> HasKey(results, c)
    ensures c in m <==> HasCriterion(rows, c)
  {
    if c in m {
      var e :| e in results && e.0 == c;
      assert GroupEntry(rows, e);
      var f :| f in rows && e == (f.criterion, CriterionLabel(rows, f));
      assert f in rows && f.criterion == c;
    }
    if HasCriterion(rows, c) {
      var r :| r in rows && r.criterion == c;
      var e :| e in results && e.0 == r.criterion;
    }
  }

  lemma GroupedEntryMeaning(rows: seq<AuditRow>, c: CriterionId, lab: StatusLabel)
    requires GroupEntry(rows, (c, lab))
    ensures lab == Multiple <==> Disagree(rows, c)
    ensures lab.Single? ==> forall r :: r in rows && r.criterion == c ==> r.status == lab.status
  {
    var f :| f in rows && (c, lab) == (f.criterion, CriterionLabel(rows, f));
    assert c == f.criterion && lab == CriterionLabel(rows, f);
  }

  /** The `forEach` loop that copies query rows into the status dictionary. */
  method AssignAll(entries: seq<(CriterionId, StatusLabel)>) returns (m: map<CriterionId, StatusLabel>)
    ensures m == MapOf(entries)
  {
    m := map[];
    for i := 0 to |entries|
      invariant m == MapOf(entries[..i])
    {
      assert entries[..i + 1] == entries[..i] + [entries[i]];
      m := m[entries[i].0 := entries[i].1];
    }
    assert entries[..|entries|] == entries;
  }

  /**
   * getCriteriaStatuses: with a page id, the status of each criterion that has
   * a row for that page; without one, each criterion that has a row anywhere,
   * mapped to MULTIPLE when its rows disagree and otherwise to their common
   * status. Criteria with no row are absent.
   */
  method GetCriteriaStatuses(rows: seq<AuditRow>, pageId: Option<PageId>) returns (statuses: map<CriterionId, StatusLabel>)
    ensures pageId.Some? ==> PageStatuses(rows, pageId.value, statuses)
    ensures pageId.None? ==> GroupedStatuses(rows, statuses)
  {
    var results := if pageId.Some? then PageStatusQuery(rows, pageId.value) else GroupedStatusQuery(rows);
    statuses := AssignAll(results);
    if pageId.Some? {
      PageStatusesHold(rows, pageId.value);
    } else {
      GroupedStatusesHold(rows);
    }
  }
}
