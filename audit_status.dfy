/**
 * The criterion status update of the audit screen (POST
 * /audit/:projectId/criterion/:criterionId) over a project's audit_results
 * table, the page ids recorded for a new non-conformity, and the two flags
 * derived when non-conformities and quick wins are listed.
 */
module AuditStatus {
  import opened Wrappers
  import opened Seqs
  import opened Rates

  /** Two rows for the same (page_id, criterion_id) pair. */
  predicate SameKey(x: AuditRow, y: AuditRow)
  {
    x.page == y.page && x.criterion == y.criterion
  }

  // ---------------------------------------------------------------------
  // The two kinds of update, as values
  // ---------------------------------------------------------------------

  /** `DELETE FROM audit_results WHERE criterion_id = ?` */
  function WithoutCriterion(rows: seq<AuditRow>, c: CriterionId): seq<AuditRow>
  {
    Filter(rows, (r: AuditRow) => r.criterion != c)
  }

  /** One inserted row per page, in the order the pages were read. */
  function RowsForPages(pages: seq<PageId>, c: CriterionId, s: Status): (rs: seq<AuditRow>)
    ensures |rs| == |pages|
    ensures forall i :: 0 <= i < |pages| ==> rs[i] == AuditRow(pages[i], c, s)
  {
    if pages == [] then [] else RowsForPages(pages[..|pages| - 1], c, s) + [AuditRow(pages[|pages| - 1], c, s)]
  }

  /** The table after a committed all-pages update. */
  function SetForAllPages(rows: seq<AuditRow>, pages: seq<PageId>, c: CriterionId, s: Status): seq<AuditRow>
  {
    WithoutCriterion(rows, c) + RowsForPages(pages, c, s)
  }

  /** `INSERT OR REPLACE`: the row holding the pair, if any, is deleted and the new row appended. */
  function SetForPage(rows: seq<AuditRow>, p: PageId, c: CriterionId, s: Status): seq<AuditRow>
  {
    Filter(rows, (r: AuditRow) => r.page != p || r.criterion != c) + [AuditRow(p, c, s)]
  }

  /** The rates returned with `success: true`. */
  datatype RatesReply = RatesReply(currentRate: JsNumber, averageRate: JsNumber, globalRate: int)

  /**
   * The rates recomputed after the update: the current rate is the given
   * page's rate, or 0 without a page id; the other two cover every page.
   */
  function ReplyOf(rows: seq<AuditRow>, pages: seq<PageId>, catalog: seq<CriterionId>, pageId: Option<PageId>): (r: RatesReply)
    ensures pageId.None? ==> r.currentRate == Finite(0)
    ensures pageId.Some? ==> r.currentRate == PageRate(rows, pageId.value, |catalog|)
    ensures r.averageRate == AverageRate(rows, pages, |catalog|) && !r.averageRate.NaN?
    ensures r.globalRate == GlobalRate(rows, pages, catalog) && 0 <= r.globalRate <= 100
  {
    RatesReply(
      if pageId.Some? then PageRate(rows, pageId.value, |catalog|) else Finite(0),
      AverageRate(rows, pages, |catalog|),
      GlobalRate(rows, pages, catalog))
  }

  // ---------------------------------------------------------------------
  // What the updates do
  // ---------------------------------------------------------------------

  lemma {:induction false} FilterFilter(rows: seq<AuditRow>, c: CriterionId, d: CriterionId)
    requires c != d
    ensures RowsOfCriterion(WithoutCriterion(rows, c), d) == RowsOfCriterion(rows, d)
  {
    if rows != [] {
      var init, last := rows[..|rows| - 1], rows[|rows| - 1];
      FilterFilter(init, c, d);
      if last.criterion != c {
        assert WithoutCriterion(rows, c) == WithoutCriterion(init, c) + [last];
        FilterAppend(WithoutCriterion(init, c), [last], (r: AuditRow) => r.criterion == d);
        assert [last][..0] == [];
      }
    }
  }

  /** After an all-pages update the criterion's rows are exactly one row per page, in page order, all with the new status. */
  lemma AllPagesSetsCriterion(rows: seq<AuditRow>, pages: seq<PageId>, c: CriterionId, s: Status)
    ensures RowsOfCriterion(SetForAllPages(rows, pages, c, s), c) == RowsForPages(pages, c, s)
    ensures forall x :: x in SetForAllPages(rows, pages, c, s) && x.criterion == c <==> x.page in pages && x == AuditRow(x.page, c, s)
  {
    var without, added := WithoutCriterion(rows, c), RowsForPages(pages, c, s);
    FilterAppend(without, added, (r: AuditRow) => r.criterion == c);
    FilterNone(without, (r: AuditRow) => r.criterion == c);
    FilterAllKept(added, c);
    assert [] + added == added;
    RowsForPagesMembers(pages, c, s);
  }

  lemma RowsForPagesMembers(pages: seq<PageId>, c: CriterionId, s: Status)
    ensures forall x :: x in RowsForPages(pages, c, s) <==> x.page in pages && x == AuditRow(x.page, c, s)
  {
    var added := RowsForPages(pages, c, s);
    forall x: AuditRow | x.page in pages && x == AuditRow(x.page, c, s) ensures x in added {
      var i :| 0 <= i < |pages| && pages[i] == x.page;
      assert added[i] == x;
    }
  }

  lemma {:induction false} FilterAllKept(rs: seq<AuditRow>, c: CriterionId)
    requires forall x :: x in rs ==> x.criterion == c
    ensures RowsOfCriterion(rs, c) == rs
  {
    if rs != [] {
      assert rs[..|rs| - 1] + [rs[|rs| - 1]] == rs;
      FilterAllKept(rs[..|rs| - 1], c);
    }
  }

  /** An all-pages update leaves the rows of every other criterion as they were, in order. */
  lemma AllPagesKeepsOthers(rows: seq<AuditRow>, pages: seq<PageId>, c: CriterionId, s: Status, d: CriterionId)
    requires d != c
    ensures RowsOfCriterion(SetForAllPages(rows, pages, c, s), d) == RowsOfCriterion(rows, d)
  {
    var without, added := WithoutCriterion(rows, c), RowsForPages(pages, c, s);
    FilterAppend(without, added, (r: AuditRow) => r.criterion == d);
    FilterNone(added, (r: AuditRow) => r.criterion == d);
    FilterFilter(rows, c, d);
    assert RowsOfCriterion(without, d) + [] == RowsOfCriterion(without, d);
  }

  /** Setting a criterion to C (or NA) on every page makes it consolidate to C (or NA) project-wide. */
  lemma AllPagesConsolidates(rows: seq<AuditRow>, pages: seq<PageId>, c: CriterionId, s: Status)
    requires UniqueKeys(rows) && NoDup(pages) && OnListedPages(rows, pages)
    requires |pages| > 0 && (s == C || s == NA)
    ensures Consolidate(SetForAllPages(rows, pages, c, s), |pages|, c) == s
  {
    var after := SetForAllPages(rows, pages, c, s);
    AllPagesKeepsUnique(rows, pages, c, s);
    AllPagesSetsCriterion(rows, pages, c, s);
    forall x | x in after ensures x.page in pages {
      if x.criterion != c {
        assert x in WithoutCriterion(rows, c) || x in RowsForPages(pages, c, s);
      }
    }
    ConsolidateMeaning(after, pages, c, s);
  }

  /** A single-page update stores the new status for the pair and changes no other pair. */
  lemma SetForPageMeaning(rows: seq<AuditRow>, p: PageId, c: CriterionId, s: Status)
    ensures AuditRow(p, c, s) in SetForPage(rows, p, c, s)
    ensures forall x :: x in SetForPage(rows, p, c, s) && x.page == p && x.criterion == c ==> x.status == s
    ensures forall x: AuditRow :: x.page != p || x.criterion != c ==> (x in SetForPage(rows, p, c, s) <==> x in rows)
  {
  }

  /** Repeating a single-page update with the same arguments changes nothing more. */
  lemma {:induction false} SetForPageIdempotent(rows: seq<AuditRow>, p: PageId, c: CriterionId, s: Status)
    ensures SetForPage(SetForPage(rows, p, c, s), p, c, s) == SetForPage(rows, p, c, s)
  {
    var keep := (r: AuditRow) => r.page != p || r.criterion != c;
    var kept := Filter(rows, keep);
    FilterAppend(kept, [AuditRow(p, c, s)], keep);
    FilterIdempotent(rows, keep);
    assert [AuditRow(p, c, s)][..0] == [];
    assert Filter([AuditRow(p, c, s)], keep) == [];
  }

  lemma {:induction false} FilterIdempotent(rows: seq<AuditRow>, keep: AuditRow -> bool)
    ensures Filter(Filter(rows, keep), keep) == Filter(rows, keep)
  {
    if rows != [] {
      var init, last := rows[..|rows| - 1], rows[|rows| - 1];
      FilterIdempotent(init, keep);
      if keep(last) {
        FilterAppend(Filter(init, keep), [last], keep);
        assert [last][..0] == [];
      }
    }
  }

  // ---------------------------------------------------------------------
  // UNIQUE(page_id, criterion_id) is kept
  // ---------------------------------------------------------------------

  lemma {:induction false} FilterKeepsUnique(rows: seq<AuditRow>, keep: AuditRow -> bool)
    requires UniqueKeys(rows)
    ensures UniqueKeys(Filter(rows, keep))
  {
    if rows != [] {
      var init, last := rows[..|rows| - 1], rows[|rows| - 1];
      assert UniqueKeys(init) by {
        forall i, j | 0 <= i < j < |init| ensures init[i].page != init[j].page || init[i].criterion != init[j].criterion {
          assert init[i] == rows[i] && init[j] == rows[j];
        }
      }
      FilterKeepsUnique(init, keep);
      if keep(last) {
        forall x | x in Filter(init, keep) ensures !SameKey(x, last) {
          var i :| 0 <= i < |init| && init[i] == x;
          assert rows[i] == x;
        }
        UniqueAppend(Filter(init, keep), [last]);
      }
    }
  }

  lemma UniqueAppend(a: seq<AuditRow>, b: seq<AuditRow>)
    requires UniqueKeys(a) && UniqueKeys(b)
    requires forall x, y :: x in a && y in b ==> !SameKey(x, y)
    ensures UniqueKeys(a + b)
  {
    var ab := a + b;
    forall i, j | 0 <= i < j < |ab| ensures ab[i].page != ab[j].page || ab[i].criterion != ab[j].criterion {
      if j < |a| {
        assert ab[i] == a[i] && ab[j] == a[j];
      } else if i >= |a| {
        assert ab[i] == b[i - |a|] && ab[j] == b[j - |a|];
      } else {
        assert ab[i] == a[i] && ab[j] == b[j - |a|];
        assert ab[i] in a && ab[j] in b;
        assert !SameKey(ab[i], ab[j]);
      }
    }
  }

  lemma AllPagesKeepsUnique(rows: seq<AuditRow>, pages: seq<PageId>, c: CriterionId, s: Status)
    requires UniqueKeys(rows) && NoDup(pages)
    ensures UniqueKeys(SetForAllPages(rows, pages, c, s))
  {
    FilterKeepsUnique(rows, (r: AuditRow) => r.criterion != c);
    UniqueAppend(WithoutCriterion(rows, c), RowsForPages(pages, c, s));
  }

  lemma SetForPageKeepsUnique(rows: seq<AuditRow>, p: PageId, c: CriterionId, s: Status)
    requires UniqueKeys(rows)
    ensures UniqueKeys(SetForPage(rows, p, c, s))
  {
    FilterKeepsUnique(rows, (r: AuditRow) => r.page != p || r.criterion != c);
    UniqueAppend(Filter(rows, (r: AuditRow) => r.page != p || r.criterion != c), [AuditRow(p, c, s)]);
  }

  // ---------------------------------------------------------------------
  // The handler
  // ---------------------------------------------------------------------

  /**
   * The statement that raises an error: BEGIN TRANSACTION, the DELETE, the
   * INSERT for the page at that position, or the single-page INSERT OR
   * REPLACE.
   */
  datatype StatusFault = BeginFails | DeleteFails | InsertFails(index: nat) | ReplaceFails

  /** What the handler reports instead of rates. */
  datatype StatusError = Failed(fault: StatusFault) | NoPage

  /** Whether `fault` is raised by the statements an update in this mode runs. */
  predicate Raised(fault: StatusFault, allPages: bool, pageCount: nat)
  {
    if allPages then !fault.ReplaceFails? && (fault.InsertFails? ==> fault.index < pageCount)
    else fault.ReplaceFails?
  }

  /** The audit_results table of one project, with its pages and the criteria catalog. */
  class ResultStore {
    var rows: seq<AuditRow>
    var pages: seq<PageId>
    var catalog: seq<CriterionId>

    ghost predicate Valid()
      reads this
    {
      UniqueKeys(rows) && NoDup(pages)
    }

    constructor (pages: seq<PageId>, catalog: seq<CriterionId>)
      requires NoDup(pages)
      ensures Valid()
      ensures this.rows == [] && this.pages == pages && this.catalog == catalog
    {
      this.rows := [];
      this.pages := pages;
      this.catalog := catalog;
    }

    /**
     * The status handler. With `allPages`, one transaction deletes the
     * criterion's rows and inserts one row per page, rolling back when a
     * statement raises; otherwise a single `INSERT OR REPLACE` for the page.
     * Then the current, average and global rates are returned.
     */
    method UpdateStatus(c: CriterionId, status: Status, pageId: Option<PageId>, allPages: bool, fault: Option<StatusFault>)
      returns (r: Result<RatesReply, StatusError>)
      requires Valid()
      modifies this
      ensures Valid()
      ensures pages == old(pages) && catalog == old(catalog)
      ensures !allPages && pageId.None? ==> r == Err(NoPage) && rows == old(rows)
      ensures (allPages || pageId.Some?) && fault.Some? && Raised(fault.value, allPages, |pages|) ==>
                r == Err(Failed(fault.value)) && rows == old(rows)
      ensures (allPages || pageId.Some?) && (fault.None? || !Raised(fault.value, allPages, |pages|)) ==>
                && rows == (if allPages then SetForAllPages(old(rows), pages, c, status)
                            else SetForPage(old(rows), pageId.value, c, status))
                && r == Ok(ReplyOf(rows, pages, catalog, pageId))
    {
      if allPages {
        var raised := ReplaceForAllPages(c, status, fault);
        if raised {
          return Err(Failed(fault.value));
        }
      } else {
        if pageId.None? {
          return Err(NoPage);
        }
        if fault == Some(ReplaceFails) {
          return Err(Failed(ReplaceFails));
        }
        SetForPageKeepsUnique(rows, pageId.value, c, status);
        rows := SetForPage(rows, pageId.value, c, status);
      }
      r := Ok(ReplyOf(rows, pages, catalog, pageId));
    }

    /**
     * The all-pages transaction: BEGIN, the DELETE of the criterion's rows,
     * one INSERT per page, COMMIT. The first statement that raises rolls
     * the table back.
     */
    method ReplaceForAllPages(c: CriterionId, status: Status, fault: Option<StatusFault>) returns (raised: bool)
      requires Valid()
      modifies this
      ensures Valid()
      ensures pages == old(pages) && catalog == old(catalog)
      ensures raised <==> fault.Some? && Raised(fault.value, true, |pages|)
      ensures rows == (if raised then old(rows) else SetForAllPages(old(rows), pages, c, status))
    {
      var snapshot, ps := rows, pages;
      if fault == Some(BeginFails) {
        return true;
      }
      rows := WithoutCriterion(rows, c);
      if fault == Some(DeleteFails) {
        rows := snapshot;
        return true;
      }
      for i := 0 to |ps|
        invariant rows == WithoutCriterion(snapshot, c) + RowsForPages(ps[..i], c, status)
        invariant fault.Some? && fault.value.InsertFails? ==> fault.value.index >= i
        invariant pages == ps && catalog == old(catalog)
      {
        if fault == Some(InsertFails(i)) {
          rows := snapshot;
          return true;
        }
        assert ps[..i + 1][..i] == ps[..i];
        rows := rows + [AuditRow(ps[i], c, status)];
      }
      assert ps[..|ps|] == ps;
      AllPagesKeepsUnique(snapshot, pages, c, status);
      raised := false;
    }
  }

  // ---------------------------------------------------------------------
  // Non-conformity page ids and the derived flags
  // ---------------------------------------------------------------------

  /** An entry of a non-conformity's page_ids: a page id read from the pages table, or the form's raw pageId field. */
  datatype PageRef = Id(id: PageId) | Raw(field: Option<string>)

  /** The form's allPages field selects every page only when it is the string "true". */
  predicate SelectsAllPages(allPages: Option<string>)
  {
    allPages == Some("true")
  }

  /** The pageIds recorded for a new non-conformity: every page id, or the single pageId field as sent. */
  function NcPageIds(allPages: Option<string>, pageId: Option<string>, pages: seq<PageId>): (ids: seq<PageRef>)
    ensures SelectsAllPages(allPages) ==> |ids| == |pages| && forall i :: 0 <= i < |pages| ==> ids[i] == Id(pages[i])
    ensures !SelectsAllPages(allPages) ==> ids == [Raw(pageId)]
  {
    if SelectsAllPages(allPages) then seq(|pages|, i requires 0 <= i < |pages| => Id(pages[i])) else [Raw(pageId)]
  }

  /** The stored page_ids column: NULL (or the empty string), or a JSON list. */
  datatype StoredPageIds = NoIds | Json(list: seq<PageRef>)

  /** The `allPages` flag of a listed non-conformity: page_ids is missing or an empty list. */
  predicate FlaggedAllPages(stored: StoredPageIds)
  {
    stored.NoIds? || |stored.list| == 0
  }

  /**
   * A non-conformity created for all pages of a project that has pages is
   * not flagged allPages when listed, and one created for a single page never
   * is: the flag holds only for a project without pages or a missing column.
   */
  lemma CreatedNcFlag(allPages: Option<string>, pageId: Option<string>, pages: seq<PageId>)
    ensures FlaggedAllPages(Json(NcPageIds(allPages, pageId, pages))) <==> SelectsAllPages(allPages) && |pages| == 0
  {
  }

  /** A value GROUP_CONCAT can return: NULL, or the comma-joined list. */
  predicate Truthy(v: Option<string>)
  {
    v.Some? && v.value != ""
  }

  /** `s.split(',')`: the pieces between commas, at least one. */
  function SplitCommas(s: string): (parts: seq<string>)
    ensures |parts| >= 1
  {
    if s == [] then [[]]
    else
      var rest := SplitCommas(s[1..]);
      if s[0] == ',' then [[]] + rest else [[s[0]] + rest[0]] + rest[1..]
  }

  /** `v ? v.split(',') : []` */
  function PageList(v: Option<string>): (pages: seq<string>)
    ensures |pages| == 0 <==> !Truthy(v)
  {
    if Truthy(v) then SplitCommas(v.value) else []
  }

  /** The quick-win `type`: mixed when the criterion has both conform and non-conform pages. */
  function QuickWinType(conformPages: Option<string>, nonConformPages: Option<string>): (t: string)
    ensures t == "mixed" || t == "common"
  {
    if Truthy(conformPages) && Truthy(nonConformPages) then "mixed" else "common"
  }

  /** A quick win is mixed exactly when both of its page lists are non-empty. */
  lemma QuickWinMixed(conformPages: Option<string>, nonConformPages: Option<string>)
    ensures QuickWinType(conformPages, nonConformPages) == "mixed" <==> |PageList(conformPages)| > 0 && |PageList(nonConformPages)| > 0
  {
    assert "mixed" != "common";
  }
}
