/** Batch reports in plain terms: which report is older, when a listing is refused, when a page has a
    successor, and what each counter counts. */
module ReportRules {
  import opened Sorting
  import opened Text
  import opened ReportPaging

  /** Before in lexicographic order. */
  predicate Before(a: string, b: string) {
    StringLe(a, b) && a != b
  }

  /** Finished earlier, or at the same time with the smaller batch id. */
  lemma OlderIff(a: Report, b: Report)
    ensures Older(a, b) <==>
      Before(a.finishedAt, b.finishedAt) || (a.finishedAt == b.finishedAt && Before(a.batchId, b.batchId))
  {
    StringLeOrder(a.batchId, b.batchId, a.batchId);
    StringLeOrder(a.finishedAt, b.finishedAt, a.finishedAt);
    hide StringLe;
  }

  /** A listing is refused for an unknown project, then for a limit outside 1 to 50, then for a garbled cursor. */
  lemma RefusedIff(rows: Table, project: Option<string>, limit: int, before: Cursor)
    ensures var reply := ListReports(rows, project, limit, before);
      && (reply == ProjectNotFound <==> project.None?)
      && (reply == InvalidLimit <==> project.Some? && (limit < 1 || limit > 50))
      && (reply == InvalidCursor <==> project.Some? && 1 <= limit <= 50 && before.Garbled?)
  {
    hide Listing;
  }

  /** A page has a cursor exactly if it leaves something out, and then it is full. */
  lemma NextIff(rows: Table, project: string, limit: int, before: Option<Report>)
    requires Keyed(rows) && 1 <= limit <= 50
    ensures var page := ListReports(rows, Some(project), limit, Resume(before));
      && page.Page? && |page.reports| <= limit
      && (page.next.Some? <==>
            exists k :: Has(rows, project, k) && PastCursor(before, k) && k !in page.reports)
      && (page.next.Some? ==> |page.reports| == limit)
  {
    ListingFacts(rows, project, before);
    PageCuts(rows, project, limit, before);
    PageFacts(rows, project, limit, before);
    var all := Listing(rows, project, before);
    var page := ListReports(rows, Some(project), limit, Resume(before));
    hide Listing, ListReports, Has, PastCursor;
    if |all| > limit {
      var k := all[limit];
      assert k in all;
      forall i | 0 <= i < limit
        ensures page.reports[i] != k
      {
        OlderIsStrict(all[limit], all[i]);
      }
    }
  }

  // ---------- counting ----------

  /** A dependency that failed, needs review or is incomplete is named in the reason. */
  ghost predicate Waits(reason: string) {
    exists rest ::
      || reason == "depends_on_failed:" + rest
      || reason == "depends_on_review:" + rest
      || reason == "depends_on_incomplete:" + rest
  }

  lemma PrefixIff(prefix: string, s: string)
    ensures prefix <= s <==> exists rest :: s == prefix + rest
  {
    if prefix <= s {
      assert s == prefix + s[|prefix|..];
    }
  }

  lemma WaitsIff(reason: string)
    ensures WaitsOnDependency(reason) <==> Waits(reason)
  {
    PrefixIff("depends_on_failed:", reason);
    PrefixIff("depends_on_review:", reason);
    PrefixIff("depends_on_incomplete:", reason);
  }

  /** What each counter counts. */
  lemma ConcernsIff(item: Item)
    ensures Concerns(Verified, item) <==> item.state == Formalized
    ensures Concerns(VerifiedDefinitions, item) <==> item.state == Formalized && item.definition
    ensures Concerns(VerifiedProofs, item) <==> item.state == Formalized && !item.definition
    ensures Concerns(DisprovedItems, item) <==> item.state == Disproved
    ensures Concerns(FailedItems, item) <==> item.state == Failed
    ensures Concerns(IncompleteItems, item) <==> item.state == Incomplete
    ensures Concerns(NeedsReviewItems, item) <==> item.state == NeedsReview
    ensures Concerns(Stopped, item) <==> item.state == Canceled
    ensures item.state != Skipped ==>
      forall key :: key in [AlreadyVerified, SpendCapSkipped, DependencySkipped, OtherSkipped] ==>
        !Concerns(key, item)
  {
  }

  /** Skipped items are told apart by their reasons. */
  lemma SkippedIff(item: Item)
    requires item.state == Skipped
    ensures Concerns(AlreadyVerified, item) <==> item.reason == "existing_proof"
    ensures Concerns(SpendCapSkipped, item) <==> item.reason == "max_spend"
    ensures Concerns(DependencySkipped, item) <==> Waits(item.reason)
    ensures Concerns(OtherSkipped, item) <==>
      item.reason != "existing_proof" && item.reason != "max_spend" && !Waits(item.reason)
  {
    WaitsIff(item.reason);
    hide Waits;
  }
}
