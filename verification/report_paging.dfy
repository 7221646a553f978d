/** Historical batch reports: creating one report per batch id, counting settled items, and listing
    a project's reports page by page with a cursor while other requests add reports. */
module ReportPaging {
  import opened Sorting
  import opened Text

  /** What the listing orders by; the batch id is the table's primary key. */
  datatype Report = Report(finishedAt: string, batchId: string)

  /** The columns of a stored row that never change: its project, request digest and report key. */
  datatype Row = Row(project: string, requestHash: string, report: Report)

  type Table = seq<Row>

  // ---------- creating a report ----------

  ghost predicate Keyed(rows: Table) {
    forall i, j :: 0 <= i < j < |rows| ==> rows[i].report.batchId != rows[j].report.batchId
  }

  /** Nothing stored is lost or changed. */
  ghost predicate Grows(before: Table, after: Table) {
    forall i :: 0 <= i < |before| ==> before[i] in after
  }

  function Existing(rows: Table, id: string): (r: Option<Row>)
    ensures r.Some? ==> r.value in rows && r.value.report.batchId == id
    ensures r.None? ==> forall i :: 0 <= i < |rows| ==> rows[i].report.batchId != id
  {
    if rows == [] then None
    else if rows[0].report.batchId == id then Some(rows[0])
    else Existing(rows[1..], id)
  }

  datatype Outcome = Returned(row: Row, created: bool) | Conflict

  function Answer(found: Row, row: Row, created: bool): Outcome {
    if found.project != row.project || found.requestHash != row.requestHash then Conflict
    else Returned(found, created)
  }

  /** A create request: it looks at the table as `seen`, and only if the batch id is not there it later
      runs `insert or ignore` on the table as it then is and reads the row back. */
  function Create(seen: Table, now: Table, row: Row): (Table, Outcome) {
    var early := Existing(seen, row.report.batchId);
    if early.Some? then (now, Answer(early.value, row, false))
    else
      var after := if Existing(now, row.report.batchId).Some? then now else now + [row];
      assert |after| > |now| ==> after[|now|] == row;
      (after, Answer(Existing(after, row.report.batchId).value, row, |after| > |now|))
  }

  lemma ExistingIsUnique(rows: Table, row: Row)
    requires Keyed(rows) && row in rows
    ensures Existing(rows, row.report.batchId) == Some(row)
  {
  }

  /** However many creates ran since the early look, the answer is the one a single atomic
      look-and-insert gives. */
  lemma EarlyLookIsInvisible(seen: Table, now: Table, row: Row)
    requires Keyed(now) && Grows(seen, now)
    ensures Create(seen, now, row) == Create(now, now, row)
  {
    var early := Existing(seen, row.report.batchId);
    if early.Some? {
      assert early.value in now;
      ExistingIsUnique(now, early.value);
    }
  }

  /** Creates only append, keep batch ids unique, and succeed exactly if the id is then bound to the
      request's project and digest; a new row is the request's own. */
  lemma CreateBinds(seen: Table, now: Table, row: Row)
    requires Keyed(now) && Grows(seen, now)
    ensures var (after, outcome) := Create(seen, now, row);
      && Keyed(after) && now <= after && |after| <= |now| + 1
      && (outcome.Returned? <==> exists r :: (r in after && r.report.batchId == row.report.batchId
           && r.project == row.project && r.requestHash == row.requestHash))
      && (outcome.Returned? ==> outcome.row in after)
      && (|after| > |now| <==> forall r :: r in now ==> r.report.batchId != row.report.batchId)
      && (|after| > |now| ==> outcome == Returned(row, true) && after == now + [row])
      && (|after| == |now| ==> outcome == Conflict || !outcome.created)
  {
    EarlyLookIsInvisible(seen, now, row);
  }

  // ---------- newest first ----------

  predicate KeyLe(a: Report, b: Report) {
    if a.finishedAt == b.finishedAt then StringLe(a.batchId, b.batchId) else StringLe(a.finishedAt, b.finishedAt)
  }

  predicate NewerFirst(a: Report, b: Report) {
    KeyLe(b, a)
  }

  /** The query's strict comparison with the cursor: older time, or the same time and smaller id. */
  predicate Older(a: Report, b: Report) {
    KeyLe(a, b) && a != b
  }

  lemma NewerFirstOrder()
    ensures TotalOrder(NewerFirst)
  {
    StringOrder();
    hide StringLe;
  }

  predicate PastCursor(before: Option<Report>, k: Report) {
    before.Some? ==> Older(k, before.value)
  }

  function Matching(rows: Table, project: string, before: Option<Report>): seq<Report> {
    if rows == [] then []
    else
      var rest := Matching(rows[1..], project, before);
      if rows[0].project == project && PastCursor(before, rows[0].report) then [rows[0].report] + rest else rest
  }

  /** All that the query selects, in its order. */
  function Listing(rows: Table, project: string, before: Option<Report>): seq<Report> {
    Sort(NewerFirst, Matching(rows, project, before))
  }

  ghost predicate Has(rows: Table, project: string, k: Report) {
    exists i :: 0 <= i < |rows| && rows[i].project == project && rows[i].report == k
  }

  lemma {:induction false} MatchingMembers(rows: Table, project: string, before: Option<Report>, k: Report)
    ensures k in Matching(rows, project, before) <==> Has(rows, project, k) && PastCursor(before, k)
  {
    if rows != [] {
      MatchingMembers(rows[1..], project, before, k);
      assert forall i :: 0 <= i < |rows[1..]| ==> rows[1..][i] == rows[i + 1];
      assert Has(rows, project, k) <==>
          Has(rows[1..], project, k) || (rows[0].project == project && rows[0].report == k) by {
        if Has(rows[1..], project, k) {
          var i :| 0 <= i < |rows[1..]| && rows[1..][i].project == project && rows[1..][i].report == k;
          assert rows[i + 1].report == k;
        }
        if Has(rows, project, k) {
          var i :| 0 <= i < |rows| && rows[i].project == project && rows[i].report == k;
          assert i > 0 ==> rows[1..][i - 1].report == k;
        }
      }
    }
  }

  lemma {:induction false} MatchingOnce(rows: Table, project: string, before: Option<Report>)
    requires Keyed(rows)
    ensures NoRepeats(Matching(rows, project, before))
  {
    if rows != [] {
      MatchingOnce(rows[1..], project, before);
      MatchingMembers(rows[1..], project, before, rows[0].report);
    }
  }

  lemma SameElementsNoRepeats<T(!new)>(xs: seq<T>, ys: seq<T>)
    requires NoRepeats(xs) && multiset(xs) == multiset(ys)
    ensures NoRepeats(ys)
  {
    forall i, j | 0 <= i < j < |ys|
      ensures ys[i] != ys[j]
    {
      NoRepeatsOnce(xs, ys[i]);
      RemoveElement(ys, j);
      assert i < j ==> (ys[..j] + ys[j + 1..])[i] == ys[i];
      assert ys[i] in multiset(ys[..j] + ys[j + 1..]);
    }
  }

  /** Each report comes strictly after the one before it. */
  ghost predicate Descending(ks: seq<Report>) {
    forall i, j :: 0 <= i < j < |ks| ==> Older(ks[j], ks[i])
  }

  lemma ListingFacts(rows: Table, project: string, before: Option<Report>)
    requires Keyed(rows)
    ensures Descending(Listing(rows, project, before))
    ensures forall k :: k in Listing(rows, project, before) <==> Has(rows, project, k) && PastCursor(before, k)
  {
    var m := Matching(rows, project, before);
    NewerFirstOrder();
    SortSorts(NewerFirst, m);
    MatchingOnce(rows, project, before);
    SameElementsNoRepeats(m, Listing(rows, project, before));
    forall k
      ensures k in Listing(rows, project, before) <==> Has(rows, project, k) && PastCursor(before, k)
    {
      MatchingMembers(rows, project, before, k);
      assert k in multiset(m) <==> k in multiset(Sort(NewerFirst, m));
    }
  }

  // ---------- one page ----------

  datatype Cursor = NoCursor | At(key: Report) | Garbled

  datatype Reply =
    | Page(reports: seq<Report>, next: Option<Report>)
    | ProjectNotFound | InvalidLimit | InvalidCursor

  /** One list request: up to one row more than the limit is fetched to see whether a page follows. */
  function ListReports(rows: Table, project: Option<string>, limit: int, before: Cursor): Reply {
    if project.None? then ProjectNotFound
    else if !(1 <= limit <= 50) then InvalidLimit
    else if before.Garbled? then InvalidCursor
    else
      var all := Listing(rows, project.value, if before.At? then Some(before.key) else None);
      var fetched := if |all| > limit + 1 then all[..limit + 1] else all;
      if |fetched| > limit then Page(fetched[..limit], Some(fetched[limit - 1])) else Page(fetched, None)
  }

  function Resume(before: Option<Report>): Cursor {
    if before.Some? then At(before.value) else NoCursor
  }

  /** Fetching one more than the limit cuts the listing there, if anything is left. */
  lemma PageCuts(rows: Table, project: string, limit: int, before: Option<Report>)
    requires 1 <= limit <= 50
    ensures var all := Listing(rows, project, before);
      ListReports(rows, Some(project), limit, Resume(before))
        == if |all| > limit then Page(all[..limit], Some(all[limit - 1])) else Page(all, None)
  {
    hide Listing;
    var all := Listing(rows, project, before);
    if |all| > limit + 1 {
      assert all[..limit + 1][..limit] == all[..limit];
    }
  }

  /** A page is newest first, lies past the cursor, and leaves out only reports past its own cursor. */
  lemma PageFacts(rows: Table, project: string, limit: int, before: Option<Report>)
    requires Keyed(rows) && 1 <= limit <= 50
    ensures var page := ListReports(rows, Some(project), limit, Resume(before));
      && page.Page? && Descending(page.reports)
      && (forall k :: k in page.reports ==> Has(rows, project, k) && PastCursor(before, k))
      && (forall k :: Has(rows, project, k) && PastCursor(before, k) && k !in page.reports
           ==> page.next.Some? && Older(k, page.next.value))
      && (page.next.Some? ==> |page.reports| == limit && page.next.value == Last(page.reports))
  {
    ListingFacts(rows, project, before);
    var all := Listing(rows, project, before);
    PageCuts(rows, project, limit, before);
    var page := ListReports(rows, Some(project), limit, Resume(before));
    hide Listing, ListReports, Older, Has, PastCursor;
    if |all| > limit {
      assert forall i :: 0 <= i < limit ==> page.reports[i] == all[i];
      forall k | k in all && k !in page.reports
        ensures Older(k, all[limit - 1])
      {
        var i :| 0 <= i < |all| && all[i] == k;
      }
    }
  }

  // ---------- following the cursor to the end ----------

  /** Following `nextCursor`: the table and the limit of each request, until a page has no cursor. */
  function Follow(tables: seq<Table>, limits: seq<int>, project: string,
      before: Option<Report>): (r: Option<seq<Report>>)
    requires |tables| == |limits|
    decreases |tables|
  {
    if tables == [] then None
    else
      var page := ListReports(tables[0], Some(project), limits[0], Resume(before));
      if !page.Page? then None
      else if page.next.None? then Some(page.reports)
      else
        var rest := Follow(tables[1..], limits[1..], project, page.next);
        if rest.None? then None else Some(page.reports + rest.value)
  }

  /** Between requests the table only grows. */
  ghost predicate Growing(tables: seq<Table>) {
    && (forall i :: 0 <= i < |tables| ==> Keyed(tables[i]))
    && (forall i, j :: 0 <= i < j < |tables| ==> Grows(tables[i], tables[j]))
  }

  lemma OlderTransitive(a: Report, b: Report, c: Report)
    requires Older(a, b) && Older(b, c)
    ensures Older(a, c)
  {
    NewerFirstOrder();
    assert NewerFirst(c, b) && NewerFirst(b, a);
    assert a == c ==> NewerFirst(a, b) && NewerFirst(b, a);
  }

  lemma DescendingJoins(xs: seq<Report>, ys: seq<Report>)
    requires xs != [] && Descending(xs) && Descending(ys)
    requires forall k :: k in ys ==> Older(k, Last(xs))
    ensures Descending(xs + ys)
  {
    hide Older;
    var all := xs + ys;
    forall i, j | 0 <= i < j < |all|
      ensures Older(all[j], all[i])
    {
      if i < |xs| <= j {
        assert all[j] in ys;
        if i < |xs| - 1 {
          OlderTransitive(all[j], Last(xs), all[i]);
        }
      }
    }
  }

  lemma GrowsKeeps(before: Table, after: Table, project: string, k: Report)
    requires Grows(before, after) && Has(before, project, k)
    ensures Has(after, project, k)
  {
    var i :| 0 <= i < |before| && before[i].project == project && before[i].report == k;
    assert before[i] in after;
  }

  lemma PastNext(before: Option<Report>, page: seq<Report>, k: Report)
    requires page != [] && PastCursor(before, Last(page)) && Older(k, Last(page))
    ensures PastCursor(before, k)
  {
    if before.Some? {
      OlderTransitive(k, Last(page), before.value);
    }
  }

  /** What the rest of the run may return: reports past the cursor, each stored by the end. */
  ghost predicate Covers(tables: seq<Table>, project: string, before: Option<Report>, all: seq<Report>) {
    && tables != []
    && Descending(all)
    && (forall k :: k in all ==> PastCursor(before, k) && Has(Last(tables), project, k))
    && (forall k :: Has(tables[0], project, k) && PastCursor(before, k) ==> k in all)
  }

  lemma CoversStep(tables: seq<Table>, project: string, before: Option<Report>, page: seq<Report>, rest: seq<Report>)
    requires |tables| > 1 && Growing(tables) && page != [] && Descending(page)
    requires forall k :: k in page ==> Has(tables[0], project, k) && PastCursor(before, k)
    requires forall k :: Has(tables[0], project, k) && PastCursor(before, k) && k !in page ==> Older(k, Last(page))
    requires Covers(tables[1..], project, Some(Last(page)), rest)
    ensures Covers(tables, project, before, page + rest)
  {
    hide Older, Has;
    DescendingJoins(page, rest);
    forall k | k in page + rest
      ensures PastCursor(before, k) && Has(Last(tables), project, k)
    {
      if k in page {
        GrowsKeeps(tables[0], Last(tables), project, k);
      } else {
        PastNext(before, page, k);
      }
    }
    forall k | Has(tables[0], project, k) && PastCursor(before, k)
      ensures k in page + rest
    {
      GrowsKeeps(tables[0], tables[1], project, k);
      assert tables[1..][0] == tables[1];
    }
  }

  lemma {:induction false} FollowCovers(tables: seq<Table>, limits: seq<int>, project: string, before: Option<Report>)
    requires |tables| == |limits| && Growing(tables)
    requires Follow(tables, limits, project, before).Some?
    ensures Covers(tables, project, before, Follow(tables, limits, project, before).value)
    decreases |tables|
  {
    PageFacts(tables[0], project, limits[0], before);
    var page := ListReports(tables[0], Some(project), limits[0], Resume(before));
    hide ListReports, Has, Older, PastCursor, Descending;
    if page.next.None? {
      forall k | k in page.reports
        ensures Has(Last(tables), project, k)
      {
        if |tables| > 1 {
          GrowsKeeps(tables[0], Last(tables), project, k);
        }
      }
    } else {
      FollowCovers(tables[1..], limits[1..], project, page.next);
      CoversStep(tables, project, before, page.reports, Follow(tables[1..], limits[1..], project, page.next).value);
    }
  }

  /** Following the cursor to its end returns every report that existed at the start exactly once, newest
      first, whatever was added between the pages and whatever the page sizes were. */
  lemma PagingIsComplete(tables: seq<Table>, limits: seq<int>, project: string)
    requires |tables| == |limits| && Growing(tables)
    requires Follow(tables, limits, project, None).Some?
    ensures var all := Follow(tables, limits, project, None).value;
      && Descending(all) && NoRepeats(all)
      && (forall k :: Has(tables[0], project, k) ==> k in all)
      && (forall k :: k in all ==> Has(Last(tables), project, k))
  {
    FollowCovers(tables, limits, project, None);
  }

  // ---------- a table that does not change ----------

  lemma DescendingIsSorted(ks: seq<Report>)
    requires Descending(ks)
    ensures Sorted(NewerFirst, ks) && NoRepeats(ks)
  {
  }

  lemma SameDescending(xs: seq<Report>, ys: seq<Report>)
    requires Descending(xs) && Descending(ys) && forall k :: k in xs <==> k in ys
    ensures xs == ys
  {
    DescendingIsSorted(xs);
    DescendingIsSorted(ys);
    NewerFirstOrder();
    SameMembers(xs, ys);
    SortedUnique(NewerFirst, xs, ys);
  }

  lemma OlderIsStrict(a: Report, b: Report)
    ensures !(Older(a, b) && Older(b, a)) && !Older(a, a)
  {
    NewerFirstOrder();
    assert NewerFirst(a, b) == KeyLe(b, a) && NewerFirst(b, a) == KeyLe(a, b);
  }

  /** Asking again past the last row of a page gives the listing from there on. */
  lemma ListingResumes(rows: Table, project: string, before: Option<Report>, limit: nat)
    requires Keyed(rows) && 0 < limit <= |Listing(rows, project, before)|
    ensures var all := Listing(rows, project, before);
      Listing(rows, project, Some(all[limit - 1])) == all[limit..]
  {
    ListingFacts(rows, project, before);
    var all := Listing(rows, project, before);
    var last := all[limit - 1];
    ListingFacts(rows, project, Some(last));
    var rest := Listing(rows, project, Some(last));
    hide Listing, Older, Has;
    forall k
      ensures k in rest <==> k in all[limit..]
    {
      if k in rest {
        PastNext(before, all[..limit], k);
        var i :| 0 <= i < |all| && all[i] == k;
        OlderIsStrict(k, last);
        assert i >= limit;
        assert all[limit..][i - limit] == k;
      }
      if k in all[limit..] {
        var i :| 0 <= i < |all| - limit && all[limit..][i] == k;
        assert all[limit + i] == k;
      }
    }
    SameDescending(rest, all[limit..]);
  }

  /** With the table left alone and one page size, the pages joined are the whole listing, and as many
      requests as there are reports, and one more, reach the end. */
  lemma {:induction false} StablePagesJoin(tables: seq<Table>, limits: seq<int>, project: string,
      before: Option<Report>, rows: Table, limit: int)
    requires Keyed(rows) && 1 <= limit <= 50 && |tables| == |limits|
    requires forall i :: 0 <= i < |tables| ==> tables[i] == rows && limits[i] == limit
    requires |tables| > |Listing(rows, project, before)|
    ensures Follow(tables, limits, project, before) == Some(Listing(rows, project, before))
    decreases |tables|
  {
    var all := Listing(rows, project, before);
    PageCuts(rows, project, limit, before);
    hide Listing, ListReports;
    if |all| > limit {
      ListingResumes(rows, project, before, limit);
      StablePagesJoin(tables[1..], limits[1..], project, Some(all[limit - 1]), rows, limit);
      assert all == all[..limit] + all[limit..];
    }
  }

  // ---------- counting settled items ----------

  datatype State = Formalized | Disproved | Incomplete | NeedsReview | Failed | Skipped | Canceled

  /** A settled item; an absent reason is the empty one. */
  datatype Item = Item(state: State, definition: bool, reason: string)

  datatype Counter =
    | Verified | VerifiedProofs | VerifiedDefinitions | DisprovedItems | IncompleteItems | NeedsReviewItems
    | FailedItems | AlreadyVerified | DependencySkipped | SpendCapSkipped | OtherSkipped | Stopped

  /** The counters that are not totals of others. */
  const LEAVES: seq<Counter> := [
    VerifiedProofs, VerifiedDefinitions, DisprovedItems, IncompleteItems, NeedsReviewItems, FailedItems,
    AlreadyVerified, DependencySkipped, SpendCapSkipped, OtherSkipped, Stopped]

  predicate WaitsOnDependency(reason: string) {
    "depends_on_failed:" <= reason || "depends_on_review:" <= reason || "depends_on_incomplete:" <= reason
  }

  type Counts = map<Counter, nat>

  function CountOf(counts: Counts, key: Counter): nat {
    if key in counts then counts[key] else 0
  }

  function Bump(counts: Counts, key: Counter): Counts {
    counts[key := CountOf(counts, key) + 1]
  }

  /** Whether a counter is about an item, one counter at a time. */
  predicate Concerns(key: Counter, item: Item) {
    match key
    case Verified => item.state == Formalized
    case VerifiedProofs => item.state == Formalized && !item.definition
    case VerifiedDefinitions => item.state == Formalized && item.definition
    case DisprovedItems => item.state == Disproved
    case IncompleteItems => item.state == Incomplete
    case NeedsReviewItems => item.state == NeedsReview
    case FailedItems => item.state == Failed
    case Stopped => item.state == Canceled
    case AlreadyVerified => item.state == Skipped && item.reason == "existing_proof"
    case SpendCapSkipped => item.state == Skipped && item.reason == "max_spend"
    case DependencySkipped => item.state == Skipped && WaitsOnDependency(item.reason)
    case OtherSkipped =>
      && item.state == Skipped && item.reason != "existing_proof" && item.reason != "max_spend"
      && !WaitsOnDependency(item.reason)
  }

  function Tally(items: seq<Item>, key: Counter): nat {
    if items == [] then 0 else Tally(Front(items), key) + if Concerns(key, Last(items)) then 1 else 0
  }

  function Total(items: seq<Item>, keys: seq<Counter>): nat {
    if keys == [] then 0 else Total(items, Front(keys)) + Tally(items, Last(keys))
  }

  /** The counters one item raises. */
  method CountItem(counts: Counts, item: Item) returns (r: Counts)
    ensures forall key :: CountOf(r, key) == CountOf(counts, key) + if Concerns(key, item) then 1 else 0
  {
    r := counts;
    if item.state == Formalized {
      r := Bump(r, Verified);
      r := Bump(r, if item.definition then VerifiedDefinitions else VerifiedProofs);
    } else if item.state == Disproved {
      r := Bump(r, DisprovedItems);
    } else if item.state == Failed {
      r := Bump(r, FailedItems);
    } else if item.state == Incomplete {
      r := Bump(r, IncompleteItems);
    } else if item.state == NeedsReview {
      r := Bump(r, NeedsReviewItems);
    } else if item.state == Canceled {
      r := Bump(r, Stopped);
    } else if item.reason == "existing_proof" {
      r := Bump(r, AlreadyVerified);
    } else if item.reason == "max_spend" {
      r := Bump(r, SpendCapSkipped);
    } else if WaitsOnDependency(item.reason) {
      r := Bump(r, DependencySkipped);
    } else {
      r := Bump(r, OtherSkipped);
    }
  }

  method Count(items: seq<Item>) returns (counts: Counts)
    ensures forall key :: CountOf(counts, key) == Tally(items, key)
  {
    counts := map[];
    var i: nat := 0;
    hide Concerns;
    while i < |items|
      invariant i <= |items|
      invariant forall key :: CountOf(counts, key) == Tally(items[..i], key)
    {
      counts := CountItem(counts, items[i]);
      assert Front(items[..i + 1]) == items[..i];
      i := i + 1;
    }
    assert items[..|items|] == items;
  }

  /** The place in `LEAVES` of the one counter an item raises. */
  function LeafOf(item: Item): (i: nat)
    ensures i < |LEAVES| && Concerns(LEAVES[i], item)
  {
    match item.state
    case Formalized => if item.definition then 1 else 0
    case Disproved => 2
    case Incomplete => 3
    case NeedsReview => 4
    case Failed => 5
    case Canceled => 10
    case Skipped =>
      if item.reason == "existing_proof" then 6
      else if WaitsOnDependency(item.reason) then 7
      else if item.reason == "max_spend" then 8
      else 9
  }

  lemma ConcernsOnce(item: Item)
    ensures exists i :: 0 <= i < |LEAVES| && Concerns(LEAVES[i], item)
    ensures forall i, j :: 0 <= i < j < |LEAVES| ==> !(Concerns(LEAVES[i], item) && Concerns(LEAVES[j], item))
    ensures Concerns(Verified, item) <==> Concerns(VerifiedProofs, item) || Concerns(VerifiedDefinitions, item)
  {
    assert Concerns(LEAVES[LeafOf(item)], item);
  }

  lemma {:induction false} TotalStep(items: seq<Item>, keys: seq<Counter>)
    requires items != []
    requires forall i, j :: 0 <= i < j < |keys| ==> !(Concerns(keys[i], Last(items)) && Concerns(keys[j], Last(items)))
    ensures Total(items, keys) == Total(Front(items), keys)
        + if exists i :: 0 <= i < |keys| && Concerns(keys[i], Last(items)) then 1 else 0
    decreases |keys|
  {
    hide Concerns;
    if keys != [] {
      TotalStep(items, Front(keys));
      assert Last(keys) == keys[|keys| - 1];
    }
  }

  lemma {:induction false} NothingCounted(keys: seq<Counter>)
    ensures Total([], keys) == 0
    decreases |keys|
  {
    if keys != [] {
      NothingCounted(Front(keys));
    }
  }

  /** No item is lost or counted twice: the counters add up to the number of items, and the verified
      ones are the verified proofs and definitions. */
  lemma {:induction false} CountsAddUp(items: seq<Item>)
    ensures Total(items, LEAVES) == |items|
    ensures Tally(items, Verified) == Tally(items, VerifiedProofs) + Tally(items, VerifiedDefinitions)
    decreases |items|
  {
    if items == [] {
      NothingCounted(LEAVES);
    } else {
      CountsAddUp(Front(items));
      ConcernsOnce(Last(items));
      TotalStep(items, LEAVES);
    }
  }
}
