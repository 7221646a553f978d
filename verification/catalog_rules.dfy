/** What one read of a model source lists, when and how it fails, and what an attempt leaves in the
    source's record. */
module CatalogRules {
  import opened CatalogPaging
  import opened CatalogRefresh
  import opened Text

  // ---------- the values of a page ----------

  /** Gemini's and Portkey's models carry the source in front, once; others keep their id. */
  lemma ValueIs(name: string, id: string)
    ensures name != "gemini" && name != "portkey" ==> ModelValue(name, id) == id
    ensures name == "gemini" && !("models/" <= id) ==> ModelValue(name, id) == "gemini/" + id
    ensures name == "gemini" ==> forall rest :: id == "models/" + rest ==> ModelValue(name, id) == "gemini/" + rest
    ensures name == "portkey" && !("portkey/" <= id) ==> ModelValue(name, id) == "portkey/" + id
    ensures name == "portkey" ==> forall rest :: id == "portkey/" + rest ==> ModelValue(name, id) == "portkey/" + rest
  {
    forall prefix, rest
      ensures RemovePrefix(prefix + rest, prefix) == rest
    {
      assert (prefix + rest)[|prefix|..] == rest;
    }
    assert "gemini" != "portkey" by { assert |"gemini"| != |"portkey"|; }
  }

  ghost predicate AllGood(entries: seq<Entry>) {
    forall e :: e in entries ==> GoodEntry(e)
  }

  /** One value per entry in their order; only Gemini's models that generate no content are passed over. */
  lemma {:induction false} PageLists(name: string, front: seq<Entry>, e: Entry, rest: seq<Entry>)
    requires AllGood(front) && GoodEntry(e) && AllGood(rest)
    ensures AllGood(front + [e] + rest)
    ensures PageValues(name, front + [e] + rest)
      == PageValues(name, front)
         + (if name == "gemini" && !e.generates then [] else [ModelValue(name, e.identifier.value)])
         + PageValues(name, rest)
  {
    var all := front + [e] + rest;
    if front == [] {
      assert all == [e] + rest && all[1..] == rest;
    } else {
      PageLists(name, front[1..], e, rest);
      assert all[1..] == front[1..] + [e] + rest;
      hide ModelValue, GoodEntry;
    }
  }

  /** Where a page says the next one begins. */
  lemma CursorIs(name: string, r: Reply)
    requires GoodPage(r)
    ensures name == "gemini" ==> NextCursor(name, r) == Some(r.nextPageToken)
    ensures name != "gemini" && !r.hasMore ==> NextCursor(name, r) == Some("")
    ensures name != "gemini" && r.hasMore && r.lastId != "" ==> NextCursor(name, r) == Some(r.lastId)
    ensures name != "gemini" && r.hasMore && r.lastId == "" && r.entries != [] ==>
      NextCursor(name, r) == Last(r.entries).identifier
    ensures name != "gemini" && r.hasMore && r.lastId == "" && r.entries == [] ==> NextCursor(name, r) == None
  {
    if r.entries != [] {
      assert GoodEntry(r.entries[|r.entries| - 1]);
      assert Blank("");
    }
  }

  // ---------- how a read fails ----------

  /** The first `i` pages are valid, and every one of them names a cursor that none before it named. */
  ghost predicate Through(name: string, fetch: Fetch, i: nat) {
    && (forall k :: 0 <= k < i ==> Linked(name, PageAt(name, fetch, k)))
    && (forall k :: 1 <= k <= i ==> CursorAt(name, fetch, k) != "")
    && (forall j, k :: 1 <= j < k <= i ==> CursorAt(name, fetch, j) != CursorAt(name, fetch, k))
  }

  /** The listing gets as far as this request, one of the first hundred, and meets this reply there. */
  ghost predicate StopsAt(name: string, fetch: Fetch, i: nat, r: Reply) {
    i < 100 && Through(name, fetch, i) && PageAt(name, fetch, i) == r
  }

  ghost predicate Stops(name: string, fetch: Fetch, r: Reply) {
    exists i: nat :: StopsAt(name, fetch, i, r)
  }

  lemma StopsHere(name: string, fetch: Fetch, i: nat, j: nat, bad: Reply)
    requires i < 100 && Through(name, fetch, i) && bad != PageAt(name, fetch, i) && !GoodPage(bad)
    requires !Linked(name, PageAt(name, fetch, i)) || CursorAt(name, fetch, i + 1) == ""
             || Used(name, fetch, i, CursorAt(name, fetch, i + 1))
    ensures !StopsAt(name, fetch, j, bad)
  {
    hide CursorAt, PageAt, GoodPage;
    if j > i {
      assert !Through(name, fetch, j);
    } else if j < i {
      assert Linked(name, PageAt(name, fetch, j));
    }
  }

  lemma UnderwayIsThrough(name: string, fetch: Fetch, i: nat, token: string, seen: set<string>, rows: seq<string>)
    requires Underway(name, fetch, i, token, seen, rows)
    ensures Through(name, fetch, i) && PageAt(name, fetch, i) == fetch(i, token)
    ensures forall bad :: !GoodPage(bad) ==> forall j :: 0 <= j < i ==> !StopsAt(name, fetch, j, bad)
  {
    hide CursorAt, GoodPage;
    forall bad, j: nat | j < i && StopsAt(name, fetch, j, bad)
      ensures GoodPage(bad)
    {
      assert Linked(name, PageAt(name, fetch, j));
    }
  }

  lemma {:induction false} LoopFaults(name: string, fetch: Fetch, i: nat, token: string, seen: set<string>,
      rows: seq<string>, bad: Reply)
    requires Underway(name, fetch, i, token, seen, rows) && (bad.Interrupted? || bad.Unreachable?)
    ensures ReadFrom(name, fetch, i, token, seen, rows) == Fault(FaultOf(bad)) <==> Stops(name, fetch, bad)
    decreases PAGE_LIMIT - i
  {
    UnderwayIsThrough(name, fetch, i, token, seen, rows);
    var page := fetch(i, token);
    assert page == bad && i < 100 ==> StopsAt(name, fetch, i, bad);
    if i < PAGE_LIMIT && page != bad {
      if !Linked(name, page) {
        LaterStopsNot(name, fetch, i, bad);
      } else {
        CursorStep(name, fetch, i, page);
        var next := CursorAt(name, fetch, i + 1);
        assert next in seen <==> Used(name, fetch, i, next);
        if next == "" || next in seen {
          LaterStopsNot(name, fetch, i, bad);
        } else {
          UnderwayStep(name, fetch, i, token, seen, rows);
          LoopFaults(name, fetch, i + 1, next, seen + {next}, rows + ValuesOf(name, page), bad);
        }
      }
    }
    hide CursorAt, Underway, Through, Used;
  }

  /** Where the listing ends for another reason it meets nothing later. */
  lemma LaterStopsNot(name: string, fetch: Fetch, i: nat, bad: Reply)
    requires i < 100 && Through(name, fetch, i) && bad != PageAt(name, fetch, i) && !GoodPage(bad)
    requires !Linked(name, PageAt(name, fetch, i)) || CursorAt(name, fetch, i + 1) == ""
             || Used(name, fetch, i, CursorAt(name, fetch, i + 1))
    ensures !Stops(name, fetch, bad)
  {
    forall j: nat
      ensures !StopsAt(name, fetch, j, bad)
    {
      hide CursorAt, PageAt, GoodPage;
      StopsHere(name, fetch, i, j, bad);
    }
  }

  lemma StartFaults(name: string, fetch: Fetch, bad: Reply)
    requires bad.Interrupted? || bad.Unreachable?
    ensures ReadAccount(name, fetch) == Fault(FaultOf(bad)) <==> Stops(name, fetch, bad)
  {
    assert Underway(name, fetch, 0, "", {}, []) by { assert forall t :: !Used(name, fetch, 0, t); }
    hide ReadFrom, Underway, Stops, FaultOf;
    LoopFaults(name, fetch, 0, "", {}, [], bad);
  }

  /** An account's read times out exactly if an interruption is the first thing that stops it within a hundred
      requests, fails for the network exactly if an unreachable server is, and otherwise is either the list of a
      complete chain or invalid. */
  lemma AccountFaults(name: string, fetch: Fetch)
    ensures ReadAccount(name, fetch) == Fault(Timeout) <==> Stops(name, fetch, Interrupted)
    ensures ReadAccount(name, fetch) == Fault(Network) <==> Stops(name, fetch, Unreachable)
    ensures ReadAccount(name, fetch) == Fault(Invalid) <==>
      && !Stops(name, fetch, Interrupted) && !Stops(name, fetch, Unreachable)
      && forall n :: !CompleteChain(name, fetch, n)
  {
    hide ReadAccount, Stops, CompleteChain, ChainValues;
    StartFaults(name, fetch, Interrupted);
    StartFaults(name, fetch, Unreachable);
    ListsExactlyCompleteChains(name, fetch);
    var r := ReadAccount(name, fetch);
    if r.Fault? {
      assert r == Fault(r.fault) && (r.fault.Timeout? || r.fault.Network? || r.fault.Invalid?);
    }
  }

  /** Metadata is one answer of at least a hundred rows. */
  lemma MetadataReads(fetch: Fetch)
    ensures forall rows :: ReadSource("metadata", fetch) == Listing(rows) <==>
      fetch(0, "") == Metadata(rows) && |rows| >= 100
    ensures ReadSource("metadata", fetch) == Fault(Timeout) <==> fetch(0, "") == Interrupted
    ensures ReadSource("metadata", fetch) == Fault(Network) <==> fetch(0, "") == Unreachable
  {
  }

  /** Any other source is an account. */
  lemma AccountReads(name: string, fetch: Fetch)
    requires name != "metadata"
    ensures ReadSource(name, fetch) == ReadAccount(name, fetch)
  {
  }

  /** A complete chain is one that the listing gets through in at most a hundred pages, the last one naming no
      further page. */
  lemma ChainIs(name: string, fetch: Fetch, n: nat)
    ensures CompleteChain(name, fetch, n) <==>
      && 1 <= n <= 100 && Through(name, fetch, n - 1)
      && Linked(name, PageAt(name, fetch, n - 1)) && CursorAt(name, fetch, n) == ""
  {
    hide CursorAt, PageAt, Linked;
  }

  // ---------- what an attempt leaves ----------

  /** An attempt takes what was read, except that metadata may not lose more than half its rows. */
  lemma OutcomeIs(e: Refresh, name: string, prior: Option<Record>)
    ensures var r, old' := ReadSource(name, e.fetch(name)), OldModels(prior);
      Outcome(e, name, prior)
        == if name == "metadata" && r.Listing? && |r.values| + |r.values| < |old'| then Fault(Invalid) else r
  {
  }

  ghost predicate LastOf(rows: seq<Row>, i: int, value: string) {
    0 <= i < |rows| && rows[i].value == value && forall j :: i < j < |rows| ==> rows[j].value != value
  }

  /** The time a model was first seen: the one it had, zero if it is known without any source, else now. */
  ghost predicate SeenFrom(e: Refresh, prior: seq<Row>, row: Row) {
    && (forall i :: LastOf(prior, i, row.value) ==> row.firstSeen == prior[i].firstSeen)
    && ((forall i :: 0 <= i < |prior| ==> prior[i].value != row.value) ==>
          row.firstSeen == if row.value in e.baseline then 0.0 else e.now)
  }

  lemma {:induction false} SeenAtLast(rows: seq<Row>, value: string)
    ensures SeenAt(rows, value).None? <==> forall i :: 0 <= i < |rows| ==> rows[i].value != value
    ensures forall i :: LastOf(rows, i, value) ==> SeenAt(rows, value) == Some(rows[i].firstSeen)
  {
    if rows != [] && Last(rows).value != value {
      SeenAtLast(Front(rows), value);
      assert forall i :: LastOf(rows, i, value) ==> LastOf(Front(rows), i, value);
    }
  }

  /** A failed attempt is counted, backs off by the count and leaves the list and its time; a successful one starts
      the count anew, waits a week and replaces the list. */
  lemma AttemptLeaves(e: Refresh, name: string, prior: Option<Record>)
    requires name in e.sources
    ensures var r := Attempted(e, name, prior);
      && r.scope == e.sources[name] && r.attemptedAt == e.now
      && match Outcome(e, name, prior)
         case Fault(fault) =>
           && r.error == Some(fault)
           && r.failures == (if prior.Some? then prior.value.failures + 1 else 1)
           && r.nextAttempt - e.now == Backoff(r.failures)
           && r.models == (if prior.Some? then prior.value.models else [])
           && r.updatedAt == (if prior.Some? then prior.value.updatedAt else None)
         case Listing(values) =>
           && r.error == None && r.failures == 0 && r.nextAttempt - e.now == 604800.0 && r.updatedAt == Some(e.now)
           && |r.models| == |values|
           && forall i :: 0 <= i < |values| ==>
                r.models[i].value == values[i] && SeenFrom(e, OldModels(prior), r.models[i])
  {
    var r := Attempted(e, name, prior);
    if Outcome(e, name, prior).Listing? {
      var values := Outcome(e, name, prior).values;
      hide Outcome, SeenAt;
      forall i | 0 <= i < |values|
        ensures r.models[i].value == values[i] && SeenFrom(e, OldModels(prior), r.models[i])
      {
        SeenAtLast(OldModels(prior), values[i]);
      }
    }
    hide Outcome, Backoff, SeenFrom;
  }
}
