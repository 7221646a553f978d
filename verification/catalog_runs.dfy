/** Whole runs of catalog refreshes: where a stored list comes from, when a source is read again, and
    how long a model keeps its discovery time. */
module CatalogRuns {
  import opened CatalogPaging
  import opened CatalogRefresh
  import opened Text

  /** The records after a run of refreshes. */
  function Run(records: Records, events: seq<Refresh>): Records
    decreases |events|
  {
    if events == [] then records else Refreshed(Run(records, Front(events)), Last(events))
  }

  /** A source's record before the `i`-th refresh. */
  function RecordAt(records: Records, events: seq<Refresh>, i: nat, name: string): Option<Record>
    requires i <= |events|
  {
    OldRecord(Run(records, events[..i]), name)
  }

  /** The record that survives the drop at the start of the `i`-th refresh. */
  function KeptAt(records: Records, events: seq<Refresh>, i: nat, name: string): Option<Record>
    requires i < |events|
  {
    Keep(events[i], name, RecordAt(records, events, i, name))
  }

  predicate AttemptAt(records: Records, events: seq<Refresh>, i: nat, name: string)
    requires i < |events|
  {
    Attempts(Run(records, events[..i]), events[i], name)
  }

  /** The `i`-th refresh read the source and accepted what it read. */
  predicate SucceedsAt(records: Records, events: seq<Refresh>, i: nat, name: string)
    requires i < |events|
  {
    AttemptAt(records, events, i, name) && Outcome(events[i], name, KeptAt(records, events, i, name)).Listing?
  }

  // ---------- one source at a time ----------

  function Keep(e: Refresh, name: string, r: Option<Record>): Option<Record> {
    if r.Some? && Configured(e, name, r.value.scope) then r else None
  }

  /** A source's record after a refresh depends on its record before, and on no other source. */
  function Next(e: Refresh, name: string, r: Option<Record>): Option<Record> {
    var kept := Keep(e, name, r);
    if name in e.sources && Due(e, kept) then Some(Attempted(e, name, kept)) else kept
  }

  lemma RefreshIsLocal(records: Records, e: Refresh, name: string)
    ensures OldRecord(Kept(records, e), name) == Keep(e, name, OldRecord(records, name))
    ensures Attempts(records, e, name) <==> name in e.sources && Due(e, Keep(e, name, OldRecord(records, name)))
    ensures OldRecord(Refreshed(records, e), name) == Next(e, name, OldRecord(records, name))
  {
    hide Attempted, Due;
  }

  lemma StepAt(records: Records, events: seq<Refresh>, i: nat, name: string)
    requires i < |events|
    ensures RecordAt(records, events, i + 1, name) == Next(events[i], name, RecordAt(records, events, i, name))
    ensures AttemptAt(records, events, i, name)
      <==> name in events[i].sources && Due(events[i], KeptAt(records, events, i, name))
  {
    assert Front(events[..i + 1]) == events[..i] && Last(events[..i + 1]) == events[i];
    RefreshIsLocal(Run(records, events[..i]), events[i], name);
    hide Next, Due, Attempts, Refreshed;
  }

  // ---------- where a stored list comes from ----------

  lemma StampValues(e: Refresh, prior: seq<Row>, values: seq<string>)
    ensures Values(Stamp(e, prior, values)) == values
  {
    hide FirstSeen;
  }

  /** Since before refresh `start` the source was configured with this scope and no read succeeded. */
  ghost predicate Untouched(records: Records, events: seq<Refresh>, start: nat, end: nat, name: string, scope: string)
    requires end <= |events|
  {
    forall k: nat :: start <= k < end ==> Configured(events[k], name, scope) && !SucceedsAt(records, events, k, name)
  }

  /** Refresh `j` read exactly the stored list, completely, and nothing has replaced it up to `end`. */
  ghost predicate LastSuccess(records: Records, events: seq<Refresh>, j: nat, end: nat, name: string, r: Record)
    requires end <= |events|
  {
    && j < end && SucceedsAt(records, events, j, name)
    && Configured(events[j], name, r.scope) && r.updatedAt == Some(events[j].now)
    && ReadSource(name, events[j].fetch(name)) == Listing(Values(r.models))
    && Untouched(records, events, j + 1, end, name, r.scope)
  }

  /** The list and its time are still those the run started with. */
  ghost predicate FromStart(records: Records, events: seq<Refresh>, end: nat, name: string, r: Record)
    requires end <= |events|
  {
    && name in records && records[name].scope == r.scope
    && records[name].updatedAt == r.updatedAt && records[name].models == r.models
    && Untouched(records, events, 0, end, name, r.scope)
  }

  ghost predicate Explained(records: Records, events: seq<Refresh>, end: nat, name: string, r: Record)
    requires end <= |events|
  {
    (exists j: nat :: LastSuccess(records, events, j, end, name, r)) || FromStart(records, events, end, name, r)
  }

  /** A refresh that keeps the record and does not succeed changes neither the list nor its time. */
  lemma ExplainedStays(records: Records, events: seq<Refresh>, i: nat, name: string, before: Record, after: Record)
    requires i < |events| && Explained(records, events, i, name, before)
    requires Configured(events[i], name, before.scope) && !SucceedsAt(records, events, i, name)
    requires after.scope == before.scope && after.updatedAt == before.updatedAt && after.models == before.models
    ensures Explained(records, events, i + 1, name, after)
  {
    hide SucceedsAt, Configured;
    if FromStart(records, events, i, name, before) {
      assert FromStart(records, events, i + 1, name, after);
    } else {
      var j: nat :| LastSuccess(records, events, j, i, name, before);
      assert LastSuccess(records, events, j, i + 1, name, after);
    }
  }

  lemma SuccessExplains(records: Records, events: seq<Refresh>, i: nat, name: string)
    requires i < |events| && SucceedsAt(records, events, i, name) && RecordAt(records, events, i + 1, name).Some?
    ensures Explained(records, events, i + 1, name, RecordAt(records, events, i + 1, name).value)
  {
    StepAt(records, events, i, name);
    var r := RecordAt(records, events, i + 1, name).value;
    var kept := KeptAt(records, events, i, name);
    StampValues(events[i], OldModels(kept), Outcome(events[i], name, kept).values);
    hide Due, Stamp, AttemptAt;
    assert LastSuccess(records, events, i, i + 1, name, r);
  }

  /** What a refresh without a success leaves behind. */
  lemma FailureKeeps(records: Records, events: seq<Refresh>, i: nat, name: string)
    requires i < |events| && !SucceedsAt(records, events, i, name)
    ensures var after := RecordAt(records, events, i + 1, name);
      var kept := KeptAt(records, events, i, name);
      && (kept.Some? ==> (after.Some? && after.value.scope == kept.value.scope
           && after.value.updatedAt == kept.value.updatedAt && after.value.models == kept.value.models))
      && (kept.None? && after.Some? ==> after.value.updatedAt.None? && after.value.models == [])
  {
    StepAt(records, events, i, name);
    hide Due, Stamp, AttemptAt, Backoff;
  }

  predicate Dated(r: Option<Record>) {
    r.Some? && r.value.updatedAt.Some?
  }

  lemma ExplainedStep(records: Records, events: seq<Refresh>, i: nat, name: string)
    requires i < |events|
    requires var r := RecordAt(records, events, i, name); Dated(r) ==> Explained(records, events, i, name, r.value)
    ensures var r := RecordAt(records, events, i + 1, name);
      Dated(r) ==> Explained(records, events, i + 1, name, r.value)
  {
    var before := RecordAt(records, events, i, name);
    var after := RecordAt(records, events, i + 1, name);
    var kept := KeptAt(records, events, i, name);
    assert kept.Some? ==> kept == before && Configured(events[i], name, before.value.scope);
    hide RecordAt, KeptAt, Explained, Configured, SucceedsAt;
    if Dated(after) {
      if SucceedsAt(records, events, i, name) {
        SuccessExplains(records, events, i, name);
      } else {
        FailureKeeps(records, events, i, name);
        ExplainedStays(records, events, i, name, before.value, after.value);
      }
    }
  }

  lemma {:induction false} ListsAreExplained(records: Records, events: seq<Refresh>, i: nat, name: string)
    requires i <= |events|
    ensures var r := RecordAt(records, events, i, name); Dated(r) ==> Explained(records, events, i, name, r.value)
  {
    if i == 0 {
      assert events[..0] == [];
    } else {
      ListsAreExplained(records, events, i - 1, name);
      ExplainedStep(records, events, i - 1, name);
    }
  }

  /** The values are those of a complete page chain, or of a metadata answer of at least a hundred rows. */
  ghost predicate ReadWhole(name: string, fetch: Fetch, values: seq<string>) {
    if name == METADATA then fetch(0, "") == Metadata(values) && |values| >= 100
    else exists n :: CompleteChain(name, fetch, n) && values == ChainValues(name, fetch, n)
  }

  lemma ListingIsWhole(name: string, fetch: Fetch, values: seq<string>)
    requires ReadSource(name, fetch) == Listing(values)
    ensures ReadWhole(name, fetch, values)
  {
    if name != METADATA {
      ListsExactlyCompleteChains(name, fetch);
      hide CompleteChain, ChainValues, ReadAccount;
    }
  }

  lemma LastSuccessIsWhole(records: Records, events: seq<Refresh>, j: nat, end: nat, name: string, r: Record)
    requires end <= |events| && LastSuccess(records, events, j, end, name, r)
    ensures ReadWhole(name, events[j].fetch(name), Values(r.models))
  {
    ListingIsWhole(name, events[j].fetch(name), Values(r.models));
  }

  /** A source's record at the end of a run. */
  function FinalRecord(records: Records, events: seq<Refresh>, name: string): Option<Record> {
    RecordAt(records, events, |events|, name)
  }

  /** In every run that starts without a cache, a dated record holds exactly what its last successful read
      listed, at that refresh's time; every refresh since left the source configured as it was and failed or
      did not read it.  For an account the list is that of a complete page chain without a repeated cursor. */
  lemma StoredListsAreComplete(events: seq<Refresh>, name: string, r: Record)
    requires FinalRecord(map[], events, name) == Some(r) && r.updatedAt.Some?
    ensures exists j: nat :: (LastSuccess(map[], events, j, |events|, name, r)
      && ReadWhole(name, events[j].fetch(name), Values(r.models)))
  {
    ListsAreExplained(map[], events, |events|, name);
    hide RecordAt, LastSuccess, ReadWhole;
    var j: nat :| LastSuccess(map[], events, j, |events|, name, r);
    LastSuccessIsWhole(map[], events, j, |events|, name, r);
  }

  // ---------- when a source is read again ----------

  /** How long an unforced refresh leaves a record alone. */
  function Wait(r: Record): Time {
    if r.error.Some? then Backoff(r.failures) else INTERVAL
  }

  /** The back-off starts at two minutes, doubles up to the ninth failure and then stays there, below
      the regular interval. */
  lemma BackoffDoubles(n: nat)
    ensures n < 9 ==> Backoff(n + 1) == 2.0 * Backoff(n)
    ensures n >= 9 ==> Backoff(n) == 30720.0
    ensures n >= 1 ==> 120.0 <= Backoff(n) <= 30720.0 < INTERVAL
  {
  }

  /** Some refresh strictly between `i` and `j` did not have the source configured with this scope. */
  ghost predicate Dropped(events: seq<Refresh>, i: nat, j: nat, name: string, scope: string)
    requires j <= |events|
  {
    exists k: nat :: i < k < j && !Configured(events[k], name, scope)
  }

  /** Refresh `i` read the source under this scope, and none since, before `j`. */
  ghost predicate LastAttempt(records: Records, events: seq<Refresh>, i: nat, j: nat, name: string, scope: string)
    requires j <= |events|
  {
    && i < j && AttemptAt(records, events, i, name) && Configured(events[i], name, scope)
    && forall k: nat :: i < k < j ==> !(AttemptAt(records, events, k, name) && Configured(events[k], name, scope))
  }

  /** The record right after an attempt. */
  lemma AfterAttempt(records: Records, events: seq<Refresh>, i: nat, name: string, scope: string)
    requires i < |events| && AttemptAt(records, events, i, name) && Configured(events[i], name, scope)
    ensures var r := RecordAt(records, events, i + 1, name);
      && r.Some? && r.value.scope == scope && r.value.attemptedAt == events[i].now
      && r.value.nextAttempt == events[i].now + Wait(r.value) && Wait(r.value) >= 120.0
  {
    StepAt(records, events, i, name);
    var kept := KeptAt(records, events, i, name);
    BackoffDoubles(1 + if kept.Some? then kept.value.failures else 0);
    hide Due, Stamp, Backoff, AttemptAt, RecordAt;
  }

  lemma DroppedStep(events: seq<Refresh>, i: nat, j: nat, name: string, scope: string)
    requires i < j < |events|
    ensures Dropped(events, i, j + 1, name, scope)
      <==> Dropped(events, i, j, name, scope) || !Configured(events[j], name, scope)
  {
    hide Configured;
    if Dropped(events, i, j, name, scope) {
      var k: nat :| i < k < j && !Configured(events[k], name, scope);
      assert i < k < j + 1;
    }
  }

  /** A refresh that does not read the source under this scope. */
  lemma UnreadStep(e: Refresh, name: string, scope: string, r: Option<Record>)
    requires !(Configured(e, name, scope) && Due(e, Keep(e, name, r)))
    ensures Configured(e, name, scope) && r.Some? && r.value.scope == scope ==> Next(e, name, r) == r
    ensures !Configured(e, name, scope) || !(r.Some? && r.value.scope == scope)
      ==> !(Next(e, name, r).Some? && Next(e, name, r).value.scope == scope)
  {
    hide Due, Outcome;
  }

  /** Until the next read the record stays as the attempt left it, or is gone because the source was. */
  lemma {:induction false} RecordWaits(records: Records, events: seq<Refresh>, i: nat, j: nat, name: string,
      scope: string)
    requires i < j <= |events| && LastAttempt(records, events, i, j, name, scope)
    ensures var r := RecordAt(records, events, j, name);
      if Dropped(events, i, j, name, scope) then !(r.Some? && r.value.scope == scope)
      else r == RecordAt(records, events, i + 1, name)
    decreases j
  {
    if j == i + 1 {
      assert !Dropped(events, i, j, name, scope);
    } else {
      assert LastAttempt(records, events, i, j - 1, name, scope);
      RecordWaits(records, events, i, j - 1, name, scope);
      AfterAttempt(records, events, i, name, scope);
      DroppedStep(events, i, j - 1, name, scope);
      StepAt(records, events, j - 1, name);
      var r := RecordAt(records, events, j - 1, name);
      hide Next, Dropped, RecordAt, AttemptAt, Due;
      UnreadStep(events[j - 1], name, scope, r);
    }
  }

  /** Exactly when a source read under a scope is read again under it: some refresh between found it not
      configured so, or its waiting time is over, or a forced refresh comes thirty seconds later. */
  lemma ReadAgainIff(records: Records, events: seq<Refresh>, i: nat, j: nat, name: string, scope: string)
    requires i < j < |events| && LastAttempt(records, events, i, j, name, scope)
    requires Configured(events[j], name, scope) && events[j].now >= 0.0
    ensures RecordAt(records, events, i + 1, name).Some?
    ensures AttemptAt(records, events, j, name) <==>
      || Dropped(events, i, j, name, scope)
      || events[j].now - events[i].now >= Wait(RecordAt(records, events, i + 1, name).value)
      || (events[j].force && events[j].now - events[i].now >= FORCED_GAP)
  {
    RecordWaits(records, events, i, j, name, scope);
    AfterAttempt(records, events, i, name, scope);
    StepAt(records, events, j, name);
    hide Dropped, RecordAt, AttemptAt, Wait, Next;
  }

  /** A scope of a source is read twice within thirty seconds exactly if some refresh between the two found
      the source not configured with it. */
  lemma ThirtySecondsIff(records: Records, events: seq<Refresh>, i: nat, j: nat, name: string, scope: string)
    requires i < j < |events| && LastAttempt(records, events, i, j, name, scope)
    requires Configured(events[j], name, scope) && events[j].now >= 0.0
    requires events[j].now - events[i].now < 30.0
    ensures AttemptAt(records, events, j, name) <==> Dropped(events, i, j, name, scope)
  {
    ReadAgainIff(records, events, i, j, name, scope);
    AfterAttempt(records, events, i, name, scope);
    hide Dropped, RecordAt, AttemptAt, Wait;
  }

  function Silent(name: string): Fetch {
    (i: nat, token: string) => Unreachable
  }

  /** A refresh at a given time with the one source there or away. */
  function Sample(now: Time, there: bool): Refresh {
    Refresh(if there then map["openai" := "key"] else map[], now, false, {}, Silent)
  }

  /** So a source whose key disappears for one refresh and returns is read twice within two seconds. */
  lemma ReturningSourceIsReadAgain()
    ensures var events := [Sample(100.0, true), Sample(101.0, false), Sample(102.0, true)];
      AttemptAt(map[], events, 0, "openai") && AttemptAt(map[], events, 2, "openai")
  {
    var events := [Sample(100.0, true), Sample(101.0, false), Sample(102.0, true)];
    assert events[..0] == [];
    StepAt(map[], events, 0, "openai");
    assert AttemptAt(map[], events, 0, "openai");
    hide AttemptAt;
    assert !Configured(events[1], "openai", "key");
    assert LastAttempt(map[], events, 0, 2, "openai", "key");
    assert Dropped(events, 0, 2, "openai", "key");
    ThirtySecondsIff(map[], events, 0, 2, "openai", "key");
  }

  // ---------- discovery times ----------

  /** When the stored list says a model was first seen. */
  function ListedSince(records: Records, events: seq<Refresh>, i: nat, name: string, value: string): Option<Time>
    requires i <= |events|
  {
    SeenAt(OldModels(RecordAt(records, events, i, name)), value)
  }

  lemma {:induction false} StampSeen(e: Refresh, prior: seq<Row>, values: seq<string>, value: string)
    ensures SeenAt(Stamp(e, prior, values), value) == if value in values then Some(FirstSeen(e, prior, value)) else None
    decreases |values|
  {
    hide FirstSeen;
    if values != [] {
      StampSeen(e, prior, Front(values), value);
      assert Front(Stamp(e, prior, values)) == Stamp(e, prior, Front(values));
      assert value in values <==> value in Front(values) || value == Last(values);
    }
  }

  /** After one refresh a listed model has the time it had, if its record was kept and listed it; otherwise it
      is new: first seen now, or at zero if it was known without any source. */
  lemma ListedSinceStep(records: Records, events: seq<Refresh>, i: nat, name: string, value: string)
    requires i < |events| && ListedSince(records, events, i + 1, name, value).Some?
    ensures var kept := OldModels(KeptAt(records, events, i, name));
      ListedSince(records, events, i + 1, name, value)
        == if SeenAt(kept, value).Some? then SeenAt(kept, value)
           else Some(if value in events[i].baseline then 0.0 else events[i].now)
  {
    StepAt(records, events, i, name);
    var kept := KeptAt(records, events, i, name);
    if SucceedsAt(records, events, i, name) {
      StampSeen(events[i], OldModels(kept), Outcome(events[i], name, kept).values, value);
    } else {
      FailureKeeps(records, events, i, name);
    }
    hide Due, Stamp, AttemptAt, SeenAt, Backoff;
  }

  /** A refresh leaves a listed model's time alone exactly if the record was kept, or if a model found anew
      would get that same time. */
  lemma DiscoveryTimeKeptIff(records: Records, events: seq<Refresh>, i: nat, name: string, value: string)
    requires i < |events|
    requires ListedSince(records, events, i, name, value).Some?
    requires ListedSince(records, events, i + 1, name, value).Some?
    ensures ListedSince(records, events, i + 1, name, value) == ListedSince(records, events, i, name, value)
      <==> KeptAt(records, events, i, name).Some?
           || ListedSince(records, events, i, name, value)
              == Some(if value in events[i].baseline then 0.0 else events[i].now)
  {
    ListedSinceStep(records, events, i, name, value);
    hide RecordAt, SeenAt;
  }

  /** Every request is answered by one page listing the one model `m`. */
  function OnePage(name: string): Fetch {
    (i: nat, token: string) => Page([Entry(Some("m"), true)], "", false, "")
  }

  /** A refresh at a given time with the one source, under the given scope. */
  function Rescope(now: Time, scope: string): Refresh {
    Refresh(map["openai" := scope], now, false, {}, OnePage)
  }

  lemma OnePageLists(now: Time, scope: string, prior: Option<Record>)
    ensures Outcome(Rescope(now, scope), "openai", prior) == Listing(["m"])
  {
    var r := OnePage("openai")(0, "");
    assert !IsSpace("m"[0]);
    assert r.entries[1..] == [] && PageValues("openai", r.entries[1..]) == [];
    assert PageValues("openai", r.entries) == ["m"];
  }

  lemma RescopedNext(now: Time, scope: string, r: Option<Record>)
    requires now >= 0.0 && (r.Some? ==> r.value.scope != scope)
    ensures var e := Rescope(now, scope);
      Next(e, "openai", r) == Some(Record(scope, now, now + INTERVAL, 0, None, Some(now), [Row("m", now)]))
  {
    var e := Rescope(now, scope);
    OnePageLists(now, scope, None);
    assert Stamp(e, [], ["m"]) == [Row("m", now)];
    assert Keep(e, "openai", r) == None;
  }

  /** So a model that stays listed through a change of its source's scope is dated anew. */
  lemma RescopedSourceIsDatedAnew()
    ensures var events := [Rescope(100.0, "old key"), Rescope(200.0, "new key")];
      && ListedSince(map[], events, 1, "openai", "m") == Some(100.0)
      && ListedSince(map[], events, 2, "openai", "m") == Some(200.0)
  {
    var events := [Rescope(100.0, "old key"), Rescope(200.0, "new key")];
    assert events[..0] == [];
    StepAt(map[], events, 0, "openai");
    RescopedNext(100.0, "old key", None);
    StepAt(map[], events, 1, "openai");
    RescopedNext(200.0, "new key", RecordAt(map[], events, 1, "openai"));
  }

  /** While a source stays configured and keeps listing a model, its discovery time does not change. */
  lemma {:induction false} FirstSeenIsStable(records: Records, events: seq<Refresh>, i: nat, j: nat,
      name: string, scope: string, value: string)
    requires i <= j <= |events| && RecordAt(records, events, i, name).Some?
    requires RecordAt(records, events, i, name).value.scope == scope
    requires forall k: nat :: i <= k < j ==> Configured(events[k], name, scope)
    requires forall k: nat :: i <= k <= j ==> ListedSince(records, events, k, name, value).Some?
    ensures RecordAt(records, events, j, name).Some? && RecordAt(records, events, j, name).value.scope == scope
    ensures ListedSince(records, events, j, name, value) == ListedSince(records, events, i, name, value)
    decreases j
  {
    if i < j {
      FirstSeenIsStable(records, events, i, j - 1, name, scope, value);
      ListedSinceStep(records, events, j - 1, name, value);
      StepAt(records, events, j - 1, name);
      hide Run, Due, SeenAt, Outcome;
    }
  }
}
