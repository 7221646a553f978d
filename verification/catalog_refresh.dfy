/** The shared model catalog's refreshes: sources are re-read when due, a failed read keeps the last
    list and backs off, and what is stored is only ever replaced by a complete one. */
module CatalogRefresh {
  import opened CatalogPaging
  import opened Text

  /** Seconds since the epoch. */
  type Time = real

  const INTERVAL: Time := 604800.0

  const FORCED_GAP: Time := 30.0

  datatype Row = Row(value: string, firstSeen: Time)

  /** A source's stored record; `updatedAt` is absent until a first success. */
  datatype Record = Record(
    scope: string, attemptedAt: Time, nextAttempt: Time, failures: nat, error: Option<Fault>,
    updatedAt: Option<Time>, models: seq<Row>)

  type Records = map<string, Record>

  /** One refresh: the configured sources with their scopes, the clock, the force flag, the model names
      known without any source, and what each source's requests meet. */
  datatype Refresh = Refresh(
    sources: map<string, string>, now: Time, force: bool, baseline: set<string>, fetch: string -> Fetch)

  predicate Configured(e: Refresh, name: string, scope: string) {
    name in e.sources && e.sources[name] == scope
  }

  /** Records of sources that are gone or have another scope are dropped first. */
  function Kept(records: Records, e: Refresh): Records {
    map name | name in records && Configured(e, name, records[name].scope) :: records[name]
  }

  function OldRecord(records: Records, name: string): Option<Record> {
    if name in records then Some(records[name]) else None
  }

  predicate Due(e: Refresh, prior: Option<Record>) {
    || e.now >= (if prior.Some? then prior.value.nextAttempt else 0.0)
    || (e.force && e.now - (if prior.Some? then prior.value.attemptedAt else 0.0) >= FORCED_GAP)
  }

  /** The sources to read, given the kept records. */
  function DueNames(kept: Records, e: Refresh): set<string> {
    set name | name in e.sources && Due(e, OldRecord(kept, name))
  }

  /** The source is read in this refresh. */
  predicate Attempts(records: Records, e: Refresh, name: string) {
    name in DueNames(Kept(records, e), e)
  }

  function OldModels(prior: Option<Record>): seq<Row> {
    if prior.Some? then prior.value.models else []
  }

  /** What an attempt reads; metadata that lost more than half its rows is refused. */
  function Outcome(e: Refresh, name: string, prior: Option<Record>): ReadResult {
    var r := ReadSource(name, e.fetch(name));
    if r.Listing? && name == METADATA && 2 * |r.values| < |OldModels(prior)| then Fault(Invalid) else r
  }

  function PowerOfTwo(n: nat): nat {
    if n == 0 then 1 else 2 * PowerOfTwo(n - 1)
  }

  function Backoff(failures: nat): Time {
    var wait := 60.0 * PowerOfTwo(if failures < 9 then failures else 9) as real;
    if wait < INTERVAL then wait else INTERVAL
  }

  function Values(rows: seq<Row>): (r: seq<string>)
    ensures |r| == |rows|
  {
    seq(|rows|, i requires 0 <= i < |rows| => rows[i].value)
  }

  /** When a listed model was first seen; the last row of a name decides. */
  function SeenAt(rows: seq<Row>, value: string): Option<Time> {
    if rows == [] then None
    else if Last(rows).value == value then Some(Last(rows).firstSeen)
    else SeenAt(Front(rows), value)
  }

  function FirstSeen(e: Refresh, prior: seq<Row>, value: string): Time {
    if SeenAt(prior, value).Some? then SeenAt(prior, value).value
    else if value in e.baseline then 0.0
    else e.now
  }

  function Stamp(e: Refresh, prior: seq<Row>, values: seq<string>): (r: seq<Row>)
    ensures |r| == |values|
  {
    seq(|values|, i requires 0 <= i < |values| => Row(values[i], FirstSeen(e, prior, values[i])))
  }

  /** The record after an attempt. */
  function Attempted(e: Refresh, name: string, prior: Option<Record>): Record
    requires name in e.sources
  {
    match Outcome(e, name, prior)
    case Fault(fault) =>
      var failures := 1 + if prior.Some? then prior.value.failures else 0;
      Record(e.sources[name], e.now, e.now + Backoff(failures), failures, Some(fault),
             if prior.Some? then prior.value.updatedAt else None, OldModels(prior))
    case Listing(values) =>
      Record(e.sources[name], e.now, e.now + INTERVAL, 0, None, Some(e.now), Stamp(e, OldModels(prior), values))
  }

  /** The kept records once the sources in `done` have been attempted. */
  function Updated(kept: Records, e: Refresh, done: set<string>): Records
    requires done <= e.sources.Keys
  {
    map name | name in kept.Keys + done ::
      if name in done then Attempted(e, name, OldRecord(kept, name)) else kept[name]
  }

  function Refreshed(records: Records, e: Refresh): Records {
    Updated(Kept(records, e), e, DueNames(Kept(records, e), e))
  }

  lemma UpdatedStep(kept: Records, e: Refresh, done: set<string>, name: string)
    requires done <= e.sources.Keys && name in e.sources && name !in done
    ensures OldRecord(Updated(kept, e, done), name) == OldRecord(kept, name)
    ensures Updated(kept, e, done)[name := Attempted(e, name, OldRecord(kept, name))] == Updated(kept, e, done + {name})
  {
    hide Attempted;
  }

  lemma DueRead(kept: Records, e: Refresh, names: set<string>, due: set<string>, name: string)
    requires due <= names <= e.sources.Keys && name in due
    ensures OldRecord(Updated(kept, e, names - due), name) == OldRecord(kept, name)
    ensures Updated(kept, e, names - due)[name := Attempted(e, name, OldRecord(kept, name))]
         == Updated(kept, e, names - (due - {name}))
  {
    UpdatedStep(kept, e, names - due, name);
    assert names - due + {name} == names - (due - {name});
  }

  class CatalogService {
    var records: Records

    constructor (cached: Records)
      ensures records == cached
    {
      records := cached;
    }

    /** Drops the records that no longer apply. */
    method Forget(e: Refresh)
      modifies this
      ensures records == Kept(old(records), e)
    {
      var names := records.Keys;
      while names != {}
        invariant names <= records.Keys <= old(records).Keys
        invariant forall name :: name in records ==> records[name] == old(records)[name]
        invariant forall name :: name in old(records) ==>
          (name in records <==> name in names || Configured(e, name, old(records)[name].scope))
        decreases |names|
      {
        var name :| name in names;
        names := names - {name};
        if !Configured(e, name, records[name].scope) {
          records := records - {name};
        }
      }
    }

    /** The record an answered attempt leaves behind. */
    method Store(e: Refresh, name: string, r: ReadResult)
      requires name in e.sources && r == Outcome(e, name, OldRecord(records, name))
      modifies this
      ensures records == old(records)[name := Attempted(e, name, OldRecord(old(records), name))]
    {
      var previous := OldRecord(records, name);
      var record := if previous.Some? then previous.value else Record("", 0.0, 0.0, 0, None, None, []);
      record := record.(scope := e.sources[name], attemptedAt := e.now);
      if r.Fault? {
        var failures := record.failures + 1;
        record := record.(error := Some(r.fault), failures := failures, nextAttempt := e.now + Backoff(failures));
      } else {
        record := record.(error := None, models := Stamp(e, record.models, r.values),
                          updatedAt := Some(e.now), nextAttempt := e.now + INTERVAL, failures := 0);
      }
      records := records[name := record];
    }

    /** Reads the given sources, which may answer in any order. */
    method ReadSources(e: Refresh, names: set<string>)
      requires names <= e.sources.Keys
      modifies this
      ensures records == Updated(old(records), e, names)
    {
      ghost var kept := records;
      var due := names;
      assert Updated(kept, e, names - due) == kept;
      hide Attempted, Outcome, Updated, OldRecord;
      while due != {}
        invariant due <= names && records == Updated(kept, e, names - due)
        decreases |due|
      {
        var name :| name in due;
        DueRead(kept, e, names, due, name);
        var r := ReadAll(e, name, OldRecord(records, name));
        Store(e, name, r);
        due := due - {name};
      }
      assert names - due == names;
    }

    /** One refresh. */
    method RefreshSources(e: Refresh)
      modifies this
      ensures records == Refreshed(old(records), e)
    {
      Forget(e);
      var due := DueNames(records, e);
      ReadSources(e, due);
    }
  }

  method ReadAll(e: Refresh, name: string, prior: Option<Record>) returns (r: ReadResult)
    ensures r == Outcome(e, name, prior)
  {
    var fetch := e.fetch(name);
    if name == METADATA {
      r := ReadSource(name, fetch);
      if r.Listing? && 2 * |r.values| < |OldModels(prior)| {
        r := Fault(Invalid);
      }
    } else {
      r := ReadAccountPages(name, fetch);
    }
  }
}
