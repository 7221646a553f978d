/** Numbering alignment checks under concurrency.  A transaction reads the highest attempt of a
    revision key and inserts the next one; `write()` takes the write lock before it reads,
    `connect()` reads first and takes the lock only to insert.  A unique index on key and attempt
    refuses an insert that repeats a stored attempt. */
module AlignmentStore {
  import opened Text

  datatype RevisionKey = RevisionKey(
    formalization: string, sourceHash: string, artifactHash: string, dependencyHash: string, promptVersion: string)

  datatype Row = Row(id: string, key: RevisionKey, attempt: nat, retryOf: Option<string>)

  /** One call of `create`. */
  datatype Call = Call(id: string, key: RevisionKey, retryOf: Option<string>)

  function RowsOf(rows: seq<Row>, key: RevisionKey): seq<Row> {
    if rows == [] then []
    else RowsOf(Front(rows), key) + (if Last(rows).key == key then [Last(rows)] else [])
  }

  function Max(a: nat, b: nat): nat {
    if a < b then b else a
  }

  /** The highest attempt of a key, 0 when there is none. */
  function MaxAttempt(rows: seq<Row>, key: RevisionKey): nat {
    if rows == [] then 0
    else Max(MaxAttempt(Front(rows), key), if Last(rows).key == key then Last(rows).attempt else 0)
  }

  /** A row of the key with the highest attempt. */
  function Latest(rows: seq<Row>, key: RevisionKey): Option<Row> {
    if rows == [] then None
    else if Last(rows).key == key && Last(rows).attempt == MaxAttempt(rows, key) then Some(Last(rows))
    else Latest(Front(rows), key)
  }

  function NewRow(c: Call, latest: nat): Row {
    Row(c.id, c.key, latest + 1, c.retryOf)
  }

  /** Whether the call returns the row that is there instead of inserting one. */
  predicate Reuses(c: Call, latest: nat) {
    c.retryOf.None? && latest > 0
  }

  /** The unique index already holds this attempt of the key. */
  predicate Stored(rows: seq<Row>, key: RevisionKey, attempt: nat) {
    exists r :: r in rows && r.key == key && r.attempt == attempt
  }

  /** `create` run on its own. */
  function Create(rows: seq<Row>, c: Call): seq<Row> {
    var latest := MaxAttempt(rows, c.key);
    if Reuses(c, latest) then rows else rows + [NewRow(c, latest)]
  }

  function CreateAll(rows: seq<Row>, calls: seq<Call>): seq<Row> {
    if calls == [] then rows else Create(CreateAll(rows, Front(calls)), Last(calls))
  }

  /** The highest attempt, as the query's aggregate scan finds it. */
  method SelectMax(rows: seq<Row>, key: RevisionKey) returns (latest: nat)
    ensures latest == MaxAttempt(rows, key)
  {
    latest := 0;
    var i := 0;
    while i < |rows|
      invariant i <= |rows| && latest == MaxAttempt(rows[..i], key)
    {
      assert Front(rows[..i + 1]) == rows[..i];
      if rows[i].key == key && latest < rows[i].attempt {
        latest := rows[i].attempt;
      }
      i := i + 1;
    }
    assert rows[..i] == rows;
  }

  class CheckTable {
    var rows: seq<Row>

    constructor ()
      ensures rows == []
    {
      rows := [];
    }

    /** The body of `create` between begin and commit. */
    method CreateCheck(c: Call) returns (row: Row, created: bool)
      modifies this
      ensures rows == Create(old(rows), c)
      ensures created <==> c.retryOf.Some? || MaxAttempt(old(rows), c.key) == 0
      ensures created ==> rows == old(rows) + [row]
      ensures created ==> row == Row(c.id, c.key, MaxAttempt(old(rows), c.key) + 1, c.retryOf)
      ensures !created ==> rows == old(rows)
      ensures !created ==> row in rows && row.key == c.key && row.attempt == MaxAttempt(rows, c.key)
    {
      var latest := SelectMax(rows, c.key);
      if c.retryOf.None? && latest > 0 {
        LatestExists(rows, c.key);
        return Latest(rows, c.key).value, false;
      }
      row := Row(c.id, c.key, latest + 1, c.retryOf);
      rows := rows + [row];
      created := true;
    }
  }

  lemma {:induction false} LatestExists(rows: seq<Row>, key: RevisionKey)
    requires MaxAttempt(rows, key) > 0
    ensures Latest(rows, key).Some?
    ensures var r := Latest(rows, key).value; r in rows && r.key == key && r.attempt == MaxAttempt(rows, key)
  {
    if !(Last(rows).key == key && Last(rows).attempt == MaxAttempt(rows, key)) {
      LatestExists(Front(rows), key);
    }
  }

  // ---------- interleaved transactions ----------

  datatype Mode = Immediate | Deferred

  /** Where a transaction stands. */
  datatype Phase =
    | NotStarted
    | Begun
    | HasRead(latest: nat)
    | Inserted
    | Reusing
    | Refused
    | Committed
    | RolledBack

  /** Committed rows, the holder of the write lock with its uncommitted rows, every transaction's
      phase, and the calls whose transactions have committed so far. */
  datatype Database = Database(
    rows: seq<Row>, lock: Option<nat>, pending: seq<Row>, phases: map<nat, Phase>, history: seq<Call>)

  datatype Action = Begin | Select | Write | Commit | Rollback

  type Move = (nat, Action)

  function PhaseOf(d: Database, t: nat): Phase {
    if t in d.phases then d.phases[t] else NotStarted
  }

  predicate Holds(d: Database, t: nat) {
    d.lock == Some(t)
  }

  /** Under way; only such a transaction can hold the lock. */
  predicate Active(p: Phase) {
    p.Begun? || p.HasRead? || p.Inserted? || p.Reusing? || p.Refused?
  }

  predicate CanTake(d: Database, mode: Mode, calls: map<nat, Call>, t: nat, a: Action) {
    t in calls &&
    match a
    case Begin => PhaseOf(d, t).NotStarted? && (mode.Immediate? ==> d.lock.None?)
    case Select => PhaseOf(d, t).Begun?
    case Write =>
      PhaseOf(d, t).HasRead? && (Reuses(calls[t], PhaseOf(d, t).latest) || Holds(d, t) || d.lock.None?)
    case Commit => PhaseOf(d, t).Inserted? || PhaseOf(d, t).Reusing?
    case Rollback => Active(PhaseOf(d, t))
  }

  function Enter(d: Database, t: nat, p: Phase): Database {
    d.(phases := d.phases[t := p])
  }

  function Release(d: Database, t: nat): Database {
    if Holds(d, t) then d.(lock := None, pending := []) else d
  }

  /** One step of one transaction.  A read sees the committed rows; an insert takes the lock, and the
      transaction of a refused one can only be rolled back. */
  function Take(d: Database, mode: Mode, calls: map<nat, Call>, t: nat, a: Action): Database
    requires CanTake(d, mode, calls, t, a)
  {
    var c := calls[t];
    match a
    case Begin => Enter(if mode.Immediate? then d.(lock := Some(t)) else d, t, Begun)
    case Select => Enter(d, t, HasRead(MaxAttempt(d.rows, c.key)))
    case Write =>
      var latest := PhaseOf(d, t).latest;
      if Reuses(c, latest) then Enter(d, t, Reusing)
      else if Stored(d.rows, c.key, latest + 1) then Enter(d.(lock := Some(t)), t, Refused)
      else Enter(d.(lock := Some(t), pending := [NewRow(c, latest)]), t, Inserted)
    case Commit =>
      var d1 := if Holds(d, t) then d.(rows := d.rows + d.pending) else d;
      Enter(Release(d1, t), t, Committed).(history := d.history + [c])
    case Rollback => Enter(Release(d, t), t, RolledBack)
  }

  /** The shared database, changed in place one step at a time. */
  class SharedDatabase {
    const mode: Mode
    const calls: map<nat, Call>
    var rows: seq<Row>
    var lock: Option<nat>
    var pending: seq<Row>
    var phases: map<nat, Phase>
    ghost var history: seq<Call>

    ghost function State(): Database
      reads this
    {
      Database(rows, lock, pending, phases, history)
    }

    constructor (mode: Mode, calls: map<nat, Call>)
      ensures State() == FRESH && this.mode == mode && this.calls == calls
    {
      this.mode, this.calls := mode, calls;
      rows, lock, pending, phases, history := [], None, [], map[], [];
    }

    method BeginTransaction(t: nat)
      requires CanTake(State(), mode, calls, t, Begin)
      modifies this
      ensures State() == Take(old(State()), mode, calls, t, Begin)
    {
      if mode.Immediate? {
        lock := Some(t);
      }
      phases := phases[t := Begun];
    }

    method SelectLatest(t: nat)
      requires CanTake(State(), mode, calls, t, Select)
      modifies this
      ensures State() == Take(old(State()), mode, calls, t, Select)
    {
      phases := phases[t := HasRead(MaxAttempt(rows, calls[t].key))];
    }

    method InsertNext(t: nat)
      requires CanTake(State(), mode, calls, t, Write)
      modifies this
      ensures State() == Take(old(State()), mode, calls, t, Write)
    {
      var latest := phases[t].latest;
      if Reuses(calls[t], latest) {
        phases := phases[t := Reusing];
      } else if Stored(rows, calls[t].key, latest + 1) {
        lock := Some(t);
        phases := phases[t := Refused];
      } else {
        lock, pending := Some(t), [NewRow(calls[t], latest)];
        phases := phases[t := Inserted];
      }
    }

    method CommitTransaction(t: nat)
      requires CanTake(State(), mode, calls, t, Commit)
      modifies this
      ensures State() == Take(old(State()), mode, calls, t, Commit)
    {
      if lock == Some(t) {
        rows := rows + pending;
        lock, pending := None, [];
      }
      phases, history := phases[t := Committed], history + [calls[t]];
    }

    method RollBackTransaction(t: nat)
      requires CanTake(State(), mode, calls, t, Rollback)
      modifies this
      ensures State() == Take(old(State()), mode, calls, t, Rollback)
    {
      if lock == Some(t) {
        lock, pending := None, [];
      }
      phases := phases[t := RolledBack];
    }
  }

  /** The attempts of every key are 1, 2, ..., n in the order they were stored. */
  ghost predicate Numbered(rows: seq<Row>) {
    forall key, i :: 0 <= i < |RowsOf(rows, key)| ==> RowsOf(rows, key)[i].attempt == i + 1
  }

  /** A row that is not a retry is the first of its key. */
  ghost predicate FirstsAreFirst(rows: seq<Row>) {
    forall key, i :: 0 <= i < |RowsOf(rows, key)| && RowsOf(rows, key)[i].retryOf.None? ==> i == 0
  }

  lemma {:induction false} NumberedMax(rows: seq<Row>, key: RevisionKey)
    requires forall i :: 0 <= i < |RowsOf(rows, key)| ==> RowsOf(rows, key)[i].attempt == i + 1
    ensures MaxAttempt(rows, key) == |RowsOf(rows, key)|
  {
    if rows != [] {
      var front := RowsOf(Front(rows), key);
      assert forall i :: 0 <= i < |front| ==> front[i] == RowsOf(rows, key)[i];
      NumberedMax(Front(rows), key);
      if Last(rows).key == key {
        assert RowsOf(rows, key)[|front|] == Last(rows);
      }
    }
  }

  lemma RowsOfAppend(rows: seq<Row>, r: Row, key: RevisionKey)
    ensures RowsOf(rows + [r], key) == RowsOf(rows, key) + (if r.key == key then [r] else [])
  {
    assert Front(rows + [r]) == rows;
  }

  /** Running `create` on its own keeps the numbering. */
  lemma CreateKeepsNumbering(rows: seq<Row>, c: Call)
    requires Numbered(rows) && FirstsAreFirst(rows)
    ensures Numbered(Create(rows, c)) && FirstsAreFirst(Create(rows, c))
  {
    var latest := MaxAttempt(rows, c.key);
    NumberedMax(rows, c.key);
    if !Reuses(c, latest) {
      var r := NewRow(c, latest);
      forall key, i | 0 <= i < |RowsOf(rows + [r], key)|
        ensures RowsOf(rows + [r], key)[i].attempt == i + 1
        ensures RowsOf(rows + [r], key)[i].retryOf.None? ==> i == 0
      {
        RowsOfAppend(rows, r, key);
        if i < |RowsOf(rows, key)| {
          assert RowsOf(rows, key)[i].attempt == i + 1;
        }
      }
    }
  }

  lemma {:induction false} CreateAllNumbered(calls: seq<Call>)
    ensures Numbered(CreateAll([], calls)) && FirstsAreFirst(CreateAll([], calls))
  {
    if calls != [] {
      CreateAllNumbered(Front(calls));
      CreateKeepsNumbering(CreateAll([], Front(calls)), Last(calls));
    }
  }

  const FRESH := Database([], None, [], map[], [])

  /** The state after a sequence of moves in any order; a move that is not enabled has to wait. */
  function After(mode: Mode, calls: map<nat, Call>, moves: seq<Move>): Database
    decreases |moves|
  {
    if moves == [] then FRESH
    else
      var d, m := After(mode, calls, Front(moves)), Last(moves);
      if CanTake(d, mode, calls, m.0, m.1) then Take(d, mode, calls, m.0, m.1) else d
  }

  // ---------- every interleaving is serial ----------

  lemma {:induction false} AttemptsBelowMax(rows: seq<Row>, r: Row)
    requires r in rows
    ensures r.attempt <= MaxAttempt(rows, r.key)
  {
    if r != Last(rows) {
      assert r in Front(rows);
      AttemptsBelowMax(Front(rows), r);
    }
  }

  lemma {:induction false} RowsOfMember(rows: seq<Row>, key: RevisionKey, i: nat)
    requires i < |RowsOf(rows, key)|
    ensures RowsOf(rows, key)[i] in rows && RowsOf(rows, key)[i].key == key
  {
    if i < |RowsOf(Front(rows), key)| {
      RowsOfMember(Front(rows), key, i);
    }
  }

  /** With the attempts numbered, the attempt after `latest` is stored exactly if there is a later one. */
  lemma StoredIff(rows: seq<Row>, key: RevisionKey, latest: nat)
    requires Numbered(rows)
    ensures Stored(rows, key, latest + 1) <==> latest < MaxAttempt(rows, key)
  {
    NumberedMax(rows, key);
    if latest < MaxAttempt(rows, key) {
      RowsOfMember(rows, key, latest);
    }
    if r :| r in rows && r.key == key && r.attempt == latest + 1 {
      AttemptsBelowMax(rows, r);
    }
  }

  /** What a transaction has seen or inserted still fits the committed rows. */
  ghost predicate InStep(d: Database, c: Call, p: Phase) {
    var latest := MaxAttempt(d.rows, c.key);
    match p
    case HasRead(n) => n <= latest
    case Inserted => d.pending == [NewRow(c, latest)] && !Reuses(c, latest)
    case Reusing => Reuses(c, latest)
    case _ => true
  }

  ghost predicate Fits(d: Database, calls: map<nat, Call>, t: nat) {
    && (Active(PhaseOf(d, t)) ==> t in calls && InStep(d, calls[t], PhaseOf(d, t)))
    && (PhaseOf(d, t).Inserted? ==> Holds(d, t))
  }

  /** The committed rows are those of running the committed calls one after the other, in the order they
      committed. */
  ghost predicate Serial(d: Database, calls: map<nat, Call>) {
    && d.rows == CreateAll([], d.history)
    && (forall t :: Fits(d, calls, t))
    && (d.pending != [] ==> d.lock.Some? && PhaseOf(d, d.lock.value).Inserted?)
  }

  lemma CreateAllSnoc(calls: seq<Call>, c: Call)
    ensures CreateAll([], calls + [c]) == Create(CreateAll([], calls), c)
  {
    assert Front(calls + [c]) == calls;
  }

  lemma MaxAppend(rows: seq<Row>, r: Row, key: RevisionKey)
    ensures MaxAttempt(rows + [r], key) == Max(MaxAttempt(rows, key), if r.key == key then r.attempt else 0)
  {
    assert Front(rows + [r]) == rows;
  }

  /** An insert that is not refused has read the highest attempt there still is. */
  lemma InsertIsNext(d: Database, mode: Mode, calls: map<nat, Call>, t: nat)
    requires Serial(d, calls) && CanTake(d, mode, calls, t, Write)
    requires !Stored(d.rows, calls[t].key, PhaseOf(d, t).latest + 1)
    ensures PhaseOf(d, t).latest == MaxAttempt(d.rows, calls[t].key)
  {
    assert Fits(d, calls, t);
    CreateAllNumbered(d.history);
    StoredIff(d.rows, calls[t].key, PhaseOf(d, t).latest);
    hide MaxAttempt, CreateAll, Stored, Reuses, Numbered, FirstsAreFirst;
  }

  lemma InsertStaysSerial(d: Database, mode: Mode, calls: map<nat, Call>, t: nat)
    requires Serial(d, calls) && CanTake(d, mode, calls, t, Write) && !Reuses(calls[t], PhaseOf(d, t).latest)
    requires !Stored(d.rows, calls[t].key, PhaseOf(d, t).latest + 1)
    ensures Serial(Take(d, mode, calls, t, Write), calls)
  {
    InsertIsNext(d, mode, calls, t);
    assert Fits(d, calls, t);
    var d' := Take(d, mode, calls, t, Write);
    hide MaxAttempt, CreateAll, Stored, NewRow, Reuses;
    forall u
      ensures Fits(d', calls, u)
    {
      assert Fits(d, calls, u);
    }
  }

  lemma WriteStaysSerial(d: Database, mode: Mode, calls: map<nat, Call>, t: nat)
    requires Serial(d, calls) && CanTake(d, mode, calls, t, Write)
    ensures Serial(Take(d, mode, calls, t, Write), calls)
  {
    var latest := PhaseOf(d, t).latest;
    if !Reuses(calls[t], latest) && !Stored(d.rows, calls[t].key, latest + 1) {
      InsertStaysSerial(d, mode, calls, t);
    } else {
      assert Fits(d, calls, t);
      var d' := Take(d, mode, calls, t, Write);
      hide MaxAttempt, CreateAll, Stored, NewRow;
      forall u
        ensures Fits(d', calls, u)
      {
        assert Fits(d, calls, u);
      }
    }
  }

  /** A committed row keeps the others in step. */
  lemma OthersFit(d: Database, d': Database, calls: map<nat, Call>, t: nat, u: nat)
    requires Fits(d, calls, u) && PhaseOf(d', u) == PhaseOf(d, u) && !PhaseOf(d, u).Inserted?
    requires t in calls && d'.rows == Create(d.rows, calls[t])
    ensures Fits(d', calls, u)
  {
    if u in calls {
      CreateKeepsMax(d.rows, calls[t], calls[u].key);
    }
    hide MaxAttempt, Create;
  }

  lemma InsertCommits(d: Database, mode: Mode, calls: map<nat, Call>, t: nat)
    requires Serial(d, calls) && CanTake(d, mode, calls, t, Commit) && PhaseOf(d, t).Inserted?
    ensures Serial(Take(d, mode, calls, t, Commit), calls)
  {
    var d' := Take(d, mode, calls, t, Commit);
    CreateAllSnoc(d.history, calls[t]);
    assert Fits(d, calls, t);
    assert d'.rows == Create(d.rows, calls[t]);
    hide MaxAttempt, CreateAll, Create, Reuses, InStep;
    forall u
      ensures Fits(d', calls, u)
    {
      assert Fits(d, calls, u);
      if u != t {
        assert !PhaseOf(d, u).Inserted?;
        OthersFit(d, d', calls, t, u);
      }
    }
  }

  lemma ReuseCommits(d: Database, mode: Mode, calls: map<nat, Call>, t: nat)
    requires Serial(d, calls) && CanTake(d, mode, calls, t, Commit) && PhaseOf(d, t).Reusing?
    ensures Serial(Take(d, mode, calls, t, Commit), calls)
  {
    var d' := Take(d, mode, calls, t, Commit);
    CreateAllSnoc(d.history, calls[t]);
    assert Fits(d, calls, t);
    assert d'.rows == d.rows == Create(d.rows, calls[t]);
    hide MaxAttempt, CreateAll, Create, Reuses, NewRow;
    forall u
      ensures Fits(d', calls, u)
    {
      assert Fits(d, calls, u);
    }
  }

  lemma CreateKeepsMax(rows: seq<Row>, c: Call, key: RevisionKey)
    ensures MaxAttempt(rows, key) <= MaxAttempt(Create(rows, c), key)
  {
    MaxAppend(rows, NewRow(c, MaxAttempt(rows, c.key)), key);
  }

  lemma OtherStaysSerial(d: Database, mode: Mode, calls: map<nat, Call>, t: nat, a: Action)
    requires Serial(d, calls) && CanTake(d, mode, calls, t, a) && !a.Write? && !a.Commit?
    ensures Serial(Take(d, mode, calls, t, a), calls)
  {
    var d' := Take(d, mode, calls, t, a);
    assert d'.rows == d.rows && d'.history == d.history;
    hide MaxAttempt, CreateAll, Reuses, NewRow, Stored;
    forall u
      ensures Fits(d', calls, u)
    {
      assert Fits(d, calls, u);
    }
  }

  lemma TakeStaysSerial(d: Database, mode: Mode, calls: map<nat, Call>, t: nat, a: Action)
    requires Serial(d, calls) && CanTake(d, mode, calls, t, a)
    ensures Serial(Take(d, mode, calls, t, a), calls)
  {
    if a.Write? {
      WriteStaysSerial(d, mode, calls, t);
    } else if !a.Commit? {
      OtherStaysSerial(d, mode, calls, t, a);
    } else if PhaseOf(d, t).Inserted? {
      InsertCommits(d, mode, calls, t);
    } else {
      ReuseCommits(d, mode, calls, t);
    }
  }

  /** In either mode every interleaving, rollbacks and refusals included, leaves exactly the rows that running
      the committed calls one after the other would leave. */
  lemma {:induction false} EveryRunIsSerial(mode: Mode, calls: map<nat, Call>, moves: seq<Move>)
    ensures Serial(After(mode, calls, moves), calls)
    decreases |moves|
  {
    if moves != [] {
      EveryRunIsSerial(mode, calls, Front(moves));
      var d, m := After(mode, calls, Front(moves)), Last(moves);
      if CanTake(d, mode, calls, m.0, m.1) {
        TakeStaysSerial(d, mode, calls, m.0, m.1);
      }
    }
  }

  /** So the attempts stored for one key are exactly 1..n, and at most one row per key, the first, is
      not a retry. */
  lemma EveryRunNumbersAttempts(mode: Mode, calls: map<nat, Call>, moves: seq<Move>)
    ensures var rows := After(mode, calls, moves).rows; Numbered(rows) && FirstsAreFirst(rows)
  {
    EveryRunIsSerial(mode, calls, moves);
    CreateAllNumbered(After(mode, calls, moves).history);
  }

  // ---------- when an insert is refused ----------

  /** Only the lock holder is under way, and what it has read is still true. */
  ghost predicate AloneAt(d: Database, calls: map<nat, Call>, t: nat) {
    && (Active(PhaseOf(d, t)) ==> Holds(d, t) && t in calls && !PhaseOf(d, t).Refused?)
    && (PhaseOf(d, t).HasRead? ==> PhaseOf(d, t).latest == MaxAttempt(d.rows, calls[t].key))
  }

  ghost predicate Alone(d: Database, calls: map<nat, Call>) {
    forall t :: AloneAt(d, calls, t)
  }

  lemma TakeStaysAlone(d: Database, calls: map<nat, Call>, t: nat, a: Action)
    requires Serial(d, calls) && Alone(d, calls) && CanTake(d, Immediate, calls, t, a)
    ensures Alone(Take(d, Immediate, calls, t, a), calls)
  {
    CreateAllNumbered(d.history);
    assert AloneAt(d, calls, t);
    if a.Write? {
      StoredIff(d.rows, calls[t].key, PhaseOf(d, t).latest);
    }
    var d' := Take(d, Immediate, calls, t, a);
    hide MaxAttempt, CreateAll, Stored, Numbered, FirstsAreFirst, Serial, Reuses, NewRow;
    forall u
      ensures AloneAt(d', calls, u)
    {
      assert AloneAt(d, calls, u);
    }
  }

  /** Under `write()` no insert is ever refused. */
  lemma {:induction false} ImmediateNeverRefuses(calls: map<nat, Call>, moves: seq<Move>)
    ensures Alone(After(Immediate, calls, moves), calls)
    ensures forall t :: !PhaseOf(After(Immediate, calls, moves), t).Refused?
    decreases |moves|
  {
    if moves != [] {
      ImmediateNeverRefuses(calls, Front(moves));
      EveryRunIsSerial(Immediate, calls, Front(moves));
      var d, m := After(Immediate, calls, Front(moves)), Last(moves);
      if CanTake(d, Immediate, calls, m.0, m.1) {
        TakeStaysAlone(d, calls, m.0, m.1);
      }
    }
    hide After;
    forall t
      ensures !PhaseOf(After(Immediate, calls, moves), t).Refused?
    {
      assert AloneAt(After(Immediate, calls, moves), calls, t);
    }
  }

  /** The state before the `k`-th move. */
  function StateAt(mode: Mode, calls: map<nat, Call>, moves: seq<Move>, k: nat): Database
    requires k <= |moves|
  {
    After(mode, calls, moves[..k])
  }

  /** The `k`-th move is this step of this transaction, and it is enabled. */
  predicate Takes(mode: Mode, calls: map<nat, Call>, moves: seq<Move>, k: nat, t: nat, a: Action)
    requires k < |moves|
  {
    moves[k] == (t, a) && CanTake(StateAt(mode, calls, moves, k), mode, calls, t, a)
  }

  lemma NextState(mode: Mode, calls: map<nat, Call>, moves: seq<Move>, k: nat)
    requires k < |moves|
    ensures var d, (t, a) := StateAt(mode, calls, moves, k), moves[k];
      StateAt(mode, calls, moves, k + 1)
        == if CanTake(d, mode, calls, t, a) then Take(d, mode, calls, t, a) else d
  {
    assert Front(moves[..k + 1]) == moves[..k];
  }

  /** The `k`-th move commits a new row of the key. */
  predicate CommitsRow(mode: Mode, calls: map<nat, Call>, moves: seq<Move>, k: nat, key: RevisionKey)
    requires k < |moves|
  {
    var t := moves[k].0;
    Takes(mode, calls, moves, k, t, Commit)
    && PhaseOf(StateAt(mode, calls, moves, k), t).Inserted? && calls[t].key == key
  }

  lemma RowsAfter(d: Database, mode: Mode, calls: map<nat, Call>, t: nat, a: Action)
    requires Serial(d, calls) && CanTake(d, mode, calls, t, a)
    ensures Take(d, mode, calls, t, a).rows
      == if a.Commit? && PhaseOf(d, t).Inserted? then d.rows + [NewRow(calls[t], MaxAttempt(d.rows, calls[t].key))]
         else d.rows
  {
    assert Fits(d, calls, t);
    hide MaxAttempt, CreateAll, Stored, Reuses;
  }

  lemma CommitRaisesMax(mode: Mode, calls: map<nat, Call>, moves: seq<Move>, k: nat, key: RevisionKey)
    requires k < |moves|
    ensures MaxAttempt(StateAt(mode, calls, moves, k + 1).rows, key)
      == MaxAttempt(StateAt(mode, calls, moves, k).rows, key)
         + if CommitsRow(mode, calls, moves, k, key) then 1 else 0
  {
    var d, t, a := StateAt(mode, calls, moves, k), moves[k].0, moves[k].1;
    NextState(mode, calls, moves, k);
    EveryRunIsSerial(mode, calls, moves[..k]);
    if CanTake(d, mode, calls, t, a) {
      RowsAfter(d, mode, calls, t, a);
      MaxAppend(d.rows, NewRow(calls[t], MaxAttempt(d.rows, calls[t].key)), key);
    }
    hide StateAt, MaxAttempt, CanTake, Take, Serial;
  }

  lemma {:induction false} MaxOver(mode: Mode, calls: map<nat, Call>, moves: seq<Move>, i: nat, j: nat,
      key: RevisionKey)
    requires i <= j <= |moves|
    ensures var before, later := StateAt(mode, calls, moves, i).rows, StateAt(mode, calls, moves, j).rows;
      && MaxAttempt(before, key) <= MaxAttempt(later, key)
      && (MaxAttempt(before, key) < MaxAttempt(later, key) <==>
            exists k: nat :: i <= k < j && CommitsRow(mode, calls, moves, k, key))
    decreases j
  {
    if i < j {
      MaxOver(mode, calls, moves, i, j - 1, key);
      CommitRaisesMax(mode, calls, moves, j - 1, key);
      hide StateAt, MaxAttempt, CommitsRow;
      if CommitsRow(mode, calls, moves, j - 1, key) {
        assert i <= j - 1 < j;
      }
    }
  }

  function Rank(p: Phase): nat {
    match p
    case NotStarted => 0
    case Begun => 1
    case HasRead(_) => 2
    case _ => 3
  }

  lemma StepMovesOn(d: Database, mode: Mode, calls: map<nat, Call>, u: nat, a: Action, t: nat)
    requires CanTake(d, mode, calls, u, a)
    ensures var p, q := PhaseOf(d, t), PhaseOf(Take(d, mode, calls, u, a), t);
      Rank(p) <= Rank(q) && (Rank(p) == Rank(q) < 3 ==> p == q)
  {
    hide MaxAttempt, Stored, Reuses, NewRow;
  }

  /** A transaction only moves on. */
  lemma {:induction false} MovesOn(mode: Mode, calls: map<nat, Call>, moves: seq<Move>, i: nat, j: nat, t: nat)
    requires i <= j <= |moves|
    ensures var p, q := PhaseOf(StateAt(mode, calls, moves, i), t), PhaseOf(StateAt(mode, calls, moves, j), t);
      Rank(p) <= Rank(q) && (Rank(p) == Rank(q) < 3 ==> p == q)
    decreases j
  {
    if i < j {
      MovesOn(mode, calls, moves, i, j - 1, t);
      NextState(mode, calls, moves, j - 1);
      var d, u, a := StateAt(mode, calls, moves, j - 1), moves[j - 1].0, moves[j - 1].1;
      if CanTake(d, mode, calls, u, a) {
        StepMovesOn(d, mode, calls, u, a, t);
      }
      hide StateAt, PhaseOf, CanTake, Take, Rank;
    }
  }

  /** In either mode an insert is refused if and only if another call has committed a row of the key since this
      one read its highest attempt. */
  lemma RefusedIffOvertaken(mode: Mode, calls: map<nat, Call>, moves: seq<Move>, i: nat, j: nat, t: nat)
    requires i < j < |moves| && Takes(mode, calls, moves, i, t, Select) && Takes(mode, calls, moves, j, t, Write)
    requires !Reuses(calls[t], MaxAttempt(StateAt(mode, calls, moves, i).rows, calls[t].key))
    ensures PhaseOf(StateAt(mode, calls, moves, j + 1), t).Refused?
      <==> exists k: nat :: i < k < j && moves[k].0 != t && CommitsRow(mode, calls, moves, k, calls[t].key)
  {
    var key := calls[t].key;
    var latest := MaxAttempt(StateAt(mode, calls, moves, i).rows, key);
    NextState(mode, calls, moves, i);
    MovesOn(mode, calls, moves, i + 1, j, t);
    MaxOver(mode, calls, moves, i + 1, j, key);
    CommitRaisesMax(mode, calls, moves, i, key);
    NextState(mode, calls, moves, j);
    EveryRunNumbersAttempts(mode, calls, moves[..j]);
    StoredIff(StateAt(mode, calls, moves, j).rows, key, latest);
    forall k: nat | i < k < j && CommitsRow(mode, calls, moves, k, key)
      ensures moves[k].0 != t
    {
      MovesOn(mode, calls, moves, i + 1, k, t);
      MovesOn(mode, calls, moves, k, j, t);
    }
    hide StateAt, MaxAttempt, CommitsRow, Stored, Numbered, FirstsAreFirst;
  }

  function Twins(key: RevisionKey): map<nat, Call> {
    map[0 := Call("a", key, None), 1 := Call("b", key, None)]
  }

  /** Both calls read before either inserts. */
  const RACE: seq<Move> :=
    [(0, Begin), (0, Select), (1, Begin), (1, Select), (0, Write), (0, Commit), (1, Write)]

  lemma BothRead(key: RevisionKey)
    ensures StateAt(Deferred, Twins(key), RACE, 4)
      == Database([], None, [], map[0 := HasRead(0), 1 := HasRead(0)], [])
  {
    var calls := Twins(key);
    var d1 := Take(FRESH, Deferred, calls, 0, Begin);
    var d2 := Take(d1, Deferred, calls, 0, Select);
    var d3 := Take(d2, Deferred, calls, 1, Begin);
    assert RACE[..0] == [];
    NextState(Deferred, calls, RACE, 0);
    NextState(Deferred, calls, RACE, 1);
    NextState(Deferred, calls, RACE, 2);
    NextState(Deferred, calls, RACE, 3);
    hide StateAt;
    assert StateAt(Deferred, calls, RACE, 3) == d3;
  }

  lemma FirstInserts(key: RevisionKey)
    ensures StateAt(Deferred, Twins(key), RACE, 5)
      == Database([], Some(0), [Row("a", key, 1, None)], map[0 := Inserted, 1 := HasRead(0)], [])
  {
    BothRead(key);
    NextState(Deferred, Twins(key), RACE, 4);
    hide StateAt, After, MaxAttempt;
  }

  lemma FirstCommits(key: RevisionKey)
    ensures var d := StateAt(Deferred, Twins(key), RACE, 6);
      d.rows == [Row("a", key, 1, None)] && d.lock.None? && PhaseOf(d, 1) == HasRead(0)
  {
    FirstInserts(key);
    NextState(Deferred, Twins(key), RACE, 5);
    hide StateAt, After, MaxAttempt;
  }

  lemma OneRow(r: Row, c: Call)
    requires r.key == c.key && r.attempt == 1 && c.retryOf.None?
    ensures Stored([r], c.key, 1) && Create([r], c) == [r]
  {
    assert r in [r];
    MaxAppend([], r, c.key);
    assert [] + [r] == [r];
    hide Stored;
  }

  /** Under `connect()`, for every key, the second of two such calls fails, where run after the first it would
      have returned the row that is there. */
  lemma DeferredRefuses(key: RevisionKey)
    ensures var d := After(Deferred, Twins(key), RACE);
      d.rows == [Row("a", key, 1, None)] && PhaseOf(d, 1).Refused? && Create(d.rows, Twins(key)[1]) == d.rows
  {
    FirstCommits(key);
    NextState(Deferred, Twins(key), RACE, 6);
    OneRow(Row("a", key, 1, None), Twins(key)[1]);
    assert RACE[..7] == RACE;
    hide After, Create, Stored, MaxAttempt;
  }
}
