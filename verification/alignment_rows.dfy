/** What the rows of alignment checks say about the calls: which call leaves a row, with which fields,
    and which is answered with the row that is there. */
module AlignmentRows {
  import opened Text
  import opened AlignmentStore

  // ---------- one call ----------

  /** The highest attempt is that of some row of the key, and none is higher; without a row it is 0. */
  lemma {:induction false} MaxIsHighest(rows: seq<Row>, key: RevisionKey)
    ensures forall r :: r in rows && r.key == key ==> r.attempt <= MaxAttempt(rows, key)
    ensures MaxAttempt(rows, key) > 0 ==> exists r :: r in rows && r.key == key && r.attempt == MaxAttempt(rows, key)
  {
    if rows != [] {
      MaxIsHighest(Front(rows), key);
      assert forall r :: r in rows <==> r in Front(rows) || r == Last(rows);
    }
  }

  /** Some row of the key has been stored. */
  ghost predicate HasRow(rows: seq<Row>, key: RevisionKey) {
    exists r :: r in rows && r.key == key && r.attempt > 0
  }

  /** The row a call leaves: its own id, key and retry mark, and one attempt more than any of the key. */
  ghost predicate NextRow(rows: seq<Row>, c: Call, r: Row) {
    && r.id == c.id && r.key == c.key && r.retryOf == c.retryOf
    && r.attempt > 0
    && (forall q :: q in rows && q.key == c.key ==> q.attempt < r.attempt)
    && (r.attempt > 1 ==> exists q :: q in rows && q.key == c.key && q.attempt == r.attempt - 1)
  }

  /** A retry always appends its row; any other call exactly if the key has none, and else changes nothing. */
  lemma CreateAppendsIff(rows: seq<Row>, c: Call)
    ensures if c.retryOf.Some? || !HasRow(rows, c.key)
      then exists r :: NextRow(rows, c, r) && Create(rows, c) == rows + [r]
      else Create(rows, c) == rows
  {
    MaxIsHighest(rows, c.key);
    var latest := MaxAttempt(rows, c.key);
    assert latest > 0 <==> HasRow(rows, c.key);
    hide MaxAttempt, HasRow;
    if c.retryOf.Some? || latest == 0 {
      var r := Row(c.id, c.key, latest + 1, c.retryOf);
      assert NextRow(rows, c, r);
      assert Create(rows, c) == rows + [r];
    }
  }

  // ---------- every interleaving ----------

  predicate Carries(r: Row, calls: map<nat, Call>, t: nat) {
    t in calls && r.id == calls[t].id && r.key == calls[t].key && r.retryOf == calls[t].retryOf
  }

  ghost predicate HasKey(rows: seq<Row>, key: RevisionKey) {
    exists k :: 0 <= k < |rows| && rows[k].key == key
  }

  /** A committed call finds a row of its key, and a retry owns one. */
  ghost predicate Served(d: Database, calls: map<nat, Call>, owner: seq<nat>, t: nat) {
    PhaseOf(d, t).Committed? ==>
      t in calls && HasKey(d.rows, calls[t].key) && (calls[t].retryOf.Some? ==> t in owner)
  }

  /** The `k`-th row carries the fields of its owner's call, which is committed. */
  ghost predicate RowOwned(d: Database, calls: map<nat, Call>, owner: seq<nat>, k: nat)
    requires k < |owner| == |d.rows|
  {
    PhaseOf(d, owner[k]).Committed? && Carries(d.rows[k], calls, owner[k])
  }

  ghost predicate Distinct(owner: seq<nat>) {
    forall k, l :: 0 <= k < l < |owner| ==> owner[k] != owner[l]
  }

  /** Every row belongs to one committed transaction and carries its call's fields, every committed retry
      has a row of its own, and every committed call finds a row of its key. */
  ghost predicate Owned(d: Database, calls: map<nat, Call>, owner: seq<nat>) {
    && |owner| == |d.rows| && Distinct(owner)
    && (forall k: nat :: k < |owner| ==> RowOwned(d, calls, owner, k))
    && (forall t :: Served(d, calls, owner, t))
  }

  /** Only transaction `t` has moved. */
  ghost predicate OnlyMoves(d: Database, d': Database, t: nat) {
    forall u :: u != t ==> PhaseOf(d', u) == PhaseOf(d, u)
  }

  lemma TakeMovesOne(d: Database, mode: Mode, calls: map<nat, Call>, t: nat, a: Action)
    requires CanTake(d, mode, calls, t, a)
    ensures OnlyMoves(d, Take(d, mode, calls, t, a), t) && !PhaseOf(d, t).Committed?
    ensures PhaseOf(Take(d, mode, calls, t, a), t).Committed? <==> a.Commit?
  {
    hide MaxAttempt, Stored, Reuses, NewRow;
  }

  lemma OwnedByOne(d: Database, d': Database, calls: map<nat, Call>, t: nat, owner: seq<nat>, r: Row)
    requires Owned(d, calls, owner) && OnlyMoves(d, d', t) && !PhaseOf(d, t).Committed?
    requires PhaseOf(d', t).Committed? && d'.rows == d.rows + [r] && Carries(r, calls, t)
    ensures Owned(d', calls, owner + [t])
  {
    var owner' := owner + [t];
    KeysStay(d.rows, r);
    assert t in calls && r.key == calls[t].key;
    hide PhaseOf, Carries, HasKey;
    forall k: nat | k < |owner'|
      ensures RowOwned(d', calls, owner', k)
      ensures k < |owner| ==> owner'[k] != t
    {
      if k < |owner| {
        assert RowOwned(d, calls, owner, k);
        assert owner'[k] == owner[k] && d'.rows[k] == d.rows[k];
      }
    }
    forall u
      ensures Served(d', calls, owner', u)
    {
      assert Served(d, calls, owner, u);
    }
  }

  lemma OwnedStays(d: Database, d': Database, calls: map<nat, Call>, t: nat, owner: seq<nat>)
    requires Owned(d, calls, owner) && OnlyMoves(d, d', t) && !PhaseOf(d, t).Committed? && d'.rows == d.rows
    requires Served(d', calls, owner, t)
    ensures Owned(d', calls, owner)
  {
    hide PhaseOf, Carries, HasKey;
    forall k: nat | k < |owner|
      ensures RowOwned(d', calls, owner, k)
    {
      assert RowOwned(d, calls, owner, k);
    }
    forall u
      ensures Served(d', calls, owner, u)
    {
      assert Served(d, calls, owner, u);
    }
  }

  lemma KeysStay(rows: seq<Row>, r: Row)
    ensures HasKey(rows + [r], r.key)
    ensures forall key :: HasKey(rows, key) ==> HasKey(rows + [r], key)
  {
    assert (rows + [r])[|rows|] == r;
    forall key | HasKey(rows, key)
      ensures HasKey(rows + [r], key)
    {
      var k :| 0 <= k < |rows| && rows[k].key == key;
      assert (rows + [r])[k] == rows[k];
    }
  }

  lemma ReuseIsServed(d: Database, calls: map<nat, Call>, t: nat)
    requires Serial(d, calls) && PhaseOf(d, t).Reusing?
    ensures t in calls && calls[t].retryOf.None? && HasKey(d.rows, calls[t].key)
  {
    assert Fits(d, calls, t);
    MaxIsHighest(d.rows, calls[t].key);
    var r :| r in d.rows && r.key == calls[t].key;
  }

  lemma TakeKeepsOwners(d: Database, mode: Mode, calls: map<nat, Call>, t: nat, a: Action, owner: seq<nat>)
    requires Serial(d, calls) && Owned(d, calls, owner) && CanTake(d, mode, calls, t, a)
    ensures var inserts := a.Commit? && PhaseOf(d, t).Inserted?;
      Owned(Take(d, mode, calls, t, a), calls, if inserts then owner + [t] else owner)
  {
    var d' := Take(d, mode, calls, t, a);
    RowsAfter(d, mode, calls, t, a);
    TakeMovesOne(d, mode, calls, t, a);
    if a.Commit? && PhaseOf(d, t).Inserted? {
      var r := NewRow(calls[t], MaxAttempt(d.rows, calls[t].key));
      hide Take, Serial, Owned, MaxAttempt;
      OwnedByOne(d, d', calls, t, owner, r);
    } else {
      if a.Commit? {
        ReuseIsServed(d, calls, t);
      }
      hide Take, Serial, Owned, MaxAttempt, HasKey;
      OwnedStays(d, d', calls, t, owner);
    }
  }

  /** In either mode, whatever the interleaving: the rows are those of the committed calls that had to leave one,
      every committed retry among them. */
  lemma {:induction false} EveryRowIsOwned(mode: Mode, calls: map<nat, Call>, moves: seq<Move>)
    returns (owner: seq<nat>)
    ensures Owned(After(mode, calls, moves), calls, owner)
    decreases |moves|
  {
    if moves == [] {
      owner := [];
    } else {
      owner := EveryRowIsOwned(mode, calls, Front(moves));
      EveryRunIsSerial(mode, calls, Front(moves));
      var d, m := After(mode, calls, Front(moves)), Last(moves);
      if CanTake(d, mode, calls, m.0, m.1) {
        TakeKeepsOwners(d, mode, calls, m.0, m.1, owner);
        owner := if m.1.Commit? && PhaseOf(d, m.0).Inserted? then owner + [m.0] else owner;
      }
    }
  }

  /** So a committed retry has a row with its id, key and retry mark. */
  lemma CommittedRetryIsStored(mode: Mode, calls: map<nat, Call>, moves: seq<Move>, t: nat)
    requires PhaseOf(After(mode, calls, moves), t).Committed?
    ensures t in calls
    ensures calls[t].retryOf.Some? ==> exists r :: r in After(mode, calls, moves).rows && Carries(r, calls, t)
  {
    var owner := EveryRowIsOwned(mode, calls, moves);
    var rows := After(mode, calls, moves).rows;
    assert Served(After(mode, calls, moves), calls, owner, t);
    hide After;
    if calls[t].retryOf.Some? {
      var k: nat :| k < |owner| && owner[k] == t;
      assert RowOwned(After(mode, calls, moves), calls, owner, k);
      assert rows[k] in rows;
    }
  }

  // ---------- a call by itself ----------

  lemma BeginsAndReads(mode: Mode, calls: map<nat, Call>, d: Database, t: nat)
    requires t in calls && PhaseOf(d, t).NotStarted? && d.lock.None?
    ensures CanTake(d, mode, calls, t, Begin)
    ensures var d1 := Take(d, mode, calls, t, Begin);
      CanTake(d1, mode, calls, t, Select)
      && var d2 := Take(d1, mode, calls, t, Select);
         && d2.rows == d.rows && d2.pending == d.pending
         && d2.lock == (if mode.Immediate? then Some(t) else None)
         && PhaseOf(d2, t) == HasRead(MaxAttempt(d.rows, calls[t].key))
  {
    hide MaxAttempt;
  }

  lemma WritesAndCommits(mode: Mode, calls: map<nat, Call>, d: Database, t: nat)
    requires t in calls && PhaseOf(d, t) == HasRead(MaxAttempt(d.rows, calls[t].key)) && d.pending == []
    requires d.lock == (if mode.Immediate? then Some(t) else None)
    requires !Stored(d.rows, calls[t].key, MaxAttempt(d.rows, calls[t].key) + 1)
    ensures CanTake(d, mode, calls, t, Write)
    ensures var d1 := Take(d, mode, calls, t, Write);
      CanTake(d1, mode, calls, t, Commit)
      && var d2 := Take(d1, mode, calls, t, Commit);
         PhaseOf(d2, t).Committed? && d2.lock.None? && d2.rows == Create(d.rows, calls[t])
  {
    hide MaxAttempt, Stored;
    assert d.rows + [] == d.rows;
  }

  /** With the lock free, a call that nobody interrupts commits, in either mode, and does what `create` does on
      its own. */
  lemma UndisturbedCallCommits(mode: Mode, calls: map<nat, Call>, moves: seq<Move>, t: nat)
    requires t in calls && PhaseOf(After(mode, calls, moves), t).NotStarted? && After(mode, calls, moves).lock.None?
    ensures var d := After(mode, calls, moves);
      var d' := After(mode, calls, moves + [(t, Begin)] + [(t, Select)] + [(t, Write)] + [(t, Commit)]);
      PhaseOf(d', t).Committed? && d'.lock.None? && d'.rows == Create(d.rows, calls[t])
  {
    var d := After(mode, calls, moves);
    var m1 := moves + [(t, Begin)];
    var m2 := m1 + [(t, Select)];
    var m3 := m2 + [(t, Write)];
    EveryRunIsSerial(mode, calls, moves);
    EveryRunNumbersAttempts(mode, calls, moves);
    StoredIff(d.rows, calls[t].key, MaxAttempt(d.rows, calls[t].key));
    assert d.pending == [];
    AfterOne(mode, calls, moves, t, Begin);
    AfterOne(mode, calls, m1, t, Select);
    AfterOne(mode, calls, m2, t, Write);
    AfterOne(mode, calls, m3, t, Commit);
    BeginsAndReads(mode, calls, d, t);
    hide Take, CanTake, MaxAttempt, Stored, Serial, Create, After;
    WritesAndCommits(mode, calls, After(mode, calls, m2), t);
  }

  lemma AfterOne(mode: Mode, calls: map<nat, Call>, moves: seq<Move>, t: nat, a: Action)
    ensures After(mode, calls, moves + [(t, a)])
      == if CanTake(After(mode, calls, moves), mode, calls, t, a)
         then Take(After(mode, calls, moves), mode, calls, t, a) else After(mode, calls, moves)
  {
    assert Front(moves + [(t, a)]) == moves;
  }
}
