/** Which run started the document work a run belongs to: ownership is followed through continuations
    and through the dependency attempts that spawned worker runs, on graphs that may be cyclic. */
module DocumentOrigin {
  import opened Text

  /** Run and dependency ids; the empty id stands for an absent one. */
  type Id = string

  datatype Run = Run(dependency: Id, resumes: Id)

  datatype Attempt = Attempt(run: Id, initiator: Id)

  /** Stored runs, and each dependency's attempts with the newest generation first. */
  datatype Graph = Graph(runs: map<Id, Run>, attempts: map<Id, seq<Attempt>>)

  // ---------- continuations ----------

  function Resumed(g: Graph, id: Id): Id {
    if id in g.runs then g.runs[id].resumes else ""
  }

  /** The run `n` continuations back; empty once the chain has ended. */
  function Back(g: Graph, id: Id, n: nat): Id
    decreases n
  {
    if n == 0 || id == "" then id else Back(g, Resumed(g, id), n - 1)
  }

  ghost predicate Ancestor(g: Graph, id: Id, x: Id) {
    x != "" && exists n: nat :: Back(g, id, n) == x
  }

  lemma {:induction false} BackStep(g: Graph, id: Id, n: nat)
    requires Back(g, id, n) != ""
    ensures Back(g, id, n + 1) == Resumed(g, Back(g, id, n))
    decreases n
  {
    if n > 0 {
      BackStep(g, Resumed(g, id), n - 1);
    }
  }

  /** A set closed under continuation holds all that is behind its members. */
  lemma {:induction false} ClosedHoldsAncestors(g: Graph, seen: set<Id>, id: Id, n: nat)
    requires id in seen || id == ""
    requires forall x :: x in seen ==> Resumed(g, x) in seen || Resumed(g, x) == ""
    ensures Back(g, id, n) in seen || Back(g, id, n) == ""
    decreases n
  {
    if n > 0 && id != "" {
      ClosedHoldsAncestors(g, seen, Resumed(g, id), n - 1);
    }
  }

  /** Stops on cycles and collects exactly the run and those it continues. */
  method RunAncestry(g: Graph, id: Id) returns (seen: set<Id>)
    ensures forall x :: x in seen <==> Ancestor(g, id, x)
  {
    seen := {};
    var current := id;
    ghost var n: nat := 0;
    while current != "" && current !in seen
      invariant Back(g, id, n) == current
      invariant forall x :: x in seen ==> Ancestor(g, id, x)
      invariant forall x :: x in seen ==> Resumed(g, x) in seen || Resumed(g, x) == current
      invariant n > 0 ==> id in seen
      decreases g.runs.Keys - seen, current != ""
    {
      BackStep(g, id, n);
      seen := seen + {current};
      current := Resumed(g, current);
      n := n + 1;
    }
    forall x | Ancestor(g, id, x)
      ensures x in seen
    {
      var k: nat :| Back(g, id, k) == x;
      ClosedHoldsAncestors(g, seen, id, k);
    }
  }

  // ---------- owners ----------

  /** Where a run's ownership leads next. */
  datatype Edge = Owner(id: Id) | Initiator | DeadEnd

  /** The newest attempt that the run, or a continuation of it, carries out. */
  ghost predicate Carries(g: Graph, attempts: seq<Attempt>, i: nat, id: Id) {
    && i < |attempts| && Ancestor(g, attempts[i].run, id)
    && forall j :: 0 <= j < i ==> !Ancestor(g, attempts[j].run, id)
  }

  function AttemptsOf(g: Graph, dependency: Id): seq<Attempt> {
    if dependency in g.attempts then g.attempts[dependency] else []
  }

  /** `edge` is where the ownership of `id` leads: to the initiator of a dependency attempt first, else
      to the resumed run, else nowhere: the run is then the document's own. */
  ghost predicate Leads(g: Graph, id: Id, edge: Edge) {
    if id == "" || id !in g.runs then edge == DeadEnd
    else if g.runs[id].dependency != "" then
      var attempts := AttemptsOf(g, g.runs[id].dependency);
      || (exists i: nat :: Carries(g, attempts, i, id) && edge == Owner(attempts[i].initiator))
      || (edge == DeadEnd && forall i: nat :: !Carries(g, attempts, i, id))
    else if g.runs[id].resumes != "" then edge == Owner(g.runs[id].resumes)
    else edge == Initiator
  }

  lemma LeadsOnce(g: Graph, id: Id, a: Edge, b: Edge)
    requires Leads(g, id, a) && Leads(g, id, b)
    ensures a == b
  {
  }

  /** `n` owner edges from `id` end in `x`. */
  ghost predicate Walk(g: Graph, id: Id, x: Id, n: nat)
    decreases n
  {
    if n == 0 then id == x else exists y :: Leads(g, id, Owner(y)) && Walk(g, y, x, n - 1)
  }

  /** Following owner edges from `id` ends in `x`, a run with no owner. */
  ghost predicate OwnedBy(g: Graph, id: Id, x: Id) {
    exists n: nat :: Walk(g, id, x, n) && Leads(g, x, Initiator)
  }

  lemma {:induction false} WalkStep(g: Graph, id: Id, x: Id, y: Id, n: nat)
    requires Walk(g, id, x, n) && Leads(g, x, Owner(y))
    ensures Walk(g, id, y, n + 1)
    decreases n
  {
    hide Leads;
    if n == 0 {
      assert Walk(g, y, y, 0);
    } else {
      var z :| Leads(g, id, Owner(z)) && Walk(g, z, x, n - 1);
      WalkStep(g, z, x, y, n - 1);
    }
  }

  /** Edges are unique, so two walks from one run share their beginning, and one that ends in an
      initiator is the longer. */
  lemma {:induction false} WalkSplits(g: Graph, id: Id, via: Id, k: nat, x: Id, n: nat)
    requires Walk(g, id, via, k) && Walk(g, id, x, n) && Leads(g, x, Initiator)
    ensures k <= n && Walk(g, via, x, n - k)
    decreases k
  {
    hide Leads;
    if k > 0 {
      var y :| Leads(g, id, Owner(y)) && Walk(g, y, via, k - 1);
      if n == 0 {
        LeadsOnce(g, id, Owner(y), Initiator);
      } else {
        var z :| Leads(g, id, Owner(z)) && Walk(g, z, x, n - 1);
        LeadsOnce(g, id, Owner(y), Owner(z));
        WalkSplits(g, y, via, k - 1, x, n - 1);
      }
    }
  }

  /** A run on an ownership cycle has no origin. */
  lemma {:induction false} CycleHasNoOrigin(g: Graph, id: Id, k: nat, x: Id, n: nat)
    requires k > 0 && Walk(g, id, id, k)
    ensures !(Walk(g, id, x, n) && Leads(g, x, Initiator))
    decreases n
  {
    hide Walk, Leads;
    if Walk(g, id, x, n) && Leads(g, x, Initiator) {
      WalkSplits(g, id, id, k, x, n);
      CycleHasNoOrigin(g, id, k, x, n - k);
    }
  }

  /** Every run on the way to the origin has that origin, and no other. */
  lemma SameOriginOnTheWay(g: Graph, id: Id, via: Id, k: nat, x: Id)
    requires Walk(g, id, via, k)
    ensures OwnedBy(g, id, x) <==> OwnedBy(g, via, x)
  {
    hide Walk, Leads;
    if OwnedBy(g, id, x) {
      var n: nat :| Walk(g, id, x, n) && Leads(g, x, Initiator);
      WalkSplits(g, id, via, k, x, n);
    }
    if OwnedBy(g, via, x) {
      var n: nat :| Walk(g, via, x, n) && Leads(g, x, Initiator);
      WalksJoin(g, id, via, k, x, n);
    }
  }

  lemma {:induction false} WalksJoin(g: Graph, id: Id, via: Id, k: nat, x: Id, n: nat)
    requires Walk(g, id, via, k) && Walk(g, via, x, n)
    ensures Walk(g, id, x, k + n)
    decreases k
  {
    hide Leads;
    if k > 0 {
      var y :| Leads(g, id, Owner(y)) && Walk(g, y, via, k - 1);
      WalksJoin(g, y, via, k - 1, x, n);
    }
  }

  lemma OriginIsUnique(g: Graph, id: Id, x: Id, y: Id)
    requires OwnedBy(g, id, x) && OwnedBy(g, id, y)
    ensures x == y
  {
    hide Leads;
    var n: nat :| Walk(g, id, x, n) && Leads(g, x, Initiator);
    var m: nat :| Walk(g, id, y, m) && Leads(g, y, Initiator);
    WalkSplits(g, id, x, n, y, m);
    WalkSplits(g, id, y, m, x, n);
  }

  /** The query's first match over the attempts, newest first. */
  method CarriedAttempt(g: Graph, attempts: seq<Attempt>, id: Id) returns (found: Option<Attempt>)
    ensures match found
      case Some(a) => exists i: nat :: Carries(g, attempts, i, id) && attempts[i] == a
      case None => forall i: nat :: !Carries(g, attempts, i, id)
  {
    var i: nat := 0;
    hide Ancestor;
    while i < |attempts|
      invariant i <= |attempts|
      invariant forall j :: 0 <= j < i ==> !Ancestor(g, attempts[j].run, id)
    {
      var ancestry := RunAncestry(g, attempts[i].run);
      if id in ancestry {
        assert Carries(g, attempts, i, id);
        return Some(attempts[i]);
      }
      i := i + 1;
    }
    found := None;
  }

  /** One look-up of a stored run: the edge its ownership takes. */
  method OwnerEdge(g: Graph, id: Id) returns (edge: Edge)
    ensures Leads(g, id, edge)
  {
    if id == "" || id !in g.runs {
      return DeadEnd;
    }
    var run := g.runs[id];
    if run.dependency != "" {
      var attempt := CarriedAttempt(g, AttemptsOf(g, run.dependency), id);
      hide Carries;
      return if attempt.Some? then Owner(attempt.value.initiator) else DeadEnd;
    }
    if run.resumes != "" {
      return Owner(run.resumes);
    }
    return Initiator;
  }

  /** Every visited run leads, in at least one step, to the present one. */
  ghost predicate Trail(g: Graph, seen: set<Id>, id: Id) {
    forall s :: s in seen ==> exists k: nat :: k > 0 && Walk(g, s, id, k)
  }

  lemma TrailGrows(g: Graph, seen: set<Id>, id: Id, next: Id)
    requires Trail(g, seen, id) && Leads(g, id, Owner(next))
    ensures Trail(g, seen + {id}, next)
  {
    hide Leads;
    forall s | s in seen + {id}
      ensures exists k: nat :: k > 0 && Walk(g, s, next, k)
    {
      if s in seen {
        var k: nat :| k > 0 && Walk(g, s, id, k);
        WalkStep(g, s, id, next, k);
      } else {
        assert Walk(g, next, next, 0);
        assert Walk(g, id, next, 1);
      }
    }
  }

  lemma NoOriginWithoutOwner(g: Graph, id: Id, x: Id)
    requires Leads(g, id, DeadEnd)
    ensures !OwnedBy(g, id, x)
  {
    hide Leads;
    if OwnedBy(g, id, x) {
      var n: nat :| Walk(g, id, x, n) && Leads(g, x, Initiator);
      if n == 0 {
        LeadsOnce(g, id, DeadEnd, Initiator);
      } else {
        var y :| Leads(g, id, Owner(y)) && Walk(g, y, x, n - 1);
        LeadsOnce(g, id, DeadEnd, Owner(y));
      }
    }
  }

  lemma NoOriginOnTrail(g: Graph, seen: set<Id>, id: Id, x: Id)
    requires Trail(g, seen, id) && id in seen
    ensures !OwnedBy(g, id, x)
  {
    hide Leads, Walk;
    var k: nat :| k > 0 && Walk(g, id, id, k);
    forall n: nat
      ensures !(Walk(g, id, x, n) && Leads(g, x, Initiator))
    {
      CycleHasNoOrigin(g, id, k, x, n);
    }
  }

  lemma InitiatorOwnsItself(g: Graph, id: Id)
    requires Leads(g, id, Initiator)
    ensures OwnedBy(g, id, id)
  {
    assert Walk(g, id, id, 0);
  }

  lemma OneEdge(g: Graph, id: Id, next: Id)
    requires Leads(g, id, Owner(next))
    ensures Walk(g, id, next, 1)
  {
    assert Walk(g, next, next, 0);
  }

  /** The origin is found on every finite graph, cyclic or not: a run is returned exactly if following
      owner edges ends in it. */
  method Origin(g: Graph, id: Id, seen: set<Id>) returns (r: Option<Id>)
    requires Trail(g, seen, id)
    ensures forall x :: r == Some(x) <==> OwnedBy(g, id, x)
    decreases g.runs.Keys - seen
  {
    hide Trail, OwnedBy, Walk;
    if id == "" || id in seen {
      forall x
        ensures !OwnedBy(g, id, x)
      {
        if id in seen {
          NoOriginOnTrail(g, seen, id, x);
        } else {
          NoOriginWithoutOwner(g, id, x);
        }
      }
      return None;
    }
    var edge := OwnerEdge(g, id);
    assert edge.Owner? ==> id in g.runs;
    hide Leads;
    match edge {
      case DeadEnd =>
        forall x
          ensures !OwnedBy(g, id, x)
        {
          NoOriginWithoutOwner(g, id, x);
        }
        r := None;
      case Initiator =>
        InitiatorOwnsItself(g, id);
        forall x | OwnedBy(g, id, x)
          ensures x == id
        {
          OriginIsUnique(g, id, x, id);
        }
        r := Some(id);
      case Owner(next) =>
        TrailGrows(g, seen, id, next);
        r := Origin(g, next, seen + {id});
        OneEdge(g, id, next);
        forall x
          ensures OwnedBy(g, id, x) <==> OwnedBy(g, next, x)
        {
          SameOriginOnTheWay(g, id, next, 1, x);
        }
    }
  }
}
