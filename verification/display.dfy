/** The Overleaf pane's stale-response protocol: requests carry the project, the generation and a
    per-surface sequence number, and a response is shown only if all three are still current. */
module DisplayRequests {

  datatype Request = Request(projectId: string, generation: nat, surface: string, sequence: nat)

  /** The module-level variables, and `url`, the project the page address names. */
  datatype Pane = Pane(
    url: string, project: string, generation: nat, revision: string, sequences: map<string, nat>, renaming: bool)

  function SequenceOf(p: Pane, surface: string): nat {
    if surface in p.sequences then p.sequences[surface] else 0
  }

  function Select(p: Pane, projectId: string): Pane {
    if p.project == projectId then p
    else p.(project := projectId, generation := p.generation + 1, revision := "", renaming := false)
  }

  function Bump(p: Pane, surface: string): Pane {
    p.(sequences := p.sequences[surface := SequenceOf(p, surface) + 1])
  }

  function Issued(p: Pane, surface: string): Pane {
    Bump(Select(p, p.url), surface)
  }

  /** The request handed out in state `p`. */
  function RequestIn(p: Pane, surface: string): Request {
    var q := Issued(p, surface);
    Request(p.url, q.generation, surface, SequenceOf(q, surface))
  }

  predicate Current(p: Pane, r: Request) {
    && r.projectId == p.url
    && r.projectId == p.project
    && r.generation == p.generation
    && r.sequence == SequenceOf(p, r.surface)
  }

  function MarkRenaming(p: Pane, projectId: string, invalidate: bool): Pane {
    if projectId != p.url then p
    else
      var q := Select(p, projectId);
      q.(generation := q.generation + (if !q.renaming || invalidate then 1 else 0), renaming := true)
  }

  /** A response whose namespace revision differs from the one on display. */
  predicate ShowsNewRevision(p: Pane, revision: string) {
    revision != "" && p.revision != "" && revision != p.revision
  }

  function Accepted(p: Pane, r: Request, revision: string): Pane {
    var q := if ShowsNewRevision(p, revision) then MarkRenaming(p, r.projectId, true) else p;
    if revision != "" then q.(revision := revision) else q
  }

  function Finished(p: Pane, projectId: string, namespaceChanged: bool): Pane {
    if projectId != p.url then p
    else
      var q := p.(generation := p.generation + 1);
      if namespaceChanged || q.renaming then MarkRenaming(q, projectId, false) else q
  }

  /** Everything that touches the variables: page navigation, visible targets, new requests,
      responses in any order, work admitted or the pane closed, rename marks and push events, and the
      answer to a namespace change asked for in the identity editor. */
  datatype Event =
    | Navigate(url: string)
    | TargetsVisible
    | Issue(surface: string)
    | Respond(request: Request, namespaceRevision: string)
    | Supersede(surface: string)
    | Rename(projectId: string, invalidate: bool)
    | RenameFinished(projectId: string, namespaceChanged: bool)
    | RenameSettled
    | IdentityAnswered

  function Step(p: Pane, e: Event): Pane {
    match e
    case Navigate(url) => p.(url := url)
    case TargetsVisible => Select(p, p.url)
    case Issue(surface) => Issued(p, surface)
    case Respond(r, revision) => if Current(p, r) then Accepted(p, r, revision) else p
    case Supersede(surface) => Bump(p, surface)
    case Rename(projectId, invalidate) => MarkRenaming(p, projectId, invalidate)
    case RenameFinished(projectId, changed) => Finished(p, projectId, changed)
    case RenameSettled => p.(renaming := false)
    case IdentityAnswered => p.(generation := p.generation + 1)
  }

  // ---------- the handlers ----------

  class DisplayPane {
    var url: string
    var displayProjectId: string
    var displayGeneration: nat
    var displayNamespaceRevision: string
    var displayRequests: map<string, nat>
    var projectRenaming: bool

    ghost function State(): Pane
      reads this
    {
      Pane(url, displayProjectId, displayGeneration, displayNamespaceRevision, displayRequests, projectRenaming)
    }

    constructor (url: string)
      ensures State() == Pane(url, "", 0, "", map[], false)
    {
      this.url := url;
      displayProjectId, displayGeneration, displayNamespaceRevision := "", 0, "";
      displayRequests, projectRenaming := map[], false;
    }

    method SelectDisplayProject(projectId: string)
      modifies this
      ensures State() == Select(old(State()), projectId)
      ensures displayProjectId == projectId && url == old(url) && displayRequests == old(displayRequests)
      ensures old(displayProjectId) == projectId ==> State() == old(State())
      ensures old(displayProjectId) != projectId ==>
        displayGeneration == old(displayGeneration) + 1 && displayNamespaceRevision == "" && !projectRenaming
    {
      if displayProjectId == projectId {
        return;
      }
      displayProjectId := projectId;
      displayGeneration := displayGeneration + 1;
      displayNamespaceRevision := "";
      projectRenaming := false;
    }

    method BumpSurface(surface: string)
      modifies this
      ensures State() == Bump(old(State()), surface)
    {
      var sequence := if surface in displayRequests then displayRequests[surface] else 0;
      displayRequests := displayRequests[surface := sequence + 1];
    }

    method DisplayRequest(surface: string) returns (request: Request)
      modifies this
      ensures State() == Issued(old(State()), surface) && request == RequestIn(old(State()), surface)
      ensures request.projectId == displayProjectId == url && request.generation == displayGeneration
      ensures request.surface == surface && surface in displayRequests && request.sequence == displayRequests[surface]
      ensures request.sequence == (if surface in old(displayRequests) then old(displayRequests)[surface] else 0) + 1
      ensures displayRequests == old(displayRequests)[surface := request.sequence]
    {
      var projectId := url;
      SelectDisplayProject(projectId);
      var sequence := (if surface in displayRequests then displayRequests[surface] else 0) + 1;
      displayRequests := displayRequests[surface := sequence];
      request := Request(projectId, displayGeneration, surface, sequence);
    }

    method MarkProjectRenaming(projectId: string, invalidate: bool)
      modifies this
      ensures State() == MarkRenaming(old(State()), projectId, invalidate)
      ensures projectId != url ==> State() == old(State())
      ensures projectId == url ==> projectRenaming && displayProjectId == projectId
      ensures projectId == url ==> (displayGeneration == old(displayGeneration) <==>
        old(displayProjectId) == projectId && old(projectRenaming) && !invalidate)
    {
      if projectId != url {
        return;
      }
      SelectDisplayProject(projectId);
      if !projectRenaming || invalidate {
        displayGeneration := displayGeneration + 1;
      }
      projectRenaming := true;
    }

    method AcceptDisplayResponse(request: Request, revision: string) returns (accepted: bool)
      modifies this
      ensures accepted <==>
        && request.projectId == old(url) == old(displayProjectId) && request.generation == old(displayGeneration)
        && request.sequence
           == (if request.surface in old(displayRequests) then old(displayRequests)[request.surface] else 0)
      ensures State() == Step(old(State()), Respond(request, revision))
      ensures !accepted || revision == "" ==> State() == old(State())
      ensures accepted && revision != "" ==> displayNamespaceRevision == revision
      ensures accepted && (revision == "" || old(displayNamespaceRevision) in ["", revision]) ==>
        displayGeneration == old(displayGeneration) && projectRenaming == old(projectRenaming)
      ensures accepted && revision != "" && old(displayNamespaceRevision) !in ["", revision] ==>
        displayGeneration == old(displayGeneration) + 1 && projectRenaming
    {
      var current := if request.surface in displayRequests then displayRequests[request.surface] else 0;
      if !(request.projectId == url && request.projectId == displayProjectId
           && request.generation == displayGeneration && request.sequence == current) {
        return false;
      }
      if revision != "" && displayNamespaceRevision != "" && revision != displayNamespaceRevision {
        MarkProjectRenaming(request.projectId, true);
      }
      if revision != "" {
        displayNamespaceRevision := revision;
      }
      return true;
    }

    method RenameFinishedPush(projectId: string, namespaceChanged: bool)
      modifies this
      ensures State() == Finished(old(State()), projectId, namespaceChanged)
      ensures projectId != url ==> State() == old(State())
      ensures projectId == url ==> displayGeneration > old(displayGeneration)
      ensures projectId == url && !namespaceChanged && !old(projectRenaming) ==>
        !projectRenaming && displayProjectId == old(displayProjectId)
      ensures projectId == url && (namespaceChanged || old(projectRenaming)) ==>
        projectRenaming && displayProjectId == projectId
    {
      if projectId != url {
        return;
      }
      displayGeneration := displayGeneration + 1;
      if namespaceChanged || projectRenaming {
        MarkProjectRenaming(projectId, false);
      }
    }

    /** The editor's namespace change has succeeded or failed; the page may meanwhile show another project. */
    method IdentityAnswer()
      modifies this
      ensures State() == Step(old(State()), IdentityAnswered)
    {
      displayGeneration := displayGeneration + 1;
    }
  }

  // ---------- every delivery order ----------

  function StateAt(p: Pane, trace: seq<Event>, n: nat): Pane
    requires n <= |trace|
  {
    if n == 0 then p else Step(StateAt(p, trace, n - 1), trace[n - 1])
  }

  /** The request issued at position `i` of a trace. */
  function RequestAt(p: Pane, trace: seq<Event>, i: nat): Request
    requires i < |trace| && trace[i].Issue?
  {
    RequestIn(StateAt(p, trace, i), trace[i].surface)
  }

  /** The response delivered at position `j` is shown. */
  predicate Shown(p: Pane, trace: seq<Event>, j: nat)
    requires j < |trace|
  {
    trace[j].Respond? && Current(StateAt(p, trace, j), trace[j].request)
  }

  /** Nothing ever goes back, and while the generation stands the project stands. */
  lemma StepIsMonotone(p: Pane, e: Event, surface: string)
    ensures p.generation <= Step(p, e).generation
    ensures SequenceOf(p, surface) <= SequenceOf(Step(p, e), surface)
    ensures Step(p, e).generation == p.generation ==> Step(p, e).project == p.project
  {
  }

  lemma {:induction false} RunIsMonotone(p: Pane, trace: seq<Event>, i: nat, j: nat, surface: string)
    requires i <= j <= |trace|
    ensures StateAt(p, trace, i).generation <= StateAt(p, trace, j).generation
    ensures SequenceOf(StateAt(p, trace, i), surface) <= SequenceOf(StateAt(p, trace, j), surface)
    ensures StateAt(p, trace, i).generation == StateAt(p, trace, j).generation ==>
      StateAt(p, trace, i).project == StateAt(p, trace, j).project
    decreases j
  {
    if i < j {
      RunIsMonotone(p, trace, i, j - 1, surface);
      StepIsMonotone(StateAt(p, trace, j - 1), trace[j - 1], surface);
    }
  }

  /** The event makes every request of the surface issued so far stale. */
  predicate Invalidates(p: Pane, e: Event, surface: string) {
    Step(p, e).generation > p.generation || SequenceOf(Step(p, e), surface) > SequenceOf(p, surface)
  }

  /** Exactly these events invalidate. */
  lemma InvalidatesIff(p: Pane, e: Event, surface: string)
    ensures Invalidates(p, e, surface) <==>
      match e
      case Navigate(_) => false
      case TargetsVisible => p.project != p.url
      case Issue(s) => s == surface || p.project != p.url
      case Respond(r, revision) => Current(p, r) && revision != "" && p.revision != "" && revision != p.revision
      case Supersede(s) => s == surface
      case Rename(id, invalidate) => id == p.url && (invalidate || !p.renaming || p.project != p.url)
      case RenameFinished(id, _) => id == p.url
      case RenameSettled => false
      case IdentityAnswered => true
  {
  }

  lemma {:induction false} StaleForever(p: Pane, trace: seq<Event>, i: nat, k: nat, j: nat)
    requires i < k < j <= |trace| && trace[i].Issue?
    requires Invalidates(StateAt(p, trace, k), trace[k], trace[i].surface)
    ensures !Current(StateAt(p, trace, j), RequestAt(p, trace, i))
  {
    var surface := trace[i].surface;
    RunIsMonotone(p, trace, i + 1, k, surface);
    RunIsMonotone(p, trace, k + 1, j, surface);
  }

  lemma {:induction false} FreshWhileUntouched(p: Pane, trace: seq<Event>, i: nat, j: nat)
    requires i < j <= |trace| && trace[i].Issue?
    requires forall k :: i < k < j ==> !Invalidates(StateAt(p, trace, k), trace[k], trace[i].surface)
    ensures var q, r := StateAt(p, trace, j), RequestAt(p, trace, i);
      q.generation == r.generation && q.project == r.projectId && SequenceOf(q, r.surface) == r.sequence
    decreases j
  {
    if j > i + 1 {
      FreshWhileUntouched(p, trace, i, j - 1);
      StepIsMonotone(StateAt(p, trace, j - 1), trace[j - 1], trace[i].surface);
    }
  }

  /** In every trace, a request is current exactly while the page still names its project and nothing
      that happened since it was issued invalidates its surface. */
  lemma CurrentIffUntouched(p: Pane, trace: seq<Event>, i: nat, j: nat)
    requires i < j <= |trace| && trace[i].Issue?
    ensures Current(StateAt(p, trace, j), RequestAt(p, trace, i)) <==>
      && StateAt(p, trace, j).url == RequestAt(p, trace, i).projectId
      && forall k :: i < k < j ==> !Invalidates(StateAt(p, trace, k), trace[k], trace[i].surface)
  {
    if k :| i < k < j && Invalidates(StateAt(p, trace, k), trace[k], trace[i].surface) {
      StaleForever(p, trace, i, k, j);
    } else {
      FreshWhileUntouched(p, trace, i, j);
    }
  }

  /** After a response showing a new namespace revision is accepted, no request issued earlier, on
      any surface, is ever shown. */
  lemma NewRevisionSilencesOlderRequests(p: Pane, trace: seq<Event>, i: nat, k: nat, j: nat)
    requires i < k < j < |trace| && trace[i].Issue?
    requires Shown(p, trace, k)
    requires trace[k].namespaceRevision != "" && StateAt(p, trace, k).revision !in ["", trace[k].namespaceRevision]
    requires trace[j].Respond? && trace[j].request == RequestAt(p, trace, i)
    ensures !Shown(p, trace, j)
  {
    InvalidatesIff(StateAt(p, trace, k), trace[k], trace[i].surface);
    StaleForever(p, trace, i, k, j);
  }

  /** On one surface, an older request is never shown once a newer one is issued. */
  lemma NewerRequestWins(p: Pane, trace: seq<Event>, i: nat, k: nat, j: nat)
    requires i < k < j < |trace| && trace[i].Issue? && trace[k] == Issue(trace[i].surface)
    requires trace[j].Respond? && trace[j].request == RequestAt(p, trace, i)
    ensures !Shown(p, trace, j)
  {
    InvalidatesIff(StateAt(p, trace, k), trace[k], trace[i].surface);
    StaleForever(p, trace, i, k, j);
  }

  /** Once another project has been selected, coming back revives no old request. */
  lemma ReturningRevivesNothing(p: Pane, trace: seq<Event>, i: nat, m: nat, j: nat)
    requires i < m < j < |trace| && trace[i].Issue?
    requires StateAt(p, trace, m).project != RequestAt(p, trace, i).projectId
    requires trace[j].Respond? && trace[j].request == RequestAt(p, trace, i)
    ensures !Shown(p, trace, j)
  {
    if forall k :: i < k < m ==> !Invalidates(StateAt(p, trace, k), trace[k], trace[i].surface) {
      FreshWhileUntouched(p, trace, i, m);
    } else {
      var k :| i < k < m && Invalidates(StateAt(p, trace, k), trace[k], trace[i].surface);
      StaleForever(p, trace, i, k, j);
    }
  }

  // ---------- what is on display ----------

  predicate MovesProject(p: Pane, trace: seq<Event>, k: nat)
    requires k < |trace|
  {
    StateAt(p, trace, k + 1).project != StateAt(p, trace, k).project
  }

  /** A response that names this revision is shown at position `i`. */
  predicate ShowsRevision(p: Pane, trace: seq<Event>, i: nat, revision: string)
    requires i < |trace|
  {
    Shown(p, trace, i) && trace[i].namespaceRevision == revision
  }

  lemma RevisionStep(p: Pane, e: Event)
    ensures Step(p, e).revision ==
      if e.Respond? && Current(p, e.request) && e.namespaceRevision != "" then e.namespaceRevision
      else if Step(p, e).project != p.project then ""
      else p.revision
  {
  }

  /** The event shows no revision and leaves the project selected. */
  predicate KeepsRevision(p: Pane, trace: seq<Event>, k: nat)
    requires k < |trace|
  {
    !MovesProject(p, trace, k) && (Shown(p, trace, k) ==> trace[k].namespaceRevision == "")
  }

  ghost predicate LastShown(p: Pane, trace: seq<Event>, i: nat, j: nat, revision: string)
    requires j <= |trace|
  {
    i < j && ShowsRevision(p, trace, i, revision) && forall k: nat :: i < k < j ==> KeepsRevision(p, trace, k)
  }

  lemma ShownKeepsProject(p: Pane, trace: seq<Event>, k: nat)
    requires k < |trace|
    ensures Shown(p, trace, k) ==> !MovesProject(p, trace, k)
  {
  }

  /** The revision on display is the last one that was shown, and none since another project was selected. */
  lemma {:induction false} RevisionIsLastShown(p: Pane, trace: seq<Event>, j: nat, revision: string)
    requires j <= |trace| && p.revision == "" && revision != ""
    ensures StateAt(p, trace, j).revision == revision <==> exists i: nat :: LastShown(p, trace, i, j, revision)
    decreases j
  {
    if j > 0 {
      RevisionIsLastShown(p, trace, j - 1, revision);
      RevisionStep(StateAt(p, trace, j - 1), trace[j - 1]);
      ShownKeepsProject(p, trace, j - 1);
      hide Step, Current;
      forall i: nat
        ensures LastShown(p, trace, i, j, revision) <==>
          if i == j - 1 then ShowsRevision(p, trace, i, revision)
          else LastShown(p, trace, i, j - 1, revision) && KeepsRevision(p, trace, j - 1)
      {
      }
      assert LastShown(p, trace, j - 1, j, revision) <==> ShowsRevision(p, trace, j - 1, revision);
    }
  }

  /** The event marks the page's project as being renamed. */
  predicate Marks(p: Pane, e: Event) {
    match e
    case Rename(id, _) => id == p.url
    case Respond(r, revision) => Current(p, r) && revision != "" && p.revision !in ["", revision]
    case RenameFinished(id, changed) => id == p.url && (changed || p.renaming)
    case _ => false
  }

  predicate MarksAt(p: Pane, trace: seq<Event>, i: nat)
    requires i < |trace|
  {
    Marks(StateAt(p, trace, i), trace[i])
  }

  lemma RenamingStep(p: Pane, e: Event)
    ensures Step(p, e).renaming <==>
      Marks(p, e) || (p.renaming && !e.RenameSettled? && Step(p, e).project == p.project)
  {
  }

  predicate KeepsMark(p: Pane, trace: seq<Event>, k: nat)
    requires k < |trace|
  {
    !trace[k].RenameSettled? && !MovesProject(p, trace, k)
  }

  ghost predicate MarkedSince(p: Pane, trace: seq<Event>, i: nat, j: nat)
    requires j <= |trace|
  {
    i < j && MarksAt(p, trace, i) && forall k: nat :: i < k < j ==> KeepsMark(p, trace, k)
  }

  /** The rename notice stands from the last mark on until the rename is settled or another project selected. */
  lemma {:induction false} RenamingSinceMark(p: Pane, trace: seq<Event>, j: nat)
    requires j <= |trace| && !p.renaming
    ensures StateAt(p, trace, j).renaming <==> exists i: nat :: MarkedSince(p, trace, i, j)
    decreases j
  {
    if j > 0 {
      RenamingSinceMark(p, trace, j - 1);
      RenamingStep(StateAt(p, trace, j - 1), trace[j - 1]);
      hide Step, Marks;
      forall i: nat
        ensures MarkedSince(p, trace, i, j) <==>
          if i == j - 1 then MarksAt(p, trace, i)
          else MarkedSince(p, trace, i, j - 1) && KeepsMark(p, trace, j - 1)
      {
      }
      assert MarkedSince(p, trace, j - 1, j) <==> MarksAt(p, trace, j - 1);
    }
  }
}
