/** Human review decisions: an append-only log of approvals and withdrawals, idempotency keys,
    and the revision token that decides whether an approval still holds.  Hashes are injective,
    so a token is the record it hashes and a request digest is the request without its source
    reference.  Event ids are log positions. */
module Reviews {
  import opened Text

  datatype Outcome = Proved | Defined | Disproved
  datatype Action = Approve | Withdraw

  /** A file under review: what was checked, and the ids under which it is stored. */
  datatype Binding = Binding(path: string, blobId: string, sha256: string, evidenceId: string, environment: string)

  datatype FileInput = FileInput(path: string, sha256: string, environment: string)

  datatype Token = Token(
    formalization: string, runId: Option<string>, attemptId: Option<string>, sourceHash: string,
    declaration: string, kind: string, candidatePath: string, files: seq<FileInput>)

  /** The current state of one target.  `blocked` stands for the checks before the token. */
  datatype Context = Context(
    runId: Option<string>, attemptId: Option<string>, sourceHash: string, declaration: string,
    kind: string, candidatePath: string, bindings: seq<Binding>, outcomes: seq<Outcome>,
    blocked: Option<string>, reviewRun: bool, active: bool)

  datatype Event = Event(
    id: nat, formalization: string, action: Action, outcome: Option<Outcome>, token: Token,
    sourceHash: string, declaration: string, candidatePath: string, evidence: seq<Binding>,
    approvalId: Option<nat>, key: string, digest: Request)

  datatype Request = Request(
    action: Action, key: string, token: Option<Token>, outcome: Option<Outcome>,
    approvalId: Option<nat>, sourceRef: Option<string>)

  datatype Store = Store(events: seq<Event>, requests: map<(string, string), (Request, nat)>)

  const EMPTY := Store([], map[])

  // ---------- project ----------

  datatype Verdict = NoVerdict | Blocked(reason: string) | ApprovedAs(outcome: Outcome) | NeedsReview

  datatype Review = Review(
    eligible: bool, token: Option<Token>, allowed: seq<Outcome>, approval: Option<Event>,
    evidence: seq<Binding>, verdict: Verdict)

  function Inputs(bindings: seq<Binding>): (r: seq<FileInput>)
    ensures |r| == |bindings|
  {
    seq(|bindings|, i requires 0 <= i < |bindings| =>
      FileInput(bindings[i].path, bindings[i].sha256, bindings[i].environment))
  }

  function TokenOf(fid: string, c: Context): Token {
    Token(fid, c.runId, c.attemptId, c.sourceHash, c.declaration, c.kind, c.candidatePath, Inputs(c.bindings))
  }

  predicate Concerns(events: seq<Event>, fid: string) {
    exists i | 0 <= i < |events| :: events[i].formalization == fid
  }

  predicate Withdrawn(events: seq<Event>, fid: string, id: nat) {
    exists i | 0 <= i < |events| ::
      events[i].formalization == fid && events[i].action == Withdraw && events[i].approvalId == Some(id)
  }

  /** An approval of this revision that nothing in the log withdraws. */
  predicate Live(log: seq<Event>, e: Event, fid: string, token: Token) {
    e.formalization == fid && e.action == Approve && e.token == token && !Withdrawn(log, fid, e.id)
  }

  /** The newest live approval among the first events of the log. */
  function LatestLive(log: seq<Event>, fid: string, token: Token, upTo: nat): Option<Event>
    requires upTo <= |log|
  {
    if upTo == 0 then None
    else if Live(log, log[upTo - 1], fid, token) then Some(log[upTo - 1])
    else LatestLive(log, fid, token, upTo - 1)
  }

  function Project(fid: string, c: Context, log: seq<Event>): Review {
    if !c.reviewRun && !Concerns(log, fid) then Review(false, None, [], None, [], NoVerdict)
    else if c.blocked.Some? then Review(false, None, [], None, [], Blocked(c.blocked.value))
    else
      var token := TokenOf(fid, c);
      var approval := LatestLive(log, fid, token, |log|);
      if c.active then
        Review(false, Some(token), c.outcomes, None, c.bindings,
               if approval.Some? || c.reviewRun then NeedsReview else NoVerdict)
      else if approval.Some? then
        Review(false, Some(token), c.outcomes, approval, c.bindings,
               if approval.value.outcome.Some? then ApprovedAs(approval.value.outcome.value) else NoVerdict)
      else Review(c.reviewRun, Some(token), c.outcomes, None, c.bindings,
                  if c.reviewRun then NeedsReview else NoVerdict)
  }

  // ---------- decide ----------

  datatype Error =
    | KeyReused | TargetBusy | TokenRequired | SourceRequired | SourceStale | OutcomeUnsupported
    | InputsChanged | OtherOutcomeApproved | NotEligible | ApprovalIdRequired | ApprovalNotFound

  datatype Response = Decided(event: Event) | Rejected(error: Error)

  /** What a call finds: the target's state, whether it comes from Overleaf, whether the given
      source reference resolves, and whether no operation is running. */
  datatype Situation = Situation(context: Context, overleaf: bool, sourceResolves: bool, idle: bool)

  function Digest(r: Request): Request {
    r.(sourceRef := None)
  }

  function Find(log: seq<Event>, id: nat): Option<Event> {
    if id < |log| && log[id].id == id then Some(log[id]) else None
  }

  /** The first withdrawal of an approval. */
  function FindWithdrawal(log: seq<Event>, id: nat): Option<Event> {
    if log == [] then None
    else if log[0].action == Withdraw && log[0].approvalId == Some(id) then Some(log[0])
    else FindWithdrawal(log[1..], id)
  }

  /** Binds the key to an event already in the log. */
  function Bind(s: Store, fid: string, r: Request, e: Event): (Store, Response) {
    (s.(requests := s.requests[(fid, r.key) := (Digest(r), e.id)]), Decided(e))
  }

  /** Appends an event and binds the key to it. */
  function Record(s: Store, fid: string, r: Request, e: Event): (Store, Response) {
    Bind(s.(events := s.events + [e]), fid, r, e)
  }

  function ApproveCheck(r: Request, w: Situation, review: Review): Option<Error> {
    if r.token.None? then Some(TokenRequired)
    else if w.overleaf && r.sourceRef.None? then Some(SourceRequired)
    else if w.overleaf && !w.sourceResolves then Some(SourceStale)
    else if r.outcome.None? then Some(OutcomeUnsupported)
    else if r.token != review.token then Some(InputsChanged)
    else if review.allowed != [] && r.outcome.value !in review.allowed then Some(OutcomeUnsupported)
    else if review.approval.Some? then
      if review.approval.value.outcome != r.outcome then Some(OtherOutcomeApproved) else None
    else if !review.eligible then Some(NotEligible)
    else if r.outcome.value !in review.allowed then Some(OutcomeUnsupported)
    else None
  }

  function ApproveEvent(s: Store, fid: string, r: Request, c: Context): Event {
    Event(|s.events|, fid, Approve, r.outcome, TokenOf(fid, c), c.sourceHash, c.declaration, c.candidatePath,
          c.bindings, None, r.key, Digest(r))
  }

  function WithdrawEvent(s: Store, fid: string, r: Request, e: Event): Event {
    e.(id := |s.events|, action := Withdraw, outcome := None, approvalId := Some(e.id), key := r.key,
       digest := Digest(r))
  }

  function Approving(s: Store, fid: string, r: Request, w: Situation): (Store, Response) {
    var review := Project(fid, w.context, s.events);
    var error := ApproveCheck(r, w, review);
    if error.Some? then (s, Rejected(error.value))
    else if review.approval.Some? then Bind(s, fid, r, review.approval.value)
    else Record(s, fid, r, ApproveEvent(s, fid, r, w.context))
  }

  function Withdrawing(s: Store, fid: string, r: Request): (Store, Response) {
    if r.approvalId.None? then (s, Rejected(ApprovalIdRequired))
    else
      var previous := Find(s.events, r.approvalId.value);
      if previous.None? || previous.value.formalization != fid || previous.value.action != Approve
      then (s, Rejected(ApprovalNotFound))
      else
        var already := FindWithdrawal(s.events, previous.value.id);
        if already.Some? then Bind(s, fid, r, already.value)
        else Record(s, fid, r, WithdrawEvent(s, fid, r, previous.value))
  }

  function Decide(s: Store, fid: string, r: Request, w: Situation): (Store, Response) {
    if (fid, r.key) in s.requests && Find(s.events, s.requests[(fid, r.key)].1).Some? then
      var (digest, id) := s.requests[(fid, r.key)];
      (s, if digest != Digest(r) then Rejected(KeyReused) else Decided(Find(s.events, id).value))
    else if !w.idle then (s, Rejected(TargetBusy))
    else if r.action == Approve then Approving(s, fid, r, w)
    else Withdrawing(s, fid, r)
  }

  /** The newest live approval, found by scanning back from the end. */
  method CurrentApproval(events: seq<Event>, fid: string, token: Token) returns (approval: Option<Event>)
    ensures approval == LatestLive(events, fid, token, |events|)
  {
    var i: nat := |events|;
    while i > 0
      invariant i <= |events|
      invariant LatestLive(events, fid, token, |events|) == LatestLive(events, fid, token, i)
    {
      if Live(events, events[i - 1], fid, token) {
        return Some(events[i - 1]);
      }
      i := i - 1;
    }
    return None;
  }

  /** The projection's own steps. */
  method ProjectReview(events: seq<Event>, fid: string, c: Context) returns (review: Review)
    ensures review == Project(fid, c, events)
  {
    review := Review(false, None, [], None, [], NoVerdict);
    if !c.reviewRun && !Concerns(events, fid) {
      return;
    }
    if c.blocked.Some? {
      return review.(verdict := Blocked(c.blocked.value));
    }
    var token := TokenOf(fid, c);
    var approval := CurrentApproval(events, fid, token);
    review := review.(token := Some(token), allowed := c.outcomes, evidence := c.bindings);
    if approval.Some? {
      review := review.(approval := approval,
        verdict := if approval.value.outcome.Some? then ApprovedAs(approval.value.outcome.value) else NoVerdict);
    } else if c.reviewRun {
      review := review.(verdict := NeedsReview, eligible := !c.active);
    }
    if c.active {
      review := review.(eligible := false);
      if approval.Some? {
        review := review.(approval := None, verdict := NeedsReview);
      }
    }
  }

  /** The two tables, updated in place under the write transaction. */
  class ReviewLog {
    var events: seq<Event>
    var requests: map<(string, string), (Request, nat)>

    ghost function Contents(): Store
      reads this
    {
      Store(events, requests)
    }

    constructor ()
      ensures Contents() == EMPTY
    {
      events, requests := [], map[];
    }

    method DecideRequest(fid: string, r: Request, w: Situation) returns (response: Response)
      modifies this
      ensures (Contents(), response) == Decide(old(Contents()), fid, r, w)
    {
      if (fid, r.key) in requests {
        var (digest, id) := requests[(fid, r.key)];
        var duplicate := Find(events, id);
        if duplicate.Some? {
          if digest != Digest(r) {
            return Rejected(KeyReused);
          }
          return Decided(duplicate.value);
        }
      }
      if !w.idle {
        return Rejected(TargetBusy);
      }
      var event: Event;
      if r.action == Approve {
        var review := ProjectReview(events, fid, w.context);
        var error := ApproveCheck(r, w, review);
        if error.Some? {
          return Rejected(error.value);
        }
        if review.approval.Some? {
          requests := requests[(fid, r.key) := (Digest(r), review.approval.value.id)];
          return Decided(review.approval.value);
        }
        event := ApproveEvent(Store(events, requests), fid, r, w.context);
      } else {
        if r.approvalId.None? {
          return Rejected(ApprovalIdRequired);
        }
        var previous := Find(events, r.approvalId.value);
        if previous.None? || previous.value.formalization != fid || previous.value.action != Approve {
          return Rejected(ApprovalNotFound);
        }
        var already := FindWithdrawal(events, previous.value.id);
        if already.Some? {
          requests := requests[(fid, r.key) := (Digest(r), already.value.id)];
          return Decided(already.value);
        }
        event := WithdrawEvent(Store(events, requests), fid, r, previous.value);
      }
      events := events + [event];
      requests := requests[(fid, r.key) := (Digest(r), event.id)];
      return Decided(event);
    }
  }

  // ---------- runs ----------

  datatype Call = Call(fid: string, request: Request, situation: Situation)

  function After(s: Store, calls: seq<Call>): Store
    decreases |calls|
  {
    if calls == [] then s
    else After(Decide(s, calls[0].fid, calls[0].request, calls[0].situation).0, calls[1..])
  }

  // ---------- the invariant ----------

  predicate IsWithdrawalOf(e: Event, a: Event) {
    e.action == Withdraw && e.approvalId == Some(a.id) && e.formalization == a.formalization && e.token == a.token
  }

  /** Ids are positions, and a withdrawal points back at an approval of the same revision. */
  ghost predicate WellFormed(log: seq<Event>) {
    forall i :: 0 <= i < |log| ==>
      && log[i].id == i
      && (log[i].action == Approve ==>
          && log[i].approvalId == None && log[i].outcome.Some?
          && log[i].token.formalization == log[i].formalization
          && log[i].token.sourceHash == log[i].sourceHash
          && log[i].token.declaration == log[i].declaration
          && log[i].token.candidatePath == log[i].candidatePath
          && log[i].token.files == Inputs(log[i].evidence))
      && (log[i].action == Withdraw ==>
          && log[i].outcome == None
          && log[i].approvalId.Some? && log[i].approvalId.value < i
          && log[log[i].approvalId.value].action == Approve
          && IsWithdrawalOf(log[i], log[log[i].approvalId.value]))
  }

  /** No approval is withdrawn twice. */
  ghost predicate WithdrawnOnce(log: seq<Event>) {
    forall i, j :: 0 <= i < j < |log| && log[i].action == Withdraw && log[j].action == Withdraw ==>
      log[i].approvalId != log[j].approvalId
  }

  /** Some event strictly between positions `i` and `j` withdraws approval `i`. */
  ghost predicate WithdrawnBetween(log: seq<Event>, i: nat, j: nat) {
    exists k :: i < k < j < |log| && IsWithdrawalOf(log[k], log[i])
  }

  predicate SameRevision(a: Event, b: Event) {
    a.action == Approve && b.action == Approve && a.formalization == b.formalization && a.token == b.token
  }

  /** A revision is approved again only after its earlier approval was withdrawn. */
  ghost predicate OneLiveAtATime(log: seq<Event>) {
    forall i, j | 0 <= i < j < |log| && SameRevision(log[i], log[j]) :: WithdrawnBetween(log, i, j)
  }

  /** Every event's key is bound, and every bound key belongs to an event of its formalization. */
  ghost predicate KeysBound(s: Store) {
    && (forall i :: 0 <= i < |s.events| ==>
          (s.events[i].formalization, s.events[i].key) in s.requests
          && s.requests[(s.events[i].formalization, s.events[i].key)] == (s.events[i].digest, i))
    && (forall q :: q in s.requests ==>
          s.requests[q].1 < |s.events| && s.events[s.requests[q].1].formalization == q.0
          && s.requests[q].0.key == q.1)
  }

  ghost predicate Inv(s: Store) {
    WellFormed(s.events) && WithdrawnOnce(s.events) && OneLiveAtATime(s.events) && KeysBound(s)
  }

  lemma {:induction false} LatestLiveFinds(log: seq<Event>, fid: string, token: Token, upTo: nat)
    requires upTo <= |log|
    ensures LatestLive(log, fid, token, upTo).Some? ==>
      exists i :: 0 <= i < upTo && log[i] == LatestLive(log, fid, token, upTo).value && Live(log, log[i], fid, token)
    ensures LatestLive(log, fid, token, upTo).None? ==> forall i :: 0 <= i < upTo ==> !Live(log, log[i], fid, token)
  {
    if upTo > 0 && !Live(log, log[upTo - 1], fid, token) {
      LatestLiveFinds(log, fid, token, upTo - 1);
    }
  }

  lemma {:induction false} FindWithdrawalFinds(log: seq<Event>, id: nat)
    ensures FindWithdrawal(log, id).Some? ==>
      exists i :: 0 <= i < |log| && log[i] == FindWithdrawal(log, id).value
        && log[i].action == Withdraw && log[i].approvalId == Some(id)
    ensures FindWithdrawal(log, id).None? ==>
      forall i :: 0 <= i < |log| && log[i].action == Withdraw ==> log[i].approvalId != Some(id)
  {
    if log != [] && !(log[0].action == Withdraw && log[0].approvalId == Some(id)) {
      FindWithdrawalFinds(log[1..], id);
      if FindWithdrawal(log[1..], id).Some? {
        var i :| 0 <= i < |log[1..]| && log[1..][i] == FindWithdrawal(log[1..], id).value
          && log[1..][i].action == Withdraw && log[1..][i].approvalId == Some(id);
        assert log[i + 1] == log[1..][i];
      } else {
        assert forall i :: 1 <= i < |log| ==> log[i] == log[1..][i - 1];
      }
    }
  }

  /** A withdrawn approval was withdrawn before the end of the log, after it was made. */
  lemma WithdrawnBefore(log: seq<Event>, fid: string, token: Token, i: nat)
    requires WellFormed(log) && i < |log| && log[i].action == Approve
    requires log[i].formalization == fid && log[i].token == token && !Live(log, log[i], fid, token)
    ensures exists k :: i < k < |log| && IsWithdrawalOf(log[k], log[i])
  {
    var k :| 0 <= k < |log| && log[k].formalization == fid && log[k].action == Withdraw
      && log[k].approvalId == Some(log[i].id);
    assert IsWithdrawalOf(log[k], log[log[k].approvalId.value]);
  }

  lemma BetweenGrows(log: seq<Event>, e: Event, i: nat, j: nat)
    requires WithdrawnBetween(log, i, j)
    ensures WithdrawnBetween(log + [e], i, j)
  {
    var k :| i < k < j < |log| && IsWithdrawalOf(log[k], log[i]);
    var log' := log + [e];
    assert log'[k] == log[k] && log'[i] == log[i];
  }

  /** Appending keeps the log in order when the event is a fresh approval or a first withdrawal. */
  lemma AppendApproval(log: seq<Event>, e: Event)
    requires WellFormed(log) && WithdrawnOnce(log) && OneLiveAtATime(log)
    requires e.action == Approve && WellFormed(log + [e])
    requires forall i :: 0 <= i < |log| ==> !Live(log, log[i], e.formalization, e.token)
    ensures WithdrawnOnce(log + [e]) && OneLiveAtATime(log + [e])
  {
    var log' := log + [e];
    forall i, j | 0 <= i < j < |log'| && SameRevision(log'[i], log'[j])
      ensures WithdrawnBetween(log', i, j)
    {
      if j < |log| {
        assert WithdrawnBetween(log, i, j);
        BetweenGrows(log, e, i, j);
      } else {
        assert log'[i] == log[i];
        WithdrawnBefore(log, e.formalization, e.token, i);
        var k :| i < k < |log| && IsWithdrawalOf(log[k], log[i]);
        assert IsWithdrawalOf(log'[k], log'[i]);
      }
    }
  }

  lemma AppendWithdrawal(log: seq<Event>, e: Event)
    requires WellFormed(log) && WithdrawnOnce(log) && OneLiveAtATime(log)
    requires e.action == Withdraw && WellFormed(log + [e])
    requires forall i :: 0 <= i < |log| && log[i].action == Withdraw ==> log[i].approvalId != e.approvalId
    ensures WithdrawnOnce(log + [e]) && OneLiveAtATime(log + [e])
  {
    var log' := log + [e];
    forall i, j | 0 <= i < j < |log'| && SameRevision(log'[i], log'[j])
      ensures WithdrawnBetween(log', i, j)
    {
      assert WithdrawnBetween(log, i, j);
      BetweenGrows(log, e, i, j);
    }
  }

  lemma RecordKeepsInv(s: Store, fid: string, r: Request, e: Event)
    requires Inv(s) && (fid, r.key) !in s.requests
    requires e.id == |s.events| && e.formalization == fid && e.key == r.key && e.digest == Digest(r)
    requires WellFormed(s.events + [e]) && WithdrawnOnce(s.events + [e]) && OneLiveAtATime(s.events + [e])
    ensures Inv(Record(s, fid, r, e).0)
  {
    var s' := Record(s, fid, r, e).0;
    forall i | 0 <= i < |s'.events|
      ensures (s'.events[i].formalization, s'.events[i].key) in s'.requests
      ensures s'.requests[(s'.events[i].formalization, s'.events[i].key)] == (s'.events[i].digest, i)
    {
      if i < |s.events| {
        assert s'.events[i] == s.events[i];
      }
    }
  }

  lemma BindKeepsInv(s: Store, fid: string, r: Request, e: Event, i: nat)
    requires Inv(s) && (fid, r.key) !in s.requests
    requires i < |s.events| && s.events[i] == e && e.formalization == fid
    ensures Inv(Bind(s, fid, r, e).0)
  {
  }

  lemma ApproveKeepsInv(s: Store, fid: string, r: Request, c: Context)
    requires Inv(s) && (fid, r.key) !in s.requests && r.outcome.Some?
    requires forall i :: 0 <= i < |s.events| ==> !Live(s.events, s.events[i], fid, TokenOf(fid, c))
    ensures Inv(Record(s, fid, r, ApproveEvent(s, fid, r, c)).0)
  {
    var e := ApproveEvent(s, fid, r, c);
    AppendApproval(s.events, e);
    RecordKeepsInv(s, fid, r, e);
  }

  lemma WithdrawKeepsInv(s: Store, fid: string, r: Request, a: nat)
    requires Inv(s) && (fid, r.key) !in s.requests
    requires a < |s.events| && s.events[a].formalization == fid && s.events[a].action == Approve
    requires forall i :: 0 <= i < |s.events| && s.events[i].action == Withdraw ==> s.events[i].approvalId != Some(a)
    ensures Inv(Record(s, fid, r, WithdrawEvent(s, fid, r, s.events[a])).0)
  {
    var e := WithdrawEvent(s, fid, r, s.events[a]);
    AppendWithdrawal(s.events, e);
    RecordKeepsInv(s, fid, r, e);
  }

  /** Every call keeps the invariant. */
  lemma DecideKeepsInv(s: Store, fid: string, r: Request, w: Situation)
    requires Inv(s)
    ensures Inv(Decide(s, fid, r, w).0)
  {
    if (fid, r.key) !in s.requests && w.idle {
      if r.action == Approve {
        ApproveBranch(s, fid, r, w);
      } else if r.approvalId.Some? {
        WithdrawBranch(s, fid, r, w);
      }
    }
  }

  lemma ApproveBranch(s: Store, fid: string, r: Request, w: Situation)
    requires Inv(s) && (fid, r.key) !in s.requests && w.idle && r.action == Approve
    ensures Inv(Decide(s, fid, r, w).0)
  {
    var review := Project(fid, w.context, s.events);
    var token := TokenOf(fid, w.context);
    hide Inv;
    if ApproveCheck(r, w, review).None? {
      LatestLiveFinds(s.events, fid, token, |s.events|);
      if review.approval.None? {
        ApproveKeepsInv(s, fid, r, w.context);
      } else {
        var i: nat :| i < |s.events| && s.events[i] == review.approval.value && Live(s.events, s.events[i], fid, token);
        BindKeepsInv(s, fid, r, review.approval.value, i);
      }
    }
  }

  lemma WithdrawBranch(s: Store, fid: string, r: Request, w: Situation)
    requires Inv(s) && (fid, r.key) !in s.requests && w.idle && r.action == Withdraw && r.approvalId.Some?
    ensures Inv(Decide(s, fid, r, w).0)
  {
    hide Project, ApproveCheck, FindWithdrawal, LatestLive, WithdrawnOnce, OneLiveAtATime, KeysBound;
    var a := r.approvalId.value;
    if a < |s.events| && s.events[a].formalization == fid && s.events[a].action == Approve {
      FindWithdrawalFinds(s.events, a);
      var already := FindWithdrawal(s.events, a);
      if already.None? {
        WithdrawKeepsInv(s, fid, r, a);
      } else {
        var i: nat :| i < |s.events| && s.events[i] == already.value
          && s.events[i].action == Withdraw && s.events[i].approvalId == Some(a);
        BindKeepsInv(s, fid, r, already.value, i);
      }
    }
  }

  /** In every run of requests: each revision has at most one un-withdrawn approval at a time, each
      approval is withdrawn at most once, and every key is bound to one event. */
  lemma {:induction false} EveryRunKeepsInv(s: Store, calls: seq<Call>)
    requires Inv(s)
    ensures Inv(After(s, calls))
    decreases calls
  {
    if calls != [] {
      DecideKeepsInv(s, calls[0].fid, calls[0].request, calls[0].situation);
      EveryRunKeepsInv(Decide(s, calls[0].fid, calls[0].request, calls[0].situation).0, calls[1..]);
    }
  }

  /** So it holds after every run that begins with empty tables. */
  lemma EveryRunFromEmpty(calls: seq<Call>)
    ensures Inv(After(EMPTY, calls))
  {
    assert Inv(EMPTY);
    EveryRunKeepsInv(EMPTY, calls);
  }

  /** Two live approvals of one revision are one and the same event. */
  lemma LiveIsUnique(s: Store, fid: string, token: Token, i: nat, j: nat)
    requires Inv(s) && i < |s.events| && j < |s.events|
    requires Live(s.events, s.events[i], fid, token) && Live(s.events, s.events[j], fid, token)
    ensures i == j
  {
    if i < j {
      LiveNotWithdrawn(s.events, fid, token, i, j);
    } else if j < i {
      LiveNotWithdrawn(s.events, fid, token, j, i);
    }
  }

  lemma LiveNotWithdrawn(log: seq<Event>, fid: string, token: Token, i: nat, j: nat)
    requires i < j <= |log| && Live(log, log[i], fid, token)
    ensures !WithdrawnBetween(log, i, j)
  {
  }

  // ---------- the log only grows, and keys stay bound ----------

  ghost predicate Extends(s: Store, s': Store) {
    && s.events <= s'.events
    && forall q :: q in s.requests ==> q in s'.requests && s'.requests[q] == s.requests[q]
  }

  /** The three things a call can do: nothing, bind a new key to an event of the log, or append
      one event and bind the key to it. */
  ghost predicate Outcomes(s: Store, fid: string, r: Request, s': Store, response: Response) {
    || (s' == s && response.Rejected?)
    || (s' == s && (fid, r.key) in s.requests && response.Decided?
        && s.requests[(fid, r.key)] == (Digest(r), response.event.id)
        && Find(s.events, response.event.id) == Some(response.event))
    || ((fid, r.key) !in s.requests && response.Decided?
        && Find(s.events, response.event.id) == Some(response.event)
        && s' == Bind(s, fid, r, response.event).0)
    || ((fid, r.key) !in s.requests && response.Decided?
        && response.event.id == |s.events| && s' == Record(s, fid, r, response.event).0)
  }

  lemma ApproveOutcomes(s: Store, fid: string, r: Request, w: Situation)
    requires Inv(s) && (fid, r.key) !in s.requests
    ensures Outcomes(s, fid, r, Approving(s, fid, r, w).0, Approving(s, fid, r, w).1)
  {
    var review := Project(fid, w.context, s.events);
    LatestLiveFinds(s.events, fid, TokenOf(fid, w.context), |s.events|);
    assert review.approval.Some? ==> Find(s.events, review.approval.value.id) == Some(review.approval.value);
    hide Inv, Project, ApproveCheck, LatestLive, Live, Find;
  }

  lemma WithdrawOutcomes(s: Store, fid: string, r: Request)
    requires Inv(s) && (fid, r.key) !in s.requests
    ensures Outcomes(s, fid, r, Withdrawing(s, fid, r).0, Withdrawing(s, fid, r).1)
  {
    if r.approvalId.Some? && Find(s.events, r.approvalId.value).Some? {
      var id := Find(s.events, r.approvalId.value).value.id;
      FindWithdrawalFinds(s.events, id);
      var already := FindWithdrawal(s.events, id);
      assert already.Some? ==> Find(s.events, already.value.id) == already;
    }
    hide Inv, FindWithdrawal, Find;
  }

  lemma DecideOutcomes(s: Store, fid: string, r: Request, w: Situation)
    requires Inv(s)
    ensures Outcomes(s, fid, r, Decide(s, fid, r, w).0, Decide(s, fid, r, w).1)
  {
    if (fid, r.key) in s.requests {
      assert Find(s.events, s.requests[(fid, r.key)].1).Some?;
      hide Inv, Approving, Withdrawing;
    } else {
      ApproveOutcomes(s, fid, r, w);
      WithdrawOutcomes(s, fid, r);
      hide Inv, Approving, Withdrawing, Outcomes;
    }
  }

  /** A call appends at most one event and rebinds no key. */
  lemma DecideExtends(s: Store, fid: string, r: Request, w: Situation)
    requires Inv(s)
    ensures Extends(s, Decide(s, fid, r, w).0)
    ensures |Decide(s, fid, r, w).0.events| <= |s.events| + 1
    ensures Decide(s, fid, r, w).1.Rejected? ==> Decide(s, fid, r, w).0 == s
  {
    DecideOutcomes(s, fid, r, w);
    hide Decide, Inv;
  }

  lemma {:induction false} RunExtends(s: Store, calls: seq<Call>)
    requires Inv(s)
    ensures Extends(s, After(s, calls)) && |After(s, calls).events| <= |s.events| + |calls|
    decreases calls
  {
    if calls != [] {
      var s1 := Decide(s, calls[0].fid, calls[0].request, calls[0].situation).0;
      DecideExtends(s, calls[0].fid, calls[0].request, calls[0].situation);
      DecideKeepsInv(s, calls[0].fid, calls[0].request, calls[0].situation);
      RunExtends(s1, calls[1..]);
    }
  }

  /** An accepted request is bound to the event it returned. */
  lemma DecidedIsBound(s: Store, fid: string, r: Request, w: Situation)
    requires Inv(s) && Decide(s, fid, r, w).1.Decided?
    ensures var (s', response) := Decide(s, fid, r, w);
      && (fid, r.key) in s'.requests && s'.requests[(fid, r.key)] == (Digest(r), response.event.id)
      && Find(s'.events, response.event.id) == Some(response.event)
  {
    DecideOutcomes(s, fid, r, w);
    hide Decide, Inv;
  }

  lemma BoundKeyAnswers(s: Store, fid: string, r: Request, w: Situation, digest: Request, e: Event)
    requires (fid, r.key) in s.requests && s.requests[(fid, r.key)] == (digest, e.id)
    requires Find(s.events, e.id) == Some(e)
    ensures Decide(s, fid, r, w) == (s, if digest == Digest(r) then Decided(e) else Rejected(KeyReused))
  {
  }

  lemma StaysBound(s: Store, s': Store, q: (string, string), digest: Request, e: Event)
    requires Extends(s, s') && q in s.requests && s.requests[q] == (digest, e.id) && Find(s.events, e.id) == Some(e)
    ensures q in s'.requests && s'.requests[q] == (digest, e.id) && Find(s'.events, e.id) == Some(e)
  {
    assert s'.events[e.id] == s.events[e.id];
  }

  /** Whatever happens in between, repeating an accepted request returns the same event and changes
      nothing, and reusing its key for a different request is refused and changes nothing. */
  lemma ReplayIsStable(s: Store, fid: string, r: Request, w: Situation, calls: seq<Call>, r': Request, w': Situation)
    requires Inv(s) && Decide(s, fid, r, w).1.Decided? && r'.key == r.key
    ensures var (s1, first) := Decide(s, fid, r, w);
      var s2 := After(s1, calls);
      Decide(s2, fid, r', w') == (s2, if Digest(r') == Digest(r) then first else Rejected(KeyReused))
  {
    var (s1, first) := Decide(s, fid, r, w);
    DecidedIsBound(s, fid, r, w);
    DecideKeepsInv(s, fid, r, w);
    RunExtends(s1, calls);
    var s2 := After(s1, calls);
    hide Decide, Inv, After;
    StaysBound(s1, s2, (fid, r.key), Digest(r), first.event);
    hide Find, Extends;
    BoundKeyAnswers(s2, fid, r', w', Digest(r), first.event);
  }

  // ---------- what a reported approval means ----------

  /** The projection reports an approval exactly when the checks pass, nothing is running, and the
      log holds an un-withdrawn approval made for the same source, attempt, declaration, path, file
      contents and check environments. */
  lemma ApprovalIffLive(s: Store, fid: string, c: Context)
    requires Inv(s)
    ensures Project(fid, c, s.events).approval.Some? <==>
      && c.blocked.None? && !c.active
      && exists i :: 0 <= i < |s.events| && Live(s.events, s.events[i], fid, TokenOf(fid, c))
    ensures Project(fid, c, s.events).approval.Some? ==>
      var e := Project(fid, c, s.events).approval.value;
      && e in s.events && e.action == Approve && e.formalization == fid
      && !Withdrawn(s.events, fid, e.id)
      && e.sourceHash == c.sourceHash && e.declaration == c.declaration && e.candidatePath == c.candidatePath
      && e.token.attemptId == c.attemptId && Inputs(e.evidence) == Inputs(c.bindings)
      && Project(fid, c, s.events).verdict == ApprovedAs(e.outcome.value)
  {
    LatestLiveFinds(s.events, fid, TokenOf(fid, c), |s.events|);
    ReportsLatest(fid, c, s.events);
    hide Project, LatestLive, WithdrawnOnce, OneLiveAtATime, KeysBound;
    assert (exists i :: 0 <= i < |s.events| && Live(s.events, s.events[i], fid, TokenOf(fid, c))) ==>
        Concerns(s.events, fid);
  }

  lemma ReportsLatest(fid: string, c: Context, log: seq<Event>)
    ensures var review, latest := Project(fid, c, log), LatestLive(log, fid, TokenOf(fid, c), |log|);
      && review.approval
        == (if (c.reviewRun || Concerns(log, fid)) && c.blocked.None? && !c.active then latest else None)
      && (review.approval.Some? && latest.value.outcome.Some? ==>
            review.verdict == ApprovedAs(latest.value.outcome.value))
  {
    hide LatestLive, Concerns;
  }

  /** Same content and environments under new storage and evidence ids. */
  predicate SameInputs(c: Context, c': Context) {
    Inputs(c.bindings) == Inputs(c'.bindings) && c' == c.(bindings := c'.bindings)
  }

  /** Changing only storage and evidence ids keeps the token, the approval and the verdict. */
  lemma EvidenceIdsDoNotMatter(fid: string, c: Context, c': Context, log: seq<Event>)
    requires SameInputs(c, c')
    ensures Project(fid, c', log) == Project(fid, c, log).(evidence := Project(fid, c', log).evidence)
  {
    assert TokenOf(fid, c) == TokenOf(fid, c');
  }

  // ---------- approving and withdrawing ----------

  lemma WithdrawnAppend(log: seq<Event>, e: Event, fid: string, id: nat)
    ensures Withdrawn(log + [e], fid, id) <==>
      Withdrawn(log, fid, id) || (e.formalization == fid && e.action == Withdraw && e.approvalId == Some(id))
  {
    var log' := log + [e];
    if Withdrawn(log, fid, id) {
      var i :| 0 <= i < |log| && log[i].formalization == fid && log[i].action == Withdraw
        && log[i].approvalId == Some(id);
      assert log'[i] == log[i];
    }
    assert log'[|log|] == e;
  }

  /** An event that leaves every other approval's standing alone leaves the search alone. */
  lemma {:induction false} LatestLiveFrame(log: seq<Event>, log': seq<Event>, fid: string, token: Token, upTo: nat)
    requires upTo <= |log| && log <= log'
    requires forall i :: 0 <= i < upTo ==> (Live(log, log[i], fid, token) <==> Live(log', log[i], fid, token))
    ensures LatestLive(log', fid, token, upTo) == LatestLive(log, fid, token, upTo)
  {
    if upTo > 0 {
      LatestLiveFrame(log, log', fid, token, upTo - 1);
    }
  }

  lemma {:induction false} SkipDead(log: seq<Event>, fid: string, token: Token, lo: nat, hi: nat)
    requires lo <= hi <= |log|
    requires forall i :: lo <= i < hi ==> !Live(log, log[i], fid, token)
    ensures LatestLive(log, fid, token, hi) == LatestLive(log, fid, token, lo)
    decreases hi
  {
    if hi > lo {
      SkipDead(log, fid, token, lo, hi - 1);
    }
  }

  /** Approving and then withdrawing that approval gives back the earlier projection, for every target,
      revision and later context, if and only if the context is a review run's, or the target already had
      review events, or it is another target: a target outside review whose log was empty stays concerned. */
  lemma ApproveThenWithdraw(
    s: Store, fid: string, r: Request, w: Situation, r': Request, w': Situation, fid': string, c: Context)
    requires Inv(s) && r.action == Approve
    requires (fid, r.key) !in s.requests && w.idle
    requires ApproveCheck(r, w, Project(fid, w.context, s.events)).None?
    requires Project(fid, w.context, s.events).approval.None?
    requires r'.action == Withdraw && r'.approvalId == Some(|s.events|)
    requires r'.key != r.key && (fid, r'.key) !in s.requests && w'.idle
    ensures var s1 := Decide(s, fid, r, w).0;
      var s2 := Decide(s1, fid, r', w').0;
      && (Project(fid', c, s2.events) == Project(fid', c, s.events)
          <==> c.reviewRun || Concerns(s.events, fid') || fid' != fid)
      && |s2.events| == |s.events| + 2
  {
    var a := ApproveEvent(s, fid, r, w.context);
    var s1 := Decide(s, fid, r, w).0;
    DecideKeepsInv(s, fid, r, w);
    assert s1 == Record(s, fid, r, a).0;
    var s2 := Decide(s1, fid, r', w').0;
    NotYetWithdrawn(s.events, a);
    FirstWithdrawal(s1, fid, r', w', |s.events|);
    hide Decide, Project, Inv;
    ProjectionRestored(s.events, a, WithdrawEvent(s1, fid, r', a), fid', c);
  }

  /** Withdrawing an approval nothing has withdrawn appends one event. */
  lemma FirstWithdrawal(s: Store, fid: string, r: Request, w: Situation, a: nat)
    requires Inv(s) && (fid, r.key) !in s.requests && w.idle
    requires r.action == Withdraw && r.approvalId == Some(a)
    requires a < |s.events| && s.events[a].formalization == fid && s.events[a].action == Approve
    requires forall i :: 0 <= i < |s.events| && s.events[i].action == Withdraw ==> s.events[i].approvalId != Some(a)
    ensures Decide(s, fid, r, w).0.events == s.events + [WithdrawEvent(s, fid, r, s.events[a])]
  {
    hide Project, ApproveCheck, LatestLive;
    FindWithdrawalFinds(s.events, a);
  }

  lemma NotYetWithdrawn(log: seq<Event>, a: Event)
    requires WellFormed(log) && a.id == |log| && a.action == Approve
    ensures forall i :: 0 <= i < |log + [a]| && (log + [a])[i].action == Withdraw ==>
      (log + [a])[i].approvalId != Some(a.id)
  {
    forall i | 0 <= i < |log + [a]| && (log + [a])[i].action == Withdraw
      ensures (log + [a])[i].approvalId != Some(a.id)
    {
      assert (log + [a])[i] == log[i];
    }
  }

  lemma ProjectionRestored(log: seq<Event>, a: Event, b: Event, fid: string, c: Context)
    requires WellFormed(log) && a.id == |log| && a.action == Approve && IsWithdrawalOf(b, a)
    ensures Project(fid, c, log + [a] + [b]) == Project(fid, c, log)
      <==> c.reviewRun || Concerns(log, fid) || fid != a.formalization
  {
    var log1, log2 := log + [a], log + [a] + [b];
    var token := TokenOf(fid, c);
    forall i | 0 <= i < |log2|
      ensures Live(log2, log2[i], fid, token) <==> i < |log| && Live(log, log[i], fid, token)
    {
      WithdrawnAppend(log, a, fid, log2[i].id);
      WithdrawnAppend(log1, b, fid, log2[i].id);
      if i < |log| {
        assert log2[i] == log[i] && log[i].id == i;
      }
    }
    LatestLiveFrame(log, log2, fid, token, |log|);
    SkipDead(log2, fid, token, |log|, |log2|);
    ConcernsAppend(log, a, fid);
    ConcernsAppend(log1, b, fid);
  }

  lemma ConcernsAppend(log: seq<Event>, e: Event, fid: string)
    ensures Concerns(log + [e], fid) <==> Concerns(log, fid) || e.formalization == fid
  {
    var log' := log + [e];
    if Concerns(log, fid) {
      var i :| 0 <= i < |log| && log[i].formalization == fid;
      assert log'[i] == log[i];
    }
    assert log'[|log|] == e;
  }

  /** A target of a review run that can be approved as proved; `AFTERWARDS` is the same target once it is no
      review run's. */
  const UNDER_REVIEW := Context(None, None, "source", "Lea.t", "theorem", "t.lean", [], [Proved], None, true, false)

  const AFTERWARDS := UNDER_REVIEW.(reviewRun := false)

  const APPROVE := Request(Approve, "first", Some(TokenOf("f", UNDER_REVIEW)), Some(Proved), None, None)

  const WITHDRAW := Request(Withdraw, "second", None, None, Some(0), None)

  const SITUATION := Situation(UNDER_REVIEW, false, true, true)

  /** Approving and withdrawing on empty tables leaves that target concerned, with another projection. */
  lemma WithdrawalStaysVisible()
    ensures var s1 := Decide(EMPTY, "f", APPROVE, SITUATION).0;
      var s2 := Decide(s1, "f", WITHDRAW, SITUATION).0;
      |s2.events| == 2 && Project("f", AFTERWARDS, s2.events) != Project("f", AFTERWARDS, EMPTY.events)
  {
    assert Inv(EMPTY);
    assert "first" != "second" by { assert |"first"| == 5 && |"second"| == 6; }
    hide Inv, Decide;
    ApproveThenWithdraw(EMPTY, "f", APPROVE, SITUATION, WITHDRAW, SITUATION, "f", AFTERWARDS);
  }
}
