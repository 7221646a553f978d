/** What a review decision presupposes and what it leaves behind, case by case: when a request appends
    an event and which, when it is answered with one that is there, and when it is refused and why. */
module ReviewDecisions {
  import opened Text
  import opened Reviews

  // ---------- what is compared ----------

  /** The same files with the same contents, checked in the same environments. */
  ghost predicate SameFiles(bs: seq<Binding>, bs': seq<Binding>) {
    && |bs| == |bs'|
    && forall i :: 0 <= i < |bs| ==>
         bs[i].path == bs'[i].path && bs[i].sha256 == bs'[i].sha256 && bs[i].environment == bs'[i].environment
  }

  /** Two contexts have one token exactly if target, run, attempt, source, declaration, kind, candidate and
      the files' paths, contents and environments are the same. */
  lemma TokenIffSameInputs(fid: string, c: Context, fid': string, c': Context)
    ensures TokenOf(fid, c) == TokenOf(fid', c') <==>
      && fid == fid' && c.runId == c'.runId && c.attemptId == c'.attemptId && c.sourceHash == c'.sourceHash
      && c.declaration == c'.declaration && c.kind == c'.kind && c.candidatePath == c'.candidatePath
      && SameFiles(c.bindings, c'.bindings)
  {
    var a, b := Inputs(c.bindings), Inputs(c'.bindings);
    if a == b {
      forall i | 0 <= i < |a|
        ensures c.bindings[i].path == c'.bindings[i].path && c.bindings[i].sha256 == c'.bindings[i].sha256
        ensures c.bindings[i].environment == c'.bindings[i].environment
      {
        assert a[i] == b[i];
      }
    }
  }

  /** A repeated request may come with another source reference, and with no other difference. */
  lemma DigestIff(r: Request, r': Request)
    ensures Digest(r) == Digest(r') <==>
      && r.action == r'.action && r.key == r'.key && r.token == r'.token
      && r.outcome == r'.outcome && r.approvalId == r'.approvalId
  {
  }

  /** Event `i` approves this revision and no event of the target withdraws it. */
  ghost predicate Stands(log: seq<Event>, i: nat, fid: string, token: Token) {
    && i < |log| && log[i].formalization == fid && log[i].action == Approve && log[i].token == token
    && forall j :: 0 <= j < |log| && log[j].formalization == fid && log[j].action == Withdraw ==>
         log[j].approvalId != Some(log[i].id)
  }

  ghost predicate NoneStands(log: seq<Event>, fid: string, token: Token) {
    forall i: nat :: !Stands(log, i, fid, token)
  }

  /** Event `i` is the newest approval that stands. */
  ghost predicate NewestStands(log: seq<Event>, i: nat, fid: string, token: Token) {
    Stands(log, i, fid, token) && forall j: nat :: i < j ==> !Stands(log, j, fid, token)
  }

  ghost predicate HasEvents(log: seq<Event>, fid: string) {
    exists i :: 0 <= i < |log| && log[i].formalization == fid
  }

  lemma LiveStands(log: seq<Event>, i: nat, fid: string, token: Token)
    requires i < |log|
    ensures Live(log, log[i], fid, token) <==> Stands(log, i, fid, token)
  {
  }

  lemma {:induction false} LatestStands(log: seq<Event>, fid: string, token: Token, upTo: nat)
    requires upTo <= |log| && forall j: nat :: upTo <= j ==> !Stands(log, j, fid, token)
    ensures LatestLive(log, fid, token, upTo).None? <==> NoneStands(log, fid, token)
    ensures forall i: nat :: NewestStands(log, i, fid, token) ==> LatestLive(log, fid, token, upTo) == Some(log[i])
    ensures LatestLive(log, fid, token, upTo).Some? ==>
      exists i: nat :: NewestStands(log, i, fid, token)
  {
    if upTo > 0 {
      LiveStands(log, upTo - 1, fid, token);
      hide Stands, Live;
      if !Stands(log, upTo - 1, fid, token) {
        LatestStands(log, fid, token, upTo - 1);
      } else {
        assert NewestStands(log, upTo - 1, fid, token);
      }
    }
  }

  // ---------- the projection ----------

  /** The target is reviewed at all and no earlier check stops it. */
  ghost predicate Visible(fid: string, c: Context, log: seq<Event>) {
    (c.reviewRun || HasEvents(log, fid)) && c.blocked.None?
  }

  /** What the projection shows, field by field. */
  lemma ProjectionShows(fid: string, c: Context, log: seq<Event>)
    ensures var review, token := Project(fid, c, log), TokenOf(fid, c);
      && review.token == (if Visible(fid, c, log) then Some(token) else None)
      && review.allowed == (if Visible(fid, c, log) then c.outcomes else [])
      && review.evidence == (if Visible(fid, c, log) then c.bindings else [])
      && (review.eligible <==> c.reviewRun && c.blocked.None? && !c.active && NoneStands(log, fid, token))
      && (review.approval.Some? <==> Visible(fid, c, log) && !c.active && !NoneStands(log, fid, token))
      && (forall i: nat :: NewestStands(log, i, fid, token) && review.approval.Some? ==>
            review.approval == Some(log[i]))
  {
    assert Concerns(log, fid) <==> HasEvents(log, fid);
    LatestStands(log, fid, TokenOf(fid, c), |log|);
    if !NoneStands(log, fid, TokenOf(fid, c)) {
      var i: nat :| Stands(log, i, fid, TokenOf(fid, c));
      assert HasEvents(log, fid);
    }
    hide Concerns, HasEvents, LatestLive, NoneStands, NewestStands, TokenOf;
  }

  /** The verdict: a stopped target says why, a reported approval gives its outcome, and review is asked for
      while nothing is reported and the target is a review run's or its approval is suspended by a running
      operation. */
  lemma VerdictShows(fid: string, c: Context, log: seq<Event>)
    ensures var review, none := Project(fid, c, log), NoneStands(log, fid, TokenOf(fid, c));
      && (forall reason :: review.verdict == Blocked(reason) <==>
            (c.reviewRun || HasEvents(log, fid)) && c.blocked == Some(reason))
      && (forall o :: review.verdict == ApprovedAs(o) <==>
            review.approval.Some? && review.approval.value.outcome == Some(o))
      && (review.verdict == NeedsReview <==>
            c.blocked.None? && (if c.active then c.reviewRun || !none else c.reviewRun && none))
  {
    assert Concerns(log, fid) <==> HasEvents(log, fid);
    LatestStands(log, fid, TokenOf(fid, c), |log|);
    if !NoneStands(log, fid, TokenOf(fid, c)) {
      var i: nat :| Stands(log, i, fid, TokenOf(fid, c));
      assert HasEvents(log, fid);
    }
    hide Concerns, HasEvents, LatestLive, NoneStands, NewestStands, TokenOf;
  }

  // ---------- approving ----------

  /** A target from Overleaf needs a source reference that resolves. */
  ghost predicate SourceGiven(r: Request, w: Situation) {
    w.overleaf ==> r.sourceRef.Some? && w.sourceResolves
  }

  /** The request names the revision that is shown and an outcome its candidate does not rule out. */
  ghost predicate Matches(s: Store, fid: string, r: Request, w: Situation) {
    var c := w.context;
    && SourceGiven(r, w) && r.outcome.Some?
    && Visible(fid, c, s.events) && r.token == Some(TokenOf(fid, c))
    && (c.outcomes != [] ==> r.outcome.value in c.outcomes)
  }

  /** What a new approval presupposes. */
  ghost predicate Approvable(s: Store, fid: string, r: Request, w: Situation) {
    var c := w.context;
    && r.token == Some(TokenOf(fid, c))
    && r.outcome.Some? && r.outcome.value in c.outcomes
    && c.blocked.None? && !c.active && c.reviewRun
    && SourceGiven(r, w)
    && NoneStands(s.events, fid, TokenOf(fid, c))
  }

  ghost predicate Fresh(s: Store, fid: string, r: Request, w: Situation, action: Action) {
    r.action == action && w.idle && (fid, r.key) !in s.requests
  }

  /** The event records the request's outcome and everything the context binds it to. */
  ghost predicate RecordsApproval(e: Event, s: Store, fid: string, r: Request, c: Context) {
    && e.id == |s.events| && e.formalization == fid && e.action == Approve && e.outcome == r.outcome
    && Some(e.token) == r.token && e.sourceHash == c.sourceHash && e.declaration == c.declaration
    && e.candidatePath == c.candidatePath && e.evidence == c.bindings && e.approvalId == None
    && e.key == r.key && e.digest == Digest(r)
  }

  /** The log gained this event, the key is bound to it and the call returned it. */
  ghost predicate Appended(s: Store, fid: string, r: Request, s': Store, response: Response, e: Event) {
    && s'.events == s.events + [e] && response == Decided(e)
    && s'.requests == s.requests[(fid, r.key) := (Digest(r), e.id)]
  }

  /** The log stayed, the key is bound to an event it holds and the call returned that. */
  ghost predicate Answered(s: Store, fid: string, r: Request, s': Store, response: Response, e: Event) {
    && s'.events == s.events && response == Decided(e)
    && s'.requests == s.requests[(fid, r.key) := (Digest(r), e.id)]
  }

  /** An approve request appends an event if and only if it names the current revision and an outcome of its
      candidate, the target is an unblocked, inactive review run's, an Overleaf source resolves, and no
      approval of that revision stands. */
  lemma ApproveAppendsIff(s: Store, fid: string, r: Request, w: Situation)
    requires Fresh(s, fid, r, w, Approve)
    ensures var (s', response) := Decide(s, fid, r, w);
      && (s'.events != s.events <==> Approvable(s, fid, r, w))
      && (s'.events != s.events ==> (response.Decided?
           && RecordsApproval(response.event, s, fid, r, w.context)
           && Appended(s, fid, r, s', response, response.event)))
  {
    ProjectionShows(fid, w.context, s.events);
    var e := ApproveEvent(s, fid, r, w.context);
    assert s.events + [e] != s.events by { assert |s.events + [e]| != |s.events|; }
    hide Project, TokenOf, NoneStands, NewestStands, HasEvents;
  }

  /** It is answered with the approval that stands if and only if it matches what is shown and asks for the
      same outcome. */
  lemma ApproveAnsweredIff(s: Store, fid: string, r: Request, w: Situation, i: nat)
    requires Fresh(s, fid, r, w, Approve) && NewestStands(s.events, i, fid, TokenOf(fid, w.context))
    ensures var (s', response) := Decide(s, fid, r, w);
      && (response.Decided? <==> Matches(s, fid, r, w) && !w.context.active && s.events[i].outcome == r.outcome)
      && (response.Decided? ==> Answered(s, fid, r, s', response, s.events[i]))
  {
    ProjectionShows(fid, w.context, s.events);
    assert !NoneStands(s.events, fid, TokenOf(fid, w.context));
    hide Project, TokenOf, NoneStands, NewestStands, HasEvents;
  }

  /** Why an approve request is refused. */
  lemma ApproveRefusals(s: Store, fid: string, r: Request, w: Situation)
    requires Fresh(s, fid, r, w, Approve)
    ensures var (s', response) := Decide(s, fid, r, w);
      var c, token, review := w.context, TokenOf(fid, w.context), Project(fid, w.context, s.events);
      var none := NoneStands(s.events, fid, token);
      && (response.Rejected? ==> s' == s)
      && (response == Rejected(TokenRequired) <==> r.token.None?)
      && (response == Rejected(SourceRequired) <==> r.token.Some? && w.overleaf && r.sourceRef.None?)
      && (response == Rejected(SourceStale) <==>
            r.token.Some? && w.overleaf && r.sourceRef.Some? && !w.sourceResolves)
      && (response == Rejected(InputsChanged) <==>
            r.token.Some? && SourceGiven(r, w) && r.outcome.Some?
            && (Visible(fid, c, s.events) ==> r.token != Some(token)))
      && (response == Rejected(OtherOutcomeApproved) <==>
            Matches(s, fid, r, w) && review.approval.Some? && review.approval.value.outcome != r.outcome)
      && (response == Rejected(NotEligible) <==>
            Matches(s, fid, r, w) && (c.active || (none && !c.reviewRun)))
      && (response == Rejected(OutcomeUnsupported) <==>
            && r.token.Some? && SourceGiven(r, w)
            && (r.outcome.Some? ==> (Visible(fid, c, s.events) && r.token == Some(token)
                 && r.outcome.value !in c.outcomes
                 && (c.outcomes == [] ==> none && !c.active && c.reviewRun))))
  {
    ProjectionShows(fid, w.context, s.events);
    hide Project, TokenOf, NoneStands, NewestStands, HasEvents;
  }

  // ---------- withdrawing ----------

  /** Event `a` approves something of this target. */
  ghost predicate IsApproval(log: seq<Event>, a: nat, fid: string) {
    a < |log| && log[a].formalization == fid && log[a].action == Approve
  }

  /** Event `i` is the first that withdraws approval `a`. */
  ghost predicate FirstWithdraws(log: seq<Event>, i: nat, a: nat) {
    && i < |log| && log[i].action == Withdraw && log[i].approvalId == Some(a)
    && forall j :: 0 <= j < i && log[j].action == Withdraw ==> log[j].approvalId != Some(a)
  }

  /** The event undoes that approval and otherwise carries what the approval carried. */
  ghost predicate RecordsWithdrawal(e: Event, s: Store, fid: string, r: Request, a: Event) {
    && e.id == |s.events| && e.formalization == fid && e.action == Withdraw && e.outcome == None
    && e.token == a.token && e.sourceHash == a.sourceHash && e.declaration == a.declaration
    && e.candidatePath == a.candidatePath && e.evidence == a.evidence && e.approvalId == Some(a.id)
    && e.key == r.key && e.digest == Digest(r)
  }

  lemma {:induction false} FindsFirst(log: seq<Event>, a: nat)
    ensures FindWithdrawal(log, a).None? <==>
      forall i :: 0 <= i < |log| && log[i].action == Withdraw ==> log[i].approvalId != Some(a)
    ensures FindWithdrawal(log, a).Some? ==>
      exists i: nat :: FirstWithdraws(log, i, a) && FindWithdrawal(log, a) == Some(log[i])
  {
    if log != [] && !(log[0].action == Withdraw && log[0].approvalId == Some(a)) {
      FindsFirst(log[1..], a);
      assert forall i :: 1 <= i < |log| ==> log[i] == log[1..][i - 1];
      if FindWithdrawal(log[1..], a).Some? {
        var i: nat :| FirstWithdraws(log[1..], i, a) && FindWithdrawal(log[1..], a) == Some(log[1..][i]);
        assert FirstWithdraws(log, i + 1, a);
      }
    } else if log != [] {
      assert FirstWithdraws(log, 0, a);
    }
  }

  /** A withdrawal is refused exactly without an approval's id or when the target has no such approval. */
  lemma WithdrawCases(s: Store, fid: string, r: Request, w: Situation)
    requires Inv(s) && Fresh(s, fid, r, w, Withdraw)
    ensures var (s', response) := Decide(s, fid, r, w);
      && (response.Rejected? ==> s' == s)
      && (response == Rejected(ApprovalIdRequired) <==> r.approvalId.None?)
      && (response == Rejected(ApprovalNotFound) <==>
            r.approvalId.Some? && !IsApproval(s.events, r.approvalId.value, fid))
      && (response.Decided? <==> r.approvalId.Some? && IsApproval(s.events, r.approvalId.value, fid))
  {
    hide FindWithdrawal;
  }

  /** The first withdrawal of an approval is appended. */
  lemma WithdrawAppends(s: Store, fid: string, r: Request, w: Situation, a: nat)
    requires Inv(s) && Fresh(s, fid, r, w, Withdraw) && r.approvalId == Some(a) && IsApproval(s.events, a, fid)
    requires forall i: nat :: !FirstWithdraws(s.events, i, a)
    ensures var (s', response) := Decide(s, fid, r, w);
      && response.Decided? && RecordsWithdrawal(response.event, s, fid, r, s.events[a])
      && Appended(s, fid, r, s', response, response.event)
  {
    FindsFirst(s.events, a);
    assert s.events[a].id == a;
    hide Inv, FindWithdrawal, FirstWithdraws;
  }

  lemma FirstIsFound(log: seq<Event>, i: nat, a: nat)
    requires FirstWithdraws(log, i, a)
    ensures FindWithdrawal(log, a) == Some(log[i])
  {
    FindsFirst(log, a);
    var k: nat :| FirstWithdraws(log, k, a) && FindWithdrawal(log, a) == Some(log[k]);
    assert k == i;
  }

  /** Later ones are answered with it. */
  lemma WithdrawAnswered(s: Store, fid: string, r: Request, w: Situation, a: nat, i: nat)
    requires Inv(s) && Fresh(s, fid, r, w, Withdraw) && r.approvalId == Some(a) && IsApproval(s.events, a, fid)
    requires FirstWithdraws(s.events, i, a)
    ensures Answered(s, fid, r, Decide(s, fid, r, w).0, Decide(s, fid, r, w).1, s.events[i])
  {
    FirstIsFound(s.events, i, a);
    assert s.events[a].id == a;
    hide Inv, FindWithdrawal, FirstWithdraws;
  }

  // ---------- before either ----------

  /** A bound key is settled by its event, also while an operation runs. */
  lemma BoundKeyFirst(s: Store, fid: string, r: Request, w: Situation)
    requires Inv(s) && (fid, r.key) in s.requests
    ensures var (digest, i) := s.requests[(fid, r.key)];
      i < |s.events| && Decide(s, fid, r, w)
        == (s, if digest == Digest(r) then Decided(s.events[i]) else Rejected(KeyReused))
  {
    hide Digest, Approving, Withdrawing, WithdrawnOnce, OneLiveAtATime;
  }

  /** Any other request is refused as long as one runs, and only then for that reason. */
  lemma BusyIff(s: Store, fid: string, r: Request, w: Situation)
    requires (fid, r.key) !in s.requests
    ensures Decide(s, fid, r, w).1 == Rejected(TargetBusy) <==> !w.idle
    ensures !w.idle ==> Decide(s, fid, r, w).0 == s
    ensures Decide(s, fid, r, w).1 != Rejected(KeyReused)
  {
    hide Project, Digest, WithdrawEvent, ApproveEvent, FindWithdrawal, Find;
  }

  /** A run of requests decides them one after the other. */
  lemma {:induction false} RunDecides(s: Store, calls: seq<Call>, last: Call)
    ensures After(s, calls + [last])
      == Decide(After(s, calls), last.fid, last.request, last.situation).0
    decreases |calls|
  {
    hide Decide;
    if calls == [] {
      assert calls + [last] == [last] && [last][1..] == [];
    } else {
      assert (calls + [last])[1..] == calls[1..] + [last];
      RunDecides(Decide(s, calls[0].fid, calls[0].request, calls[0].situation).0, calls[1..], last);
    }
  }
}
