/** Merge requests running concurrently with each other, with reviews and with protection edits
  (internal/httpapi/collab.go).

  A run is any sequence of steps: every interleaving of any number of requests is one.  A step that is
  not enabled changes nothing.  Git is an oracle: its step carries the hash or the error it returned. */
module MergeProtocol {
  import opened Collab
  import opened Wrappers

  /** Which optional parts of the handler are set. */
  datatype Config = Config(merger: bool, automation: bool)

  datatype Event = Event(k: PrKey, actor: string, mergeCommit: string, sourceBranch: string, targetBranch: string)

  datatype GitOutcome = Pushed(hash: string) | Failed

  /** Where a merge request stands; each phase but the last names the call it makes next. */
  datatype Phase =
    | Checking                              // EvaluateMerge
    | Fetching                              // GetPullRequest
    | Merging(source: string, target: string)   // MergePR
    | Recording(commit: string)             // SetPullRequestState
    | Notifying(pr: PullRequest, commit: string) // PullRequestMerged
    | Answering                             // the response
    | Finished(status: int)
  {
    /** The request got past the guarded update. */
    predicate Won() {
      Notifying? || Told()
    }

    /** It also got past the notification. */
    predicate Told() {
      Answering? || this == Finished(200)
    }
  }

  datatype Request = Request(k: PrKey, actor: string, phase: Phase)

  datatype Sys = Sys(db: Db, requests: map<nat, Request>, events: seq<Event>)

  datatype Step =
    | OpenPr(k: PrKey, pr: PullRequest)
    | ClosePr(k: PrKey)
    | PutReview(k: PrKey, reviewer: string, verdict: string, text: string)
    | PutProtection(b: BranchKey, p: Protection)
    | DeleteProtection(b: BranchKey)
    | Arrive(id: nat, k: PrKey, actor: string)
    | Check(id: nat, lookupOk: bool)
    | Fetch(id: nat)
    | Git(id: nat, outcome: GitOutcome)
    | Record(id: nat, replyLost: bool)     // the update can commit and its reply be lost
    | Notify(id: nat)
    | Answer(id: nat)
    | Break(id: nat)                       // a store error, or the server going down

  const START: Sys := Sys(Db(map[], map[], map[]), map[], [])

  function StatusOf(e: Error): int {
    match e
    case NotFound => 404
    case InvalidState => 400
    case NotMergeable => 422
    case InvalidRule => 500
  }

  function Moved(s: Sys, id: nat, phase: Phase): Sys
    requires id in s.requests
  {
    s.(requests := s.requests[id := s.requests[id].(phase := phase)])
  }

  /** The phase after the check: blocked requests are answered, the others go on to git or to the update. */
  function AfterCheck(cfg: Config, r: Result<MergeCheck, Error>): Phase {
    match r
    case Err(e) => Finished(StatusOf(e))
    case Ok(check) =>
      if !check.mergable then Finished(422)
      else if cfg.merger then Fetching
      else Recording("")
  }

  function AfterRecord(s: Sys, id: nat, commit: string, replyLost: bool): Sys
    requires id in s.requests
  {
    var (db, r) := StateSet(s.db, s.requests[id].k, Some(Merged), commit);
    var phase := if replyLost then Finished(500) else
      match r case Ok(pr) => Notifying(pr, commit) case Err(e) => Finished(StatusOf(e));
    Moved(s, id, phase).(db := db)
  }

  function Apply(cfg: Config, s: Sys, step: Step): Sys {
    match step
    case OpenPr(k, pr) =>
      if k in s.db.prs then s
      else s.(db := s.db.(prs := s.db.prs[k := pr.(state := Open, mergeCommit := None)]))
    case ClosePr(k) => s.(db := StateSet(s.db, k, Some(Closed), "").0)
    case PutReview(k, reviewer, verdict, text) => s.(db := Reviewed(s.db, k, reviewer, VerdictNamed(verdict), text).0)
    case PutProtection(b, p) => s.(db := Protected(s.db, b, p).0)
    case DeleteProtection(b) => s.(db := Unprotected(s.db, b).0)
    case Arrive(id, k, actor) =>
      if id in s.requests then s else s.(requests := s.requests[id := Request(k, actor, Checking)])
    case Check(id, lookupOk) =>
      if id in s.requests && s.requests[id].phase.Checking?
      then Moved(s, id, AfterCheck(cfg, Evaluated(s.db, s.requests[id].k, lookupOk))) else s
    case Fetch(id) =>
      if id in s.requests && s.requests[id].phase.Fetching? then
        var k := s.requests[id].k;
        Moved(s, id, if k in s.db.prs then Merging(s.db.prs[k].sourceBranch, s.db.prs[k].targetBranch)
                     else Finished(404))
      else s
    case Git(id, outcome) =>
      if id in s.requests && s.requests[id].phase.Merging?
      then Moved(s, id, if outcome.Pushed? then Recording(outcome.hash) else Finished(409)) else s
    case Record(id, replyLost) =>
      if id in s.requests && s.requests[id].phase.Recording?
      then AfterRecord(s, id, s.requests[id].phase.commit, replyLost) else s
    case Notify(id) =>
      if id in s.requests && s.requests[id].phase.Notifying? then
        var r := s.requests[id];
        Moved(s, id, Answering).(events := s.events +
          if cfg.automation
          then [Event(r.k, r.actor, r.phase.commit, r.phase.pr.sourceBranch, r.phase.pr.targetBranch)] else [])
      else s
    case Answer(id) =>
      if id in s.requests && s.requests[id].phase.Answering? then Moved(s, id, Finished(200)) else s
    case Break(id) =>
      if id in s.requests && !s.requests[id].phase.Finished? then Moved(s, id, Finished(500)) else s
  }

  /** The system after the first n steps of a run. */
  function At(cfg: Config, steps: seq<Step>, n: nat): Sys
    requires n <= |steps|
  {
    if n == 0 then START else Apply(cfg, At(cfg, steps, n - 1), steps[n - 1])
  }

  function EventsFor(events: seq<Event>, k: PrKey): seq<Event> {
    if events == [] then []
    else EventsFor(events[..|events| - 1], k) + (if events[|events| - 1].k == k then [events[|events| - 1]] else [])
  }

  // ---- One winner, one change of state, one event ----

  lemma SettledStep(cfg: Config, s: Sys, step: Step, k: PrKey)
    requires k in s.db.prs && !s.db.IsOpen(k)
    ensures k in Apply(cfg, s, step).db.prs && Apply(cfg, s, step).db.prs[k] == s.db.prs[k]
  {
    hide Evaluated, VerdictNamed;
  }

  /** A pull request that is no longer open never changes again: its state and its commit are settled. */
  lemma {:induction false} SettledForGood(cfg: Config, steps: seq<Step>, n: nat, m: nat, k: PrKey)
    requires n <= m <= |steps|
    requires k in At(cfg, steps, n).db.prs && !At(cfg, steps, n).db.IsOpen(k)
    ensures k in At(cfg, steps, m).db.prs
    ensures At(cfg, steps, m).db.prs[k] == At(cfg, steps, n).db.prs[k]
  {
    hide Apply;
    if n < m {
      SettledForGood(cfg, steps, n, m - 1, k);
      SettledStep(cfg, At(cfg, steps, m - 1), steps[m - 1], k);
    }
  }

  /** Step n is a merge request taking the pull request from open to merged. */
  ghost predicate MergesAt(cfg: Config, steps: seq<Step>, n: nat, k: PrKey) {
    && n < |steps| && steps[n].Record?
    && At(cfg, steps, n).db.IsOpen(k)
    && k in At(cfg, steps, n + 1).db.prs && At(cfg, steps, n + 1).db.prs[k].state == Merged
  }

  lemma OneMergeOnly(cfg: Config, steps: seq<Step>, n: nat, m: nat, k: PrKey)
    requires MergesAt(cfg, steps, n, k) && MergesAt(cfg, steps, m, k)
    ensures n == m
  {
    if n < m {
      SettledForGood(cfg, steps, n + 1, m, k);
    } else if m < n {
      SettledForGood(cfg, steps, m + 1, n, k);
    }
  }

  /** How a winning request, its pull request and the events fired for it fit together. */
  ghost predicate WinnerConsistent(cfg: Config, s: Sys, id: nat)
    requires id in s.requests
  {
    var r := s.requests[id];
    r.phase.Won() ==>
      && r.k in s.db.prs && s.db.prs[r.k].state == Merged
      && (r.phase.Notifying? ==>
            && EventsFor(s.events, r.k) == []
            && s.db.prs[r.k] == r.phase.pr
            && s.db.prs[r.k].mergeCommit == (if r.phase.commit == "" then None else Some(r.phase.commit)))
      && (r.phase.Told() && cfg.automation ==> FiredOnce(s, r))
  }

  /** Exactly one event was fired for the request's pull request, with the data that was stored. */
  ghost predicate FiredOnce(s: Sys, r: Request)
    requires r.k in s.db.prs
  {
    var pr := s.db.prs[r.k];
    exists commit :: EventsFor(s.events, r.k) == [Event(r.k, r.actor, commit, pr.sourceBranch, pr.targetBranch)]
                     && pr.mergeCommit == if commit == "" then None else Some(commit)
  }

  /** A pull request with an event is merged, has no other, and nobody is about to fire one. */
  ghost predicate EventDone(s: Sys, k: PrKey) {
    && k in s.db.prs && s.db.prs[k].state == Merged && |EventsFor(s.events, k)| == 1
    && forall id | id in s.requests && s.requests[id].k == k :: !s.requests[id].phase.Notifying?
  }

  ghost predicate Inv(cfg: Config, s: Sys) {
    && (!cfg.automation ==> s.events == [])
    && (forall id | id in s.requests :: WinnerConsistent(cfg, s, id))
    && (forall a, b | a in s.requests && b in s.requests && a != b
                      && s.requests[a].phase.Won() && s.requests[b].phase.Won() ::
          s.requests[a].k != s.requests[b].k)
    && (forall k | EventsFor(s.events, k) != [] :: EventDone(s, k))
  }

  lemma EventsForAppend(events: seq<Event>, e: Event, k: PrKey)
    ensures EventsFor(events + [e], k) == EventsFor(events, k) + (if e.k == k then [e] else [])
  {
    assert (events + [e])[..|events|] == events;
  }

  /** A step that neither wins nor fires keeps the invariant. */
  lemma QuietStep(cfg: Config, s: Sys, t: Sys)
    requires Inv(cfg, s)
    requires t.events == s.events
    requires forall k | k in s.db.prs && !s.db.IsOpen(k) :: k in t.db.prs && t.db.prs[k] == s.db.prs[k]
    requires forall id | id in t.requests && t.requests[id].phase.Won() ::
               && id in s.requests
               && (s.requests[id] == t.requests[id]
                   || (s.requests[id].phase.Answering?
                       && t.requests[id] == s.requests[id].(phase := Finished(200))))
    ensures Inv(cfg, t)
  {
    forall id | id in t.requests && t.requests[id].phase.Won()
      ensures WinnerConsistent(cfg, t, id)
    {
      assert WinnerConsistent(cfg, s, id);
      if t.requests[id].phase.Told() && cfg.automation {
        assert FiredOnce(s, s.requests[id]) && FiredOnce(t, t.requests[id]);
      }
    }
    forall k | EventsFor(t.events, k) != []
      ensures EventDone(t, k)
    {
      assert EventDone(s, k);
    }
  }

  lemma RecordStep(cfg: Config, s: Sys, id: nat)
    requires Inv(cfg, s)
    requires id in s.requests && s.requests[id].phase.Recording? && s.db.IsOpen(s.requests[id].k)
    ensures Inv(cfg, Apply(cfg, s, Record(id, false)))
  {
    var t, k := Apply(cfg, s, Record(id, false)), s.requests[id].k;
    forall a | a in s.requests && s.requests[a].phase.Won()
      ensures s.requests[a].k != k
    {
      assert WinnerConsistent(cfg, s, a);
    }
    forall a | a in t.requests
      ensures WinnerConsistent(cfg, t, a)
    {
      assert WinnerConsistent(cfg, s, a);
      var r := s.requests[a];
      if a != id && r.phase.Told() && cfg.automation {
        assert FiredOnce(s, r) && FiredOnce(t, r);
      }
    }
    forall j | EventsFor(t.events, j) != []
      ensures EventDone(t, j)
    {
      assert EventDone(s, j);
    }
  }

  /** What the notification does: with automation, the request's event is fired. */
  ghost predicate Notified(cfg: Config, s: Sys, t: Sys, id: nat)
    requires id in s.requests && s.requests[id].phase.Notifying?
  {
    var r := s.requests[id];
    var e := Event(r.k, r.actor, r.phase.commit, r.phase.pr.sourceBranch, r.phase.pr.targetBranch);
    && t.db == s.db && t.requests == s.requests[id := r.(phase := Answering)]
    && (!cfg.automation ==> t.events == s.events)
    && forall j :: EventsFor(t.events, j) == EventsFor(s.events, j) + if cfg.automation && j == r.k then [e] else []
  }

  lemma NotifyDoes(cfg: Config, s: Sys, id: nat)
    requires id in s.requests && s.requests[id].phase.Notifying?
    ensures Notified(cfg, s, Apply(cfg, s, Notify(id)), id)
  {
    var t, r := Apply(cfg, s, Notify(id)), s.requests[id];
    var e := Event(r.k, r.actor, r.phase.commit, r.phase.pr.sourceBranch, r.phase.pr.targetBranch);
    hide EventsFor;
    assert s.events + [] == s.events;
    forall j
      ensures EventsFor(t.events, j) == EventsFor(s.events, j) + if cfg.automation && j == r.k then [e] else []
    {
      EventsForAppend(s.events, e, j);
    }
  }

  lemma NotifyKeepsWinner(cfg: Config, s: Sys, t: Sys, id: nat, a: nat)
    requires Inv(cfg, s) && id in s.requests && s.requests[id].phase.Notifying? && Notified(cfg, s, t, id)
    requires a in t.requests
    ensures WinnerConsistent(cfg, t, a)
  {
    assert WinnerConsistent(cfg, s, a) && WinnerConsistent(cfg, s, id);
    hide EventsFor;
    var q := t.requests[a];
    if a == id {
      if cfg.automation {
        assert EventsFor(t.events, q.k)
            == [Event(q.k, q.actor, s.requests[id].phase.commit,
                      s.requests[id].phase.pr.sourceBranch, s.requests[id].phase.pr.targetBranch)];
      }
    } else if q.phase.Won() {
      assert q.k != s.requests[id].k;
      assert EventsFor(t.events, q.k) == EventsFor(s.events, q.k);
      if q.phase.Told() && cfg.automation {
        assert FiredOnce(s, q) && FiredOnce(t, q);
      }
    }
  }

  lemma NotifyStep(cfg: Config, s: Sys, id: nat)
    requires Inv(cfg, s)
    requires id in s.requests && s.requests[id].phase.Notifying?
    ensures Inv(cfg, Apply(cfg, s, Notify(id)))
  {
    var t := Apply(cfg, s, Notify(id));
    NotifyDoes(cfg, s, id);
    hide Apply, EventsFor;
    forall a | a in t.requests
      ensures WinnerConsistent(cfg, t, a)
    {
      NotifyKeepsWinner(cfg, s, t, id, a);
    }
    assert WinnerConsistent(cfg, s, id);
    hide WinnerConsistent;
    forall j | EventsFor(t.events, j) != []
      ensures EventDone(t, j)
    {
      if j != s.requests[id].k {
        assert EventDone(s, j);
      }
    }
  }

  lemma InvStep(cfg: Config, s: Sys, step: Step)
    requires Inv(cfg, s)
    ensures Inv(cfg, Apply(cfg, s, step))
  {
    hide Inv, Evaluated, VerdictNamed;
    if step.Record? && step.id in s.requests && s.requests[step.id].phase.Recording?
       && s.db.IsOpen(s.requests[step.id].k) && !step.replyLost {
      RecordStep(cfg, s, step.id);
    } else if step.Notify? && step.id in s.requests && s.requests[step.id].phase.Notifying? {
      NotifyStep(cfg, s, step.id);
    } else {
      forall k | k in s.db.prs && !s.db.IsOpen(k)
        ensures k in Apply(cfg, s, step).db.prs && Apply(cfg, s, step).db.prs[k] == s.db.prs[k]
      {
        SettledStep(cfg, s, step, k);
      }
      QuietStep(cfg, s, Apply(cfg, s, step));
    }
  }

  lemma {:induction false} InvAlways(cfg: Config, steps: seq<Step>, n: nat)
    requires n <= |steps|
    ensures Inv(cfg, At(cfg, steps, n))
  {
    hide Apply;
    if n > 0 {
      InvAlways(cfg, steps, n - 1);
      InvStep(cfg, At(cfg, steps, n - 1), steps[n - 1]);
    }
  }

  /** Once the winning request is past its notification, and so when it has answered 200, exactly one event
      has been fired for its pull request, with the stored commit and the pull request's own branches; before
      that none has. */
  lemma WinnerFiresOnce(cfg: Config, steps: seq<Step>, n: nat, id: nat)
    requires cfg.automation && n <= |steps| && id in At(cfg, steps, n).requests
    ensures var s := At(cfg, steps, n);
            var r := s.requests[id];
            && (r.phase.Told() ==>
                  r.k in s.db.prs && s.db.prs[r.k].state == Merged && FiredOnce(s, r))
            && (r.phase.Notifying? ==> EventsFor(s.events, r.k) == [])
  {
    InvAlways(cfg, steps, n);
    assert WinnerConsistent(cfg, At(cfg, steps, n), id);
  }

  /** No pull request ever has two winners or two events, and events are only fired for merged ones. */
  lemma AtMostOneWinner(cfg: Config, steps: seq<Step>, n: nat, k: PrKey)
    requires n <= |steps|
    ensures var s := At(cfg, steps, n);
            && (forall a, b | a in s.requests && b in s.requests && s.requests[a].k == s.requests[b].k == k
                  && s.requests[a].phase.Won() && s.requests[b].phase.Won() :: a == b)
            && (EventsFor(s.events, k) != [] ==>
                  k in s.db.prs && s.db.prs[k].state == Merged && |EventsFor(s.events, k)| == 1)
  {
    var s := At(cfg, steps, n);
    InvAlways(cfg, steps, n);
    if EventsFor(s.events, k) != [] {
      assert EventDone(s, k);
    }
  }

  // ---- Reviews: the table is the history ----

  /** The reviewer's most recent accepted review among the first n steps, as it was spelt. */
  function LatestReview(cfg: Config, steps: seq<Step>, n: nat, k: PrKey, reviewer: string): Option<string>
    requires n <= |steps|
  {
    if n == 0 then None
    else
      var step := steps[n - 1];
      if step.PutReview? && step.k == k && step.reviewer == reviewer
         && Accepted(step.verdict) && At(cfg, steps, n - 1).db.IsOpen(k)
      then Some(step.verdict)
      else LatestReview(cfg, steps, n - 1, k, reviewer)
  }

  /** The reviewers whose most recent accepted review says "approved". */
  function Approving(cfg: Config, steps: seq<Step>, n: nat, k: PrKey): set<string>
    requires n <= |steps|
  {
    set i | 0 <= i < n && steps[i].PutReview?
            && LatestReview(cfg, steps, n, k, steps[i].reviewer) == Some("approved") :: steps[i].reviewer
  }

  lemma ReviewStep(cfg: Config, s: Sys, step: Step, k: PrKey, reviewer: string)
    ensures var t := Apply(cfg, s, step);
            if step.PutReview? && step.k == k && step.reviewer == reviewer
               && Accepted(step.verdict) && s.db.IsOpen(k)
            then
              && (k, reviewer) in t.db.reviews
              && VerdictNamed(step.verdict) == Some(t.db.reviews[(k, reviewer)].verdict)
            else
              && ((k, reviewer) in t.db.reviews <==> (k, reviewer) in s.db.reviews)
              && ((k, reviewer) in s.db.reviews ==>
                    t.db.reviews[(k, reviewer)] == s.db.reviews[(k, reviewer)])
  {
    if step.PutReview? {
      VerdictNamedIff(step.verdict);
    }
    hide Evaluated, VerdictNamed, Accepted;
  }

  lemma {:induction false} ReviewTableNames(cfg: Config, steps: seq<Step>, n: nat, k: PrKey, reviewer: string)
    requires n <= |steps|
    ensures var reviews, latest := At(cfg, steps, n).db.reviews, LatestReview(cfg, steps, n, k, reviewer);
            && ((k, reviewer) in reviews <==> latest.Some?)
            && (latest.Some? ==> VerdictNamed(latest.value) == Some(reviews[(k, reviewer)].verdict))
  {
    hide Apply, VerdictNamed, Accepted;
    if n > 0 {
      ReviewTableNames(cfg, steps, n - 1, k, reviewer);
      ReviewStep(cfg, At(cfg, steps, n - 1), steps[n - 1], k, reviewer);
    }
  }

  /** A reviewer has a row exactly when a review of theirs was accepted, and it says what the last one said:
      approved, changes requested, or neither of them for a comment. */
  lemma ReviewTableIsHistory(cfg: Config, steps: seq<Step>, n: nat, k: PrKey, reviewer: string)
    requires n <= |steps|
    ensures var reviews, latest := At(cfg, steps, n).db.reviews, LatestReview(cfg, steps, n, k, reviewer);
            && ((k, reviewer) in reviews <==> latest.Some?)
            && (latest.Some? ==>
                  var verdict := reviews[(k, reviewer)].verdict;
                  && (verdict == Approved <==> latest == Some("approved"))
                  && (verdict == ChangesRequested <==> latest == Some("changes_requested"))
                  && (verdict == Commented <==> latest == Some("commented")))
  {
    ReviewTableNames(cfg, steps, n, k, reviewer);
    var latest := LatestReview(cfg, steps, n, k, reviewer);
    if latest.Some? {
      VerdictNamedIff(latest.value);
    }
    hide At, VerdictNamed, Accepted, LatestReview;
  }

  lemma {:induction false} ReviewsComeFromSteps(cfg: Config, steps: seq<Step>, n: nat, k: PrKey, reviewer: string)
    requires n <= |steps| && LatestReview(cfg, steps, n, k, reviewer).Some?
    ensures exists i :: 0 <= i < n && steps[i].PutReview? && steps[i].reviewer == reviewer
  {
    hide Apply, Accepted;
    if n > 0 {
      var step := steps[n - 1];
      if !(step.PutReview? && step.reviewer == reviewer) {
        ReviewsComeFromSteps(cfg, steps, n - 1, k, reviewer);
      }
    }
  }

  /** The upserted table counts exactly the reviewers whose most recent accepted review says "approved". */
  lemma ApproversAreApproving(cfg: Config, steps: seq<Step>, n: nat, k: PrKey)
    requires n <= |steps|
    ensures At(cfg, steps, n).db.Approvers(k) == Approving(cfg, steps, n, k)
    ensures forall reviewer :: reviewer in At(cfg, steps, n).db.Approvers(k) <==>
              LatestReview(cfg, steps, n, k, reviewer) == Some("approved")
  {
    var db := At(cfg, steps, n).db;
    hide At, LatestReview;
    forall reviewer
      ensures reviewer in db.Approvers(k) <==> reviewer in Approving(cfg, steps, n, k)
      ensures reviewer in db.Approvers(k) <==> LatestReview(cfg, steps, n, k, reviewer) == Some("approved")
    {
      ReviewTableIsHistory(cfg, steps, n, k, reviewer);
      if (k, reviewer) in db.reviews && db.reviews[(k, reviewer)].verdict == Approved {
        ReviewsComeFromSteps(cfg, steps, n, k, reviewer);
        assert (k, reviewer).1 in db.Approvers(k);
      }
    }
  }

  // ---- Protection: the table is the history ----

  /** The rule the most recent accepted edit of a branch's protection left, if any. */
  function RuleInForce(steps: seq<Step>, n: nat, b: BranchKey): Option<Protection>
    requires n <= |steps|
  {
    if n == 0 then None
    else
      match steps[n - 1]
      case PutProtection(at, p) =>
        if at == b && b.branch != "" && p.requiredApprovals >= 0 then Some(p) else RuleInForce(steps, n - 1, b)
      case DeleteProtection(at) => if at == b then None else RuleInForce(steps, n - 1, b)
      case _ => RuleInForce(steps, n - 1, b)
  }

  lemma RuleStep(cfg: Config, s: Sys, step: Step, b: BranchKey)
    ensures var t := Apply(cfg, s, step).db.protections;
            match step
            case PutProtection(at, p) =>
              if at == b && b.branch != "" && p.requiredApprovals >= 0 then b in t && t[b] == p
              else (b in t <==> b in s.db.protections) && (b in t ==> t[b] == s.db.protections[b])
            case DeleteProtection(at) =>
              if at == b then b !in t
              else (b in t <==> b in s.db.protections) && (b in t ==> t[b] == s.db.protections[b])
            case _ => t == s.db.protections
  {
    hide Evaluated, VerdictNamed;
  }

  lemma {:induction false} RuleTableIsHistory(cfg: Config, steps: seq<Step>, n: nat, b: BranchKey)
    requires n <= |steps|
    ensures var rules := At(cfg, steps, n).db.protections;
            RuleInForce(steps, n, b) == if b in rules then Some(rules[b]) else None
  {
    hide Apply;
    if n > 0 {
      RuleTableIsHistory(cfg, steps, n - 1, b);
      RuleStep(cfg, At(cfg, steps, n - 1), steps[n - 1], b);
    }
  }

  // ---- Every merged pull request was gated ----

  /** Approvals that the history of the target branch's rule asks for; none without a rule. */
  function ApprovalsAsked(cfg: Config, steps: seq<Step>, n: nat, k: PrKey): int
    requires n <= |steps| && k in At(cfg, steps, n).db.prs
  {
    var rule := RuleInForce(steps, n, BranchKey(k.repository, At(cfg, steps, n).db.prs[k].targetBranch));
    if rule.Some? then rule.value.requiredApprovals else 0
  }

  /** The gate stands open: the pull request is open and enough of its reviewers' latest verdicts approve. */
  ghost predicate GateMet(cfg: Config, steps: seq<Step>, n: nat, k: PrKey)
    requires n <= |steps|
  {
    && At(cfg, steps, n).db.IsOpen(k)
    && |Approving(cfg, steps, n, k)| >= ApprovalsAsked(cfg, steps, n, k)
  }

  /** The gate of the history is the gate of the tables. */
  lemma GateOfTables(cfg: Config, steps: seq<Step>, n: nat, k: PrKey)
    requires n <= |steps|
    ensures var db := At(cfg, steps, n).db;
            GateMet(cfg, steps, n, k) <==> db.IsOpen(k) && |db.Approvers(k)| >= db.Required(k)
  {
    ApproversAreApproving(cfg, steps, n, k);
    var db := At(cfg, steps, n).db;
    if k in db.prs {
      RuleTableIsHistory(cfg, steps, n, BranchKey(k.repository, db.prs[k].targetBranch));
    }
    hide At, Approving, Db.Approvers, RuleInForce;
  }

  /** Step n is the check that lets request `id` through. */
  ghost predicate LetThrough(cfg: Config, steps: seq<Step>, n: nat, id: nat) {
    && n < |steps| && steps[n].Check? && steps[n].id == id
    && id in At(cfg, steps, n).requests
    && At(cfg, steps, n).requests[id].phase.Checking?
    && At(cfg, steps, n).db.IsOpen(At(cfg, steps, n).requests[id].k)
    && (steps[n].lookupOk ==> GateMet(cfg, steps, n, At(cfg, steps, n).requests[id].k))
  }

  predicate Past(phase: Phase) {
    phase.Fetching? || phase.Merging? || phase.Recording?
  }

  lemma PastStep(cfg: Config, s: Sys, step: Step, id: nat)
    requires id in Apply(cfg, s, step).requests && Past(Apply(cfg, s, step).requests[id].phase)
    ensures id in s.requests && s.requests[id].k == Apply(cfg, s, step).requests[id].k
    ensures Past(s.requests[id].phase)
         || (s.requests[id].phase.Checking? && step.Check? && step.id == id
             && Evaluated(s.db, s.requests[id].k, step.lookupOk).Ok?
             && Evaluated(s.db, s.requests[id].k, step.lookupOk).value.mergable)
  {
    hide Evaluated, Reviewed, Protected, Unprotected, VerdictNamed;
  }

  lemma {:induction false} PastWasLetThrough(cfg: Config, steps: seq<Step>, n: nat, id: nat) returns (c: nat)
    requires n <= |steps| && id in At(cfg, steps, n).requests && Past(At(cfg, steps, n).requests[id].phase)
    ensures c < n && LetThrough(cfg, steps, c, id)
    ensures At(cfg, steps, c).requests[id].k == At(cfg, steps, n).requests[id].k
  {
    hide Apply;
    var s := At(cfg, steps, n - 1);
    PastStep(cfg, s, steps[n - 1], id);
    if Past(s.requests[id].phase) {
      c := PastWasLetThrough(cfg, steps, n - 1, id);
    } else {
      c := n - 1;
      MergableIff(s.db, s.requests[id].k, steps[c].lookupOk);
      GateOfTables(cfg, steps, c, s.requests[id].k);
    }
  }

  lemma MergedStep(cfg: Config, s: Sys, step: Step, k: PrKey)
    requires k in Apply(cfg, s, step).db.prs && Apply(cfg, s, step).db.prs[k].state == Merged
    requires !(k in s.db.prs && s.db.prs[k].state == Merged)
    ensures s.db.IsOpen(k)
    ensures step.Record? && step.id in s.requests && s.requests[step.id].k == k && s.requests[step.id].phase.Recording?
    ensures Apply(cfg, s, step).db.prs[k]
         == s.db.prs[k].(state := Merged,
                         mergeCommit := var commit := s.requests[step.id].phase.commit;
                                        if commit == "" then None else Some(commit))
  {
    hide Evaluated, VerdictNamed;
  }

  /** Whatever reviews and protection edits came between, a merged pull request was merged, once, by a
      request whose own check had found the gate met (or could not read the rule). */
  lemma {:induction false} EveryMergeWasGated(cfg: Config, steps: seq<Step>, n: nat, k: PrKey)
      returns (check: nat, update: nat)
    requires n <= |steps| && k in At(cfg, steps, n).db.prs && At(cfg, steps, n).db.prs[k].state == Merged
    ensures check < update < n && MergesAt(cfg, steps, update, k)
    ensures LetThrough(cfg, steps, check, steps[update].id)
    ensures At(cfg, steps, check).requests[steps[update].id].k == k
  {
    hide Apply;
    var s := At(cfg, steps, n - 1);
    if k in s.db.prs && s.db.prs[k].state == Merged {
      check, update := EveryMergeWasGated(cfg, steps, n - 1, k);
    } else {
      update := n - 1;
      MergedStep(cfg, s, steps[update], k);
      check := PastWasLetThrough(cfg, steps, update, steps[update].id);
    }
  }

  /** With readable rules: an earlier state of the run had it open with the approvals required then. */
  lemma MergedOnlyAfterApproval(cfg: Config, steps: seq<Step>, n: nat, k: PrKey)
    requires forall i | 0 <= i < |steps| && steps[i].Check? :: steps[i].lookupOk
    requires n <= |steps| && k in At(cfg, steps, n).db.prs && At(cfg, steps, n).db.prs[k].state == Merged
    ensures exists c | 0 <= c < n :: GateMet(cfg, steps, c, k)
  {
    var c, u := EveryMergeWasGated(cfg, steps, n, k);
    assert GateMet(cfg, steps, c, k);
  }

  // ---- The stored commit is the one git pushed for these branches ----

  lemma BranchesFixedStep(cfg: Config, s: Sys, step: Step, k: PrKey)
    requires k in s.db.prs
    ensures k in Apply(cfg, s, step).db.prs
    ensures Apply(cfg, s, step).db.prs[k].sourceBranch == s.db.prs[k].sourceBranch
    ensures Apply(cfg, s, step).db.prs[k].targetBranch == s.db.prs[k].targetBranch
  {
    hide Evaluated, VerdictNamed;
  }

  lemma {:induction false} BranchesFixed(cfg: Config, steps: seq<Step>, n: nat, m: nat, k: PrKey)
    requires n <= m <= |steps| && k in At(cfg, steps, n).db.prs
    ensures k in At(cfg, steps, m).db.prs
    ensures At(cfg, steps, m).db.prs[k].sourceBranch == At(cfg, steps, n).db.prs[k].sourceBranch
    ensures At(cfg, steps, m).db.prs[k].targetBranch == At(cfg, steps, n).db.prs[k].targetBranch
  {
    hide Apply;
    if n < m {
      BranchesFixed(cfg, steps, n, m - 1, k);
      BranchesFixedStep(cfg, At(cfg, steps, m - 1), steps[m - 1], k);
    }
  }

  /** Request `id` is in git with the pull request's own branches. */
  ghost predicate MergesOwnBranches(s: Sys, id: nat) {
    && id in s.requests && s.requests[id].phase.Merging? && s.requests[id].k in s.db.prs
    && s.db.prs[s.requests[id].k].sourceBranch == s.requests[id].phase.source
    && s.db.prs[s.requests[id].k].targetBranch == s.requests[id].phase.target
  }

  lemma MergingStep(cfg: Config, s: Sys, step: Step, id: nat)
    requires id in Apply(cfg, s, step).requests && Apply(cfg, s, step).requests[id].phase.Merging?
    requires id in s.requests && s.requests[id].phase.Merging? ==> MergesOwnBranches(s, id)
    ensures MergesOwnBranches(Apply(cfg, s, step), id)
  {
    hide Evaluated, VerdictNamed;
    if id in s.requests && s.requests[id].k in s.db.prs {
      BranchesFixedStep(cfg, s, step, s.requests[id].k);
    }
  }

  lemma {:induction false} MergingNamesOwnBranches(cfg: Config, steps: seq<Step>, n: nat, id: nat)
    requires n <= |steps| && id in At(cfg, steps, n).requests && At(cfg, steps, n).requests[id].phase.Merging?
    ensures MergesOwnBranches(At(cfg, steps, n), id)
  {
    hide Apply;
    var s := At(cfg, steps, n - 1);
    if id in s.requests && s.requests[id].phase.Merging? {
      MergingNamesOwnBranches(cfg, steps, n - 1, id);
    }
    MergingStep(cfg, s, steps[n - 1], id);
  }

  lemma RecordingStep(cfg: Config, s: Sys, step: Step, id: nat)
    requires cfg.merger
    requires id in Apply(cfg, s, step).requests && Apply(cfg, s, step).requests[id].phase.Recording?
    ensures id in s.requests && s.requests[id].k == Apply(cfg, s, step).requests[id].k
    ensures var commit := Apply(cfg, s, step).requests[id].phase.commit;
            || s.requests[id].phase == Recording(commit)
            || (s.requests[id].phase.Merging? && step == Git(id, Pushed(commit)))
  {
    hide Evaluated, VerdictNamed;
  }

  lemma {:induction false} RecordingFromGit(cfg: Config, steps: seq<Step>, n: nat, id: nat) returns (g: nat)
    requires cfg.merger
    requires n <= |steps| && id in At(cfg, steps, n).requests && At(cfg, steps, n).requests[id].phase.Recording?
    ensures g < n && MergesOwnBranches(At(cfg, steps, g), id)
    ensures steps[g] == Git(id, Pushed(At(cfg, steps, n).requests[id].phase.commit))
    ensures At(cfg, steps, g).requests[id].k == At(cfg, steps, n).requests[id].k
  {
    hide Apply;
    var s := At(cfg, steps, n - 1);
    RecordingStep(cfg, s, steps[n - 1], id);
    if s.requests[id].phase.Recording? {
      g := RecordingFromGit(cfg, steps, n - 1, id);
    } else {
      g := n - 1;
      MergingNamesOwnBranches(cfg, steps, g, id);
    }
  }

  /** With git configured, the stored merge commit is the hash that git pushed, for the pull request's own
      branches, to the request that merged it. */
  lemma {:induction false} MergeCommitCameFromGit(cfg: Config, steps: seq<Step>, n: nat, k: PrKey)
      returns (g: nat)
    requires cfg.merger
    requires n <= |steps| && k in At(cfg, steps, n).db.prs && At(cfg, steps, n).db.prs[k].state == Merged
    ensures g < n && steps[g].Git? && steps[g].outcome.Pushed?
    ensures MergesOwnBranches(At(cfg, steps, g), steps[g].id) && At(cfg, steps, g).requests[steps[g].id].k == k
    ensures At(cfg, steps, n).db.prs[k].mergeCommit
         == if steps[g].outcome.hash == "" then None else Some(steps[g].outcome.hash)
  {
    hide Apply;
    var s := At(cfg, steps, n - 1);
    if k in s.db.prs && s.db.prs[k].state == Merged {
      g := MergeCommitCameFromGit(cfg, steps, n - 1, k);
      SettledStep(cfg, s, steps[n - 1], k);
    } else {
      MergedStep(cfg, s, steps[n - 1], k);
      g := RecordingFromGit(cfg, steps, n - 1, steps[n - 1].id);
    }
  }

  // ---- Without git, and what the check answers ----

  lemma CommitIsEmptyStep(cfg: Config, s: Sys, step: Step, id: nat)
    requires !cfg.merger && id in Apply(cfg, s, step).requests
    requires id in s.requests ==> !s.requests[id].phase.Fetching? && !s.requests[id].phase.Merging?
    requires id in s.requests && s.requests[id].phase.Recording? ==> s.requests[id].phase.commit == ""
    ensures var phase := Apply(cfg, s, step).requests[id].phase;
            !phase.Fetching? && !phase.Merging? && (phase.Recording? ==> phase.commit == "")
  {
    hide Evaluated, VerdictNamed;
  }

  lemma {:induction false} CommitIsEmpty(cfg: Config, steps: seq<Step>, n: nat, id: nat)
    requires !cfg.merger && n <= |steps| && id in At(cfg, steps, n).requests
    ensures var phase := At(cfg, steps, n).requests[id].phase;
            !phase.Fetching? && !phase.Merging? && (phase.Recording? ==> phase.commit == "")
  {
    hide Apply;
    if n > 0 {
      if id in At(cfg, steps, n - 1).requests {
        CommitIsEmpty(cfg, steps, n - 1, id);
      }
      CommitIsEmptyStep(cfg, At(cfg, steps, n - 1), steps[n - 1], id);
    }
  }

  /** Without git, only the state of a pull request is recorded: no merged one has a commit. */
  lemma {:induction false} NoCommitWithoutGit(cfg: Config, steps: seq<Step>, n: nat, k: PrKey)
    requires !cfg.merger
    requires n <= |steps| && k in At(cfg, steps, n).db.prs && At(cfg, steps, n).db.prs[k].state == Merged
    ensures At(cfg, steps, n).db.prs[k].mergeCommit == None
  {
    hide Apply;
    var s := At(cfg, steps, n - 1);
    if k in s.db.prs && s.db.prs[k].state == Merged {
      NoCommitWithoutGit(cfg, steps, n - 1, k);
      SettledStep(cfg, s, steps[n - 1], k);
    } else {
      MergedStep(cfg, s, steps[n - 1], k);
      CommitIsEmpty(cfg, steps, n - 1, steps[n - 1].id);
    }
  }

  lemma NotFoundOnly(db: Db, k: PrKey, lookupOk: bool)
    ensures k !in db.prs ==> Evaluated(db, k, lookupOk) == Err(NotFound)
  {
  }

  /** A request that its check stops is told 404 exactly when there is no such pull request, and 422 exactly
      when the gate, as far as the rule could be read, is not met; otherwise it goes on. */
  lemma CheckAnswers(cfg: Config, steps: seq<Step>, n: nat, id: nat)
    requires n < |steps| && steps[n].Check? && steps[n].id == id
    requires id in At(cfg, steps, n).requests && At(cfg, steps, n).requests[id].phase.Checking?
    ensures id in At(cfg, steps, n + 1).requests
    ensures var k, db := At(cfg, steps, n).requests[id].k, At(cfg, steps, n).db;
            var phase := At(cfg, steps, n + 1).requests[id].phase;
            var lets := db.IsOpen(k) && (steps[n].lookupOk ==> GateMet(cfg, steps, n, k));
            && (phase == Finished(404) <==> k !in db.prs)
            && (phase == Finished(422) <==> k in db.prs && !lets)
            && (lets <==> phase == if cfg.merger then Fetching else Recording(""))
  {
    var s, lookupOk := At(cfg, steps, n), steps[n].lookupOk;
    var k := s.requests[id].k;
    GateOfTables(cfg, steps, n, k);
    if k in s.db.prs {
      MergableIff(s.db, k, lookupOk);
    }
    assert At(cfg, steps, n + 1) == Moved(s, id, AfterCheck(cfg, Evaluated(s.db, k, lookupOk)));
    AnswerIs(s.db, k, lookupOk);
    hide At, Evaluated, GateMet;
    NotFoundOnly(s.db, k, lookupOk);
  }

  /** And git's failure is answered 409, its success goes on to the update with its hash. */
  lemma GitAnswers(cfg: Config, steps: seq<Step>, n: nat, id: nat)
    requires n < |steps| && steps[n].Git? && steps[n].id == id
    requires id in At(cfg, steps, n).requests && At(cfg, steps, n).requests[id].phase.Merging?
    ensures id in At(cfg, steps, n + 1).requests
    ensures At(cfg, steps, n + 1).requests[id].phase
         == match steps[n].outcome case Pushed(hash) => Recording(hash) case Failed => Finished(409)
    ensures At(cfg, steps, n + 1).db == At(cfg, steps, n).db
  {
    hide Evaluated, VerdictNamed;
  }

  /** Closing an open pull request keeps everything from merging it, and leaves it without a commit. */
  lemma ClosedForGood(cfg: Config, steps: seq<Step>, n: nat, m: nat, k: PrKey)
    requires n < m <= |steps| && steps[n] == ClosePr(k) && At(cfg, steps, n).db.IsOpen(k)
    ensures k in At(cfg, steps, m).db.prs
    ensures At(cfg, steps, m).db.prs[k] == At(cfg, steps, n).db.prs[k].(state := Closed, mergeCommit := None)
  {
    SettledForGood(cfg, steps, n + 1, m, k);
  }
}
