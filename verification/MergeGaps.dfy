/** Where the merge protocol promises less than one might read into it, and exactly when: the gate at the
  update, the push of a request that loses, and the event of a merge. */
module MergeGaps {
  import opened Collab
  import opened MergeProtocol
  import opened Wrappers

  // ---- The gate between the check and the update ----

  /** The gate as the tables have it. */
  predicate GateOpen(db: Db, k: PrKey) {
    db.IsOpen(k) && |db.Approvers(k)| >= db.Required(k)
  }

  predicate RulesTarget(db: Db, b: BranchKey, k: PrKey)
    requires k in db.prs
  {
    b == BranchKey(k.repository, db.prs[k].targetBranch)
  }

  /** A review that takes back an approval the rule needs, or a rule that asks for more than there are. */
  predicate Shuts(db: Db, step: Step, k: PrKey)
    requires k in db.prs
  {
    match step
    case PutReview(j, reviewer, verdict, _) =>
      && j == k && (verdict == "changes_requested" || verdict == "commented")
      && reviewer in db.Approvers(k) && |db.Approvers(k)| == db.Required(k)
    case PutProtection(b, p) =>
      RulesTarget(db, b, k) && b.branch != "" && p.requiredApprovals > |db.Approvers(k)|
    case _ => false
  }

  /** The one approval that is missing, a rule that asks for no more than there are, or no rule. */
  predicate Reopens(db: Db, step: Step, k: PrKey)
    requires k in db.prs
  {
    match step
    case PutReview(j, reviewer, verdict, _) =>
      && j == k && verdict == "approved"
      && reviewer !in db.Approvers(k) && |db.Approvers(k)| + 1 == db.Required(k)
    case PutProtection(b, p) =>
      RulesTarget(db, b, k) && b.branch != "" && 0 <= p.requiredApprovals <= |db.Approvers(k)|
    case DeleteProtection(b) => RulesTarget(db, b, k)
    case _ => false
  }

  /** What a review does to the approvers. */
  lemma ApproversAfter(db: Db, k: PrKey, reviewer: string, verdict: Verdict, text: string)
    requires db.IsOpen(k)
    ensures var t := Reviewed(db, k, reviewer, Some(verdict), text).0;
            t.Approvers(k) == if verdict == Approved then db.Approvers(k) + {reviewer}
                              else db.Approvers(k) - {reviewer}
  {
    var t := Reviewed(db, k, reviewer, Some(verdict), text).0;
    assert t.reviews == db.reviews[(k, reviewer) := Review(verdict, text)];
    forall r
      ensures r in t.Approvers(k) <==> if r == reviewer then verdict == Approved else r in db.Approvers(k)
    {
      assert (k, r) in db.reviews && r != reviewer ==> t.reviews[(k, r)] == db.reviews[(k, r)];
      if r in t.Approvers(k) {
        assert (k, r) in t.reviews;
      }
      if r in db.Approvers(k) {
        assert (k, r) in db.reviews;
      }
      if r == reviewer {
        assert (k, r) in t.reviews && t.reviews[(k, r)].verdict == verdict;
        assert (k, r).1 == r;
      }
    }
  }

  lemma ReviewsOnly(db: Db, k: PrKey, reviewer: string, verdict: Verdict, text: string)
    ensures var t := Reviewed(db, k, reviewer, Some(verdict), text).0;
            t.prs == db.prs && t.protections == db.protections
  {
  }

  lemma CountAfter(names: set<string>, name: string)
    ensures |names + {name}| == if name in names then |names| else |names| + 1
    ensures |names - {name}| == if name in names then |names| - 1 else |names|
  {
    assert name in names ==> names + {name} == names;
    assert name !in names ==> names - {name} == names;
  }

  lemma ReviewMovesGate(db: Db, step: Step, k: PrKey)
    requires step.PutReview? && step.k == k && Accepted(step.verdict) && db.IsOpen(k)
    ensures var t := Reviewed(db, k, step.reviewer, VerdictNamed(step.verdict), step.text).0;
            && (GateOpen(db, k) ==> (GateOpen(t, k) <==> !Shuts(db, step, k)))
            && (!GateOpen(db, k) ==> (GateOpen(t, k) <==> Reopens(db, step, k)))
  {
    VerdictNamedIff(step.verdict);
    var verdict := VerdictNamed(step.verdict).value;
    hide VerdictNamed, Db.Approvers;
    ApproversAfter(db, k, step.reviewer, verdict, step.text);
    CountAfter(db.Approvers(k), step.reviewer);
    ReviewsOnly(db, k, step.reviewer, verdict, step.text);
    hide Reviewed;
    var t := Reviewed(db, k, step.reviewer, Some(verdict), step.text).0;
    assert t.Required(k) == db.Required(k) && t.IsOpen(k);
    hide Db.Required, Db.IsOpen, RulesTarget;
  }

  /** The reviews of a pull request change only by its own reviews. */
  lemma ApproversKept(cfg: Config, s: Sys, step: Step, k: PrKey)
    requires !(step.PutReview? && step.k == k && Accepted(step.verdict) && s.db.IsOpen(k))
    ensures Apply(cfg, s, step).db.Approvers(k) == s.db.Approvers(k)
  {
    var t := Apply(cfg, s, step).db;
    forall r
      ensures r in t.Approvers(k) <==> r in s.db.Approvers(k)
    {
      ReviewStep(cfg, s, step, k, r);
      hide Apply, VerdictNamed, Accepted;
      if r in t.Approvers(k) {
        assert (k, r) in t.reviews;
      }
      if r in s.db.Approvers(k) {
        assert (k, r) in s.db.reviews;
      }
      if (k, r) in s.db.reviews {
        assert (k, r).1 == r;
      }
    }
  }

  /** While a pull request stays open, a step moves its gate exactly in the cases named above. */
  lemma GateMovesIff(cfg: Config, s: Sys, step: Step, k: PrKey)
    requires s.db.IsOpen(k) && Apply(cfg, s, step).db.IsOpen(k)
    ensures GateOpen(s.db, k) ==> (!GateOpen(Apply(cfg, s, step).db, k) <==> Shuts(s.db, step, k))
    ensures !GateOpen(s.db, k) ==> (GateOpen(Apply(cfg, s, step).db, k) <==> Reopens(s.db, step, k))
  {
    var t := Apply(cfg, s, step).db;
    if step.PutReview? && step.k == k && Accepted(step.verdict) {
      ReviewMovesGate(s.db, step, k);
    } else {
      ApproversKept(cfg, s, step, k);
      BranchesFixedStep(cfg, s, step, k);
      RuleStep(cfg, s, step, BranchKey(k.repository, s.db.prs[k].targetBranch));
      hide Apply, VerdictNamed, Db.Approvers;
    }
  }

  ghost predicate ShutsAt(cfg: Config, steps: seq<Step>, i: nat, k: PrKey) {
    i < |steps| && k in At(cfg, steps, i).db.prs && Shuts(At(cfg, steps, i).db, steps[i], k)
  }

  ghost predicate ReopensAt(cfg: Config, steps: seq<Step>, i: nat, k: PrKey) {
    i < |steps| && k in At(cfg, steps, i).db.prs && Reopens(At(cfg, steps, i).db, steps[i], k)
  }

  ghost predicate MadeUpFor(cfg: Config, steps: seq<Step>, i: nat, u: nat, k: PrKey) {
    exists j | i < j < u :: ReopensAt(cfg, steps, j, k)
  }

  /** Every step from c on that shuts the gate is followed, before u, by one that opens it again. */
  ghost predicate AllReopened(cfg: Config, steps: seq<Step>, c: nat, u: nat, k: PrKey) {
    forall i | c <= i < u && ShutsAt(cfg, steps, i, k) :: MadeUpFor(cfg, steps, i, u, k)
  }

  lemma WasOpen(cfg: Config, steps: seq<Step>, c: nat, m: nat, u: nat, k: PrKey)
    requires c <= m <= u <= |steps| && k in At(cfg, steps, c).db.prs && At(cfg, steps, u).db.IsOpen(k)
    ensures At(cfg, steps, m).db.IsOpen(k)
  {
    BranchesFixed(cfg, steps, c, m, k);
    if !At(cfg, steps, m).db.IsOpen(k) {
      SettledForGood(cfg, steps, m, u, k);
    }
  }

  lemma NotBoth(cfg: Config, steps: seq<Step>, i: nat, k: PrKey)
    ensures !(ReopensAt(cfg, steps, i, k) && ShutsAt(cfg, steps, i, k))
  {
    hide At, Db.Approvers;
  }

  lemma MadeUpNext(cfg: Config, steps: seq<Step>, i: nat, u: nat, k: PrKey)
    requires i < u
    ensures MadeUpFor(cfg, steps, i, u + 1, k) <==>
              MadeUpFor(cfg, steps, i, u, k) || ReopensAt(cfg, steps, u, k)
  {
    hide ReopensAt;
  }

  lemma AllReopenedNext(cfg: Config, steps: seq<Step>, c: nat, u: nat, k: PrKey)
    requires c <= u
    ensures AllReopened(cfg, steps, c, u + 1, k) <==>
              ReopensAt(cfg, steps, u, k) || (AllReopened(cfg, steps, c, u, k) && !ShutsAt(cfg, steps, u, k))
  {
    NotBoth(cfg, steps, u, k);
    assert !MadeUpFor(cfg, steps, u, u + 1, k);
    forall i | c <= i < u
      ensures MadeUpFor(cfg, steps, i, u + 1, k) <==>
                MadeUpFor(cfg, steps, i, u, k) || ReopensAt(cfg, steps, u, k)
    {
      MadeUpNext(cfg, steps, i, u, k);
    }
    hide ReopensAt, ShutsAt, MadeUpFor;
    assert AllReopened(cfg, steps, c, u + 1, k) <==>
             (forall i | c <= i < u && ShutsAt(cfg, steps, i, k) :: MadeUpFor(cfg, steps, i, u + 1, k))
             && (ShutsAt(cfg, steps, u, k) ==> MadeUpFor(cfg, steps, u, u + 1, k));
  }

  /** A gate met at c is met at u, if the pull request is still open, exactly when all that shut it in
      between was made up for. */
  lemma {:induction false} GateStaysIff(cfg: Config, steps: seq<Step>, c: nat, u: nat, k: PrKey)
    requires c <= u <= |steps| && GateMet(cfg, steps, c, k) && At(cfg, steps, u).db.IsOpen(k)
    ensures GateMet(cfg, steps, u, k) <==> AllReopened(cfg, steps, c, u, k)
    decreases u
  {
    hide Apply, Shuts, Reopens, GateMet;
    GateOfTables(cfg, steps, c, k);
    if c < u {
      WasOpen(cfg, steps, c, u - 1, u, k);
      GateStaysIff(cfg, steps, c, u - 1, k);
      GateMovesIff(cfg, At(cfg, steps, u - 1), steps[u - 1], k);
      GateOfTables(cfg, steps, u - 1, k);
      GateOfTables(cfg, steps, u, k);
      AllReopenedNext(cfg, steps, c, u - 1, k);
      assert GateMet(cfg, steps, u, k) <==>
             if GateMet(cfg, steps, u - 1, k) then !ShutsAt(cfg, steps, u - 1, k) else ReopensAt(cfg, steps, u - 1, k);
    }
  }

  /** So a merge whose own check could read the rule finds its gate met exactly when whatever shut it after
      that check was made up for before the update. */
  lemma MergedWithGateMetIff(cfg: Config, steps: seq<Step>, n: nat, k: PrKey) returns (check: nat, update: nat)
    requires n <= |steps| && k in At(cfg, steps, n).db.prs && At(cfg, steps, n).db.prs[k].state == Merged
    ensures check < update < n && MergesAt(cfg, steps, update, k)
    ensures LetThrough(cfg, steps, check, steps[update].id)
    ensures steps[check].lookupOk ==>
              && GateMet(cfg, steps, check, k)
              && (GateMet(cfg, steps, update, k) <==> AllReopened(cfg, steps, check, update, k))
  {
    hide Apply, GateMet;
    check, update := EveryMergeWasGated(cfg, steps, n, k);
    if steps[check].lookupOk {
      GateStaysIff(cfg, steps, check, update, k);
    }
  }

  // ---- The push of a request that loses ----

  /** Step m settles the pull request, by closing or by merging it. */
  ghost predicate SettlesAt(cfg: Config, steps: seq<Step>, m: nat, k: PrKey) {
    m < |steps| && At(cfg, steps, m).db.IsOpen(k) && !At(cfg, steps, m + 1).db.IsOpen(k)
  }

  lemma {:induction false} SettledBetween(cfg: Config, steps: seq<Step>, c: nat, n: nat, k: PrKey)
    requires c <= n <= |steps| && At(cfg, steps, c).db.IsOpen(k)
    ensures At(cfg, steps, n).db.IsOpen(k) <==> !exists m | c <= m < n :: SettlesAt(cfg, steps, m, k)
  {
    hide Apply;
    if c < n {
      SettledBetween(cfg, steps, c, n - 1, k);
      BranchesFixed(cfg, steps, c, n - 1, k);
      if !At(cfg, steps, n - 1).db.IsOpen(k) {
        var m :| c <= m < n - 1 && SettlesAt(cfg, steps, m, k);
        SettledForGood(cfg, steps, n - 1, n, k);
      } else if At(cfg, steps, n).db.IsOpen(k) {
        assert forall m | c <= m < n :: m < n - 1 || !SettlesAt(cfg, steps, m, k);
      } else {
        assert SettlesAt(cfg, steps, n - 1, k);
      }
    }
  }

  lemma CheckSettlesNothing(cfg: Config, steps: seq<Step>, c: nat, k: PrKey)
    requires c < |steps| && steps[c].Check?
    ensures !SettlesAt(cfg, steps, c, k)
  {
    hide Evaluated;
  }

  lemma RecordAnswers(cfg: Config, s: Sys, id: nat)
    requires id in s.requests && s.requests[id].phase.Recording? && s.requests[id].k in s.db.prs
    ensures var t := Apply(cfg, s, Record(id, false));
            && id in t.requests
            && (t.requests[id].phase == Finished(422) <==> !s.db.IsOpen(s.requests[id].k))
            && (t.requests[id].phase.Notifying? <==> s.db.IsOpen(s.requests[id].k))
  {
  }

  /** A request that reaches the guarded update, and hears its answer, is told 422 exactly when the pull
      request was settled between the request's own check and the update. */
  lemma LosesIff(cfg: Config, steps: seq<Step>, n: nat, id: nat) returns (check: nat)
    requires n < |steps| && steps[n] == Record(id, false)
    requires id in At(cfg, steps, n).requests && At(cfg, steps, n).requests[id].phase.Recording?
    ensures check < n && LetThrough(cfg, steps, check, id)
    ensures At(cfg, steps, check).requests[id].k == At(cfg, steps, n).requests[id].k
    ensures id in At(cfg, steps, n + 1).requests
    ensures var k, phase := At(cfg, steps, n).requests[id].k, At(cfg, steps, n + 1).requests[id].phase;
            && (phase == Finished(422) <==> exists m | check < m < n :: SettlesAt(cfg, steps, m, k))
            && (phase.Notifying? <==> phase != Finished(422))
  {
    hide Apply;
    var k := At(cfg, steps, n).requests[id].k;
    check := PastWasLetThrough(cfg, steps, n, id);
    BranchesFixed(cfg, steps, check, n, k);
    SettledBetween(cfg, steps, check, n, k);
    CheckSettlesNothing(cfg, steps, check, k);
    RecordAnswers(cfg, At(cfg, steps, n), id);
    AtNext(cfg, steps, n, Record(id, false));
  }

  lemma OnceCheckedStep(cfg: Config, s: Sys, step: Step, id: nat)
    requires id in s.requests && !s.requests[id].phase.Checking?
    ensures id in Apply(cfg, s, step).requests && !Apply(cfg, s, step).requests[id].phase.Checking?
  {
    hide Evaluated, VerdictNamed;
  }

  lemma {:induction false} OnceChecked(cfg: Config, steps: seq<Step>, c: nat, n: nat, id: nat)
    requires LetThrough(cfg, steps, c, id) && c < n <= |steps|
    ensures id in At(cfg, steps, n).requests && !At(cfg, steps, n).requests[id].phase.Checking?
  {
    if c + 1 == n {
      hide VerdictNamed;
    } else {
      hide Apply;
      OnceChecked(cfg, steps, c, n - 1, id);
      OnceCheckedStep(cfg, At(cfg, steps, n - 1), steps[n - 1], id);
    }
  }

  /** With git, a request that hears the update's answer has pushed a merge of its own branches, after its
      check: one that is told 422 has pushed for nothing. */
  lemma LoserHasPushed(cfg: Config, steps: seq<Step>, n: nat, id: nat) returns (check: nat, push: nat)
    requires cfg.merger && n < |steps| && steps[n] == Record(id, false)
    requires id in At(cfg, steps, n).requests && At(cfg, steps, n).requests[id].phase.Recording?
    ensures check < push < n && LetThrough(cfg, steps, check, id)
    ensures steps[push] == Git(id, Pushed(At(cfg, steps, n).requests[id].phase.commit))
    ensures MergesOwnBranches(At(cfg, steps, push), id)
    ensures id in At(cfg, steps, n + 1).requests
    ensures var k, phase := At(cfg, steps, n).requests[id].k, At(cfg, steps, n + 1).requests[id].phase;
            && (phase == Finished(422) <==> exists m | check < m < n :: SettlesAt(cfg, steps, m, k))
            && (phase.Notifying? <==> phase != Finished(422))
  {
    hide Apply;
    check := LosesIff(cfg, steps, n, id);
    push := RecordingFromGit(cfg, steps, n, id);
    var other := PastWasLetThrough(cfg, steps, push, id);
    if other < check {
      OnceChecked(cfg, steps, other, check, id);
    } else if check < other {
      OnceChecked(cfg, steps, check, other, id);
    }
  }

  /** Step g is git's push for request `id`. */
  ghost predicate PushesAt(cfg: Config, steps: seq<Step>, g: nat, id: nat) {
    && g < |steps| && steps[g].Git? && steps[g].id == id && steps[g].outcome.Pushed?
    && id in At(cfg, steps, g).requests && At(cfg, steps, g).requests[id].phase.Merging?
  }

  /** The request neither tries its update nor is broken off. */
  predicate Untouched(steps: seq<Step>, id: nat, from: nat, to: nat)
    requires to <= |steps|
  {
    forall j | from <= j < to :: steps[j] != Break(id) && !(steps[j].Record? && steps[j].id == id)
  }

  /** The request's next own act after step g is its update, which finds the pull request open. */
  ghost predicate UpdatesInTime(cfg: Config, steps: seq<Step>, g: nat, n: nat, id: nat, k: PrKey)
    requires n <= |steps|
  {
    exists u | g < u < n ::
      && steps[u].Record? && steps[u].id == id
      && Untouched(steps, id, g + 1, u) && At(cfg, steps, u).db.IsOpen(k)
  }

  /** Some step after g is this request merging the pull request. */
  ghost predicate MergedBy(cfg: Config, steps: seq<Step>, g: nat, n: nat, id: nat, k: PrKey)
    requires n <= |steps|
  {
    exists u | g < u < n :: steps[u].Record? && steps[u].id == id && MergesAt(cfg, steps, u, k)
  }

  predicate BeyondUpdate(phase: Phase) {
    phase.Notifying? || phase.Answering? || phase.Finished?
  }

  lemma PushedStep(cfg: Config, s: Sys, step: Step, id: nat)
    requires id in s.requests && (s.requests[id].phase.Recording? || BeyondUpdate(s.requests[id].phase))
    ensures var t := Apply(cfg, s, step);
            && id in t.requests && t.requests[id].k == s.requests[id].k
            && (if BeyondUpdate(s.requests[id].phase) || step == Break(id) || (step.Record? && step.id == id)
                then BeyondUpdate(t.requests[id].phase) else t.requests[id] == s.requests[id])
  {
    hide Evaluated, VerdictNamed;
  }

  lemma PushDoes(cfg: Config, steps: seq<Step>, g: nat, id: nat)
    requires PushesAt(cfg, steps, g, id)
    ensures var t := At(cfg, steps, g + 1);
            && id in t.requests && t.requests[id].k == At(cfg, steps, g).requests[id].k
            && t.requests[id].phase == Recording(steps[g].outcome.hash)
  {
    AtNext(cfg, steps, g, steps[g]);
    hide At;
  }

  /** A request that has pushed waits with its hash until its update or until it is broken off. */
  lemma {:induction false} AfterPush(cfg: Config, steps: seq<Step>, g: nat, m: nat, id: nat)
    requires PushesAt(cfg, steps, g, id) && g < m <= |steps|
    ensures var s := At(cfg, steps, m);
            && id in s.requests && s.requests[id].k == At(cfg, steps, g).requests[id].k
            && (if Untouched(steps, id, g + 1, m) then s.requests[id].phase == Recording(steps[g].outcome.hash)
                else BeyondUpdate(s.requests[id].phase))
  {
    if m == g + 1 {
      PushDoes(cfg, steps, g, id);
    } else {
      AfterPush(cfg, steps, g, m - 1, id);
      PushedStep(cfg, At(cfg, steps, m - 1), steps[m - 1], id);
      AtNext(cfg, steps, m - 1, steps[m - 1]);
      assert Untouched(steps, id, g + 1, m) <==>
               Untouched(steps, id, g + 1, m - 1) && Untouched(steps, id, m - 1, m);
      hide At, Apply;
    }
  }

  lemma UpdateMerges(cfg: Config, steps: seq<Step>, u: nat, id: nat)
    requires u < |steps| && steps[u].Record? && steps[u].id == id
    requires id in At(cfg, steps, u).requests
    ensures var r := At(cfg, steps, u).requests[id];
            && (r.phase.Recording? && At(cfg, steps, u).db.IsOpen(r.k) ==>
                  && MergesAt(cfg, steps, u, r.k)
                  && At(cfg, steps, u + 1).db.prs[r.k].mergeCommit
                       == if r.phase.commit == "" then None else Some(r.phase.commit))
  {
    AtNext(cfg, steps, u, steps[u]);
    hide At;
  }

  lemma InTimeMerges(cfg: Config, steps: seq<Step>, g: nat, u: nat, id: nat)
    requires PushesAt(cfg, steps, g, id) && g < u < |steps| && steps[u].Record? && steps[u].id == id
    requires Untouched(steps, id, g + 1, u) && At(cfg, steps, u).db.IsOpen(At(cfg, steps, g).requests[id].k)
    ensures MergesAt(cfg, steps, u, At(cfg, steps, g).requests[id].k)
  {
    AfterPush(cfg, steps, g, u, id);
    UpdateMerges(cfg, steps, u, id);
    hide *;
  }

  lemma MergerWasInTime(cfg: Config, steps: seq<Step>, g: nat, u: nat, id: nat, k: PrKey)
    requires PushesAt(cfg, steps, g, id) && g < u < |steps| && steps[u].Record? && steps[u].id == id
    requires MergesAt(cfg, steps, u, k)
    ensures Untouched(steps, id, g + 1, u) && At(cfg, steps, u).db.IsOpen(k)
    ensures At(cfg, steps, u + 1).db.prs[k].mergeCommit
         == if steps[g].outcome.hash == "" then None else Some(steps[g].outcome.hash)
  {
    AtNext(cfg, steps, u, steps[u]);
    MergedStep(cfg, At(cfg, steps, u), steps[u], k);
    AfterPush(cfg, steps, g, u, id);
    hide Apply, At, Untouched, PushesAt;
  }

  lemma CommitStays(cfg: Config, steps: seq<Step>, u: nat, n: nat, k: PrKey)
    requires MergesAt(cfg, steps, u, k) && u < n <= |steps|
    ensures k in At(cfg, steps, n).db.prs
    ensures At(cfg, steps, n).db.prs[k].mergeCommit == At(cfg, steps, u + 1).db.prs[k].mergeCommit
  {
    SettledForGood(cfg, steps, u + 1, n, k);
  }

  /** A push ends up as the pull request's merge exactly when the request's update comes before anything
      breaks the request off, and before anything else settles the pull request; the stored commit is then
      the hash that was pushed.  Otherwise the push is lost. */
  lemma PushIsRecordedIff(cfg: Config, steps: seq<Step>, g: nat, n: nat, id: nat)
    requires PushesAt(cfg, steps, g, id) && g < n <= |steps|
    ensures var k := At(cfg, steps, g).requests[id].k;
            && (MergedBy(cfg, steps, g, n, id, k) <==> UpdatesInTime(cfg, steps, g, n, id, k))
            && (MergedBy(cfg, steps, g, n, id, k) ==>
                  k in At(cfg, steps, n).db.prs
                  && At(cfg, steps, n).db.prs[k].mergeCommit
                       == if steps[g].outcome.hash == "" then None else Some(steps[g].outcome.hash))
  {
    var k := At(cfg, steps, g).requests[id].k;
    hide At, PushesAt, Untouched, MergesAt, Db.IsOpen;
    if UpdatesInTime(cfg, steps, g, n, id, k) {
      var u :| g < u < n && steps[u].Record? && steps[u].id == id
               && Untouched(steps, id, g + 1, u) && At(cfg, steps, u).db.IsOpen(k);
      InTimeMerges(cfg, steps, g, u, id);
    }
    if MergedBy(cfg, steps, g, n, id, k) {
      var u :| g < u < n && steps[u].Record? && steps[u].id == id && MergesAt(cfg, steps, u, k);
      MergerWasInTime(cfg, steps, g, u, id, k);
      CommitStays(cfg, steps, u, n, k);
    }
  }

  // ---- The event of a merge ----

  lemma EventStep(cfg: Config, s: Sys, step: Step, k: PrKey)
    requires cfg.automation
    ensures var t := Apply(cfg, s, step);
            EventsFor(t.events, k) == [] <==>
              EventsFor(s.events, k) == []
              && !(step.Notify? && step.id in s.requests && s.requests[step.id].phase.Notifying?
                   && s.requests[step.id].k == k)
  {
    hide Evaluated, VerdictNamed, EventsFor;
    if step.Notify? && step.id in s.requests && s.requests[step.id].phase.Notifying? {
      var r := s.requests[step.id];
      EventsForAppend(s.events,
        Event(r.k, r.actor, r.phase.commit, r.phase.pr.sourceBranch, r.phase.pr.targetBranch), k);
    }
  }

  /** Settled, no event, and nobody left who will fire one. */
  ghost predicate EventLost(s: Sys, k: PrKey) {
    && k in s.db.prs && !s.db.IsOpen(k) && EventsFor(s.events, k) == []
    && forall id | id in s.requests && s.requests[id].k == k :: !s.requests[id].phase.Notifying?
  }

  lemma EventLostStep(cfg: Config, s: Sys, step: Step, k: PrKey)
    requires EventLost(s, k)
    ensures EventLost(Apply(cfg, s, step), k)
  {
    hide Evaluated, VerdictNamed, EventsFor;
    SettledStep(cfg, s, step, k);
    if step.Notify? && step.id in s.requests && s.requests[step.id].phase.Notifying? {
      var r := s.requests[step.id];
      EventsForAppend(s.events,
        Event(r.k, r.actor, r.phase.commit, r.phase.pr.sourceBranch, r.phase.pr.targetBranch), k);
      assert s.events + [] == s.events;
    }
  }

  /** An event lost is lost for good. */
  lemma {:induction false} EventLostForGood(cfg: Config, steps: seq<Step>, n: nat, m: nat, k: PrKey)
    requires n <= m <= |steps| && EventLost(At(cfg, steps, n), k)
    ensures EventLost(At(cfg, steps, m), k)
  {
    hide Apply, EventLost;
    if n < m {
      EventLostForGood(cfg, steps, n, m - 1, k);
      EventLostStep(cfg, At(cfg, steps, m - 1), steps[m - 1], k);
    }
  }

  predicate NoBreak(steps: seq<Step>, id: nat, from: nat, to: nat)
    requires to <= |steps|
  {
    forall j | from <= j < to :: steps[j] != Break(id)
  }

  /** After step u and before step n the request notifies, not broken off before. */
  ghost predicate GetsToNotify(steps: seq<Step>, id: nat, u: nat, n: nat)
    requires n <= |steps|
  {
    exists m | u < m < n :: steps[m] == Notify(id) && NoBreak(steps, id, u + 1, m)
  }

  lemma GetsToNotifyNext(steps: seq<Step>, id: nat, u: nat, n: nat)
    requires u < n < |steps|
    ensures GetsToNotify(steps, id, u, n + 1) <==>
              GetsToNotify(steps, id, u, n) || (steps[n] == Notify(id) && NoBreak(steps, id, u + 1, n))
    ensures NoBreak(steps, id, u + 1, n + 1) <==> NoBreak(steps, id, u + 1, n) && steps[n] != Break(id)
  {
  }

  /** Where the merge stands while its event is neither fired nor lost. */
  ghost predicate AboutToNotify(s: Sys, id: nat, k: PrKey) {
    id in s.requests && s.requests[id].k == k && s.requests[id].phase.Notifying?
  }

  lemma AboutToNotifyStep(cfg: Config, s: Sys, step: Step, id: nat, k: PrKey)
    requires Inv(cfg, s) && AboutToNotify(s, id, k)
    ensures step != Notify(id) && step != Break(id) ==> AboutToNotify(Apply(cfg, s, step), id, k)
    ensures step == Break(id) ==> EventLost(Apply(cfg, s, step), k)
  {
    hide Evaluated, VerdictNamed, EventsFor;
    assert WinnerConsistent(cfg, s, id);
  }

  lemma MergeStarts(cfg: Config, steps: seq<Step>, u: nat, k: PrKey)
    requires MergesAt(cfg, steps, u, k)
    ensures var s := At(cfg, steps, u + 1);
            if steps[u].replyLost then EventLost(s, k) else AboutToNotify(s, steps[u].id, k)
  {
    var s := At(cfg, steps, u);
    InvAlways(cfg, steps, u);
    AtNext(cfg, steps, u, steps[u]);
    MergedStep(cfg, s, steps[u], k);
    hide At, Evaluated, VerdictNamed, EventsFor;
    assert EventsFor(s.events, k) != [] ==> EventDone(s, k);
    forall id | id in s.requests && s.requests[id].k == k
      ensures !s.requests[id].phase.Notifying?
    {
      assert WinnerConsistent(cfg, s, id);
    }
  }

  /** What has become of a merge by request id: `lost` with its reply, `told` to the subscribers, or else
      `quiet`, its request not broken off. */
  ghost predicate Fate(s: Sys, id: nat, k: PrKey, lost: bool, told: bool, quiet: bool) {
    if lost then EventLost(s, k)
    else if told then EventsFor(s.events, k) != []
    else if quiet then AboutToNotify(s, id, k)
    else EventLost(s, k)
  }

  lemma FateStep(cfg: Config, s: Sys, step: Step, id: nat, k: PrKey, lost: bool, told: bool, quiet: bool)
    requires cfg.automation && Inv(cfg, s) && Fate(s, id, k, lost, told, quiet)
    ensures Fate(Apply(cfg, s, step), id, k, lost, told || (step == Notify(id) && quiet), quiet && step != Break(id))
  {
    EventStep(cfg, s, step, k);
    hide Apply, Inv, EventsFor;
    if lost || (!told && !quiet) {
      hide AboutToNotify;
      EventLostStep(cfg, s, step, k);
    } else if !told {
      AboutToNotifyStep(cfg, s, step, id, k);
      hide EventLost;
    }
  }

  lemma FateStarts(cfg: Config, steps: seq<Step>, u: nat, k: PrKey, id: nat, replyLost: bool)
    requires MergesAt(cfg, steps, u, k) && steps[u] == Record(id, replyLost)
    ensures Fate(At(cfg, steps, u + 1), id, k, replyLost,
                 GetsToNotify(steps, id, u, u + 1), NoBreak(steps, id, u + 1, u + 1))
  {
    MergeStarts(cfg, steps, u, k);
    hide At, EventLost, AboutToNotify;
  }

  lemma {:induction false} MergeFate(cfg: Config, steps: seq<Step>, u: nat, n: nat, k: PrKey,
                                     id: nat, replyLost: bool)
    requires cfg.automation && u < n <= |steps| && steps[u] == Record(id, replyLost) && MergesAt(cfg, steps, u, k)
    ensures Fate(At(cfg, steps, n), id, k, replyLost, GetsToNotify(steps, id, u, n), NoBreak(steps, id, u + 1, n))
  {
    hide *;
    if n == u + 1 {
      FateStarts(cfg, steps, u, k, id, replyLost);
    } else {
      MergeFate(cfg, steps, u, n - 1, k, id, replyLost);
      InvAlways(cfg, steps, n - 1);
      AtNext(cfg, steps, n - 1, steps[n - 1]);
      GetsToNotifyNext(steps, id, u, n - 1);
      FateStep(cfg, At(cfg, steps, n - 1), steps[n - 1], id, k, replyLost,
               GetsToNotify(steps, id, u, n - 1), NoBreak(steps, id, u + 1, n - 1));
    }
  }

  lemma FateOfEvent(cfg: Config, s: Sys, id: nat, k: PrKey, lost: bool, told: bool, quiet: bool)
    requires Inv(cfg, s) && Fate(s, id, k, lost, told, quiet)
    ensures EventsFor(s.events, k) != [] <==> !lost && told
  {
    if AboutToNotify(s, id, k) {
      assert WinnerConsistent(cfg, s, id);
    }
    hide EventsFor;
  }

  /** A merge has its event exactly when its update's reply was not lost and its request came to notify
      before anything broke it off. */
  lemma EventOfMergeIff(cfg: Config, steps: seq<Step>, u: nat, n: nat, k: PrKey)
    requires cfg.automation && MergesAt(cfg, steps, u, k) && u < n <= |steps|
    ensures EventsFor(At(cfg, steps, n).events, k) != [] <==>
              !steps[u].replyLost && GetsToNotify(steps, steps[u].id, u, n)
  {
    var id, lost := steps[u].id, steps[u].replyLost;
    hide *;
    MergeFate(cfg, steps, u, n, k, id, lost);
    InvAlways(cfg, steps, n);
    FateOfEvent(cfg, At(cfg, steps, n), id, k, lost, GetsToNotify(steps, id, u, n), NoBreak(steps, id, u + 1, n));
  }

  // ---- Runs that show each of them ----

  lemma {:induction false} AtPrefix(cfg: Config, steps: seq<Step>, later: seq<Step>, n: nat)
    requires n <= |steps|
    ensures At(cfg, steps + later, n) == At(cfg, steps, n)
  {
    hide Apply;
    if n > 0 {
      AtPrefix(cfg, steps, later, n - 1);
    }
  }

  lemma AtNext(cfg: Config, steps: seq<Step>, n: nat, step: Step)
    requires n < |steps| && steps[n] == step
    ensures At(cfg, steps, n + 1) == Apply(cfg, At(cfg, steps, n), step)
    ensures At(cfg, steps, 0) == START
  {
  }

  const DEMO_KEY := PrKey(1, 1)
  const DEMO_PR := PullRequest("t", "", "ann", Open, "topic", "main", None)
  const DEMO_RULE := PutProtection(BranchKey(1, "main"), Protection(1, false))

  const BLIND_RUN: seq<Step> :=
    [DEMO_RULE, OpenPr(DEMO_KEY, DEMO_PR), Arrive(0, DEMO_KEY, "bob"), Check(0, false), Record(0, false)]

  const BLIND_DB: Db := Db(map[DEMO_KEY := DEMO_PR], map[], map[BranchKey(1, "main") := Protection(1, false)])

  lemma BlindRunChecks()
    ensures At(Config(false, false), BLIND_RUN, 1).db.prs == map[]
    ensures At(Config(false, false), BLIND_RUN, 2).db == BLIND_DB
    ensures At(Config(false, false), BLIND_RUN, 3) == Sys(BLIND_DB, map[0 := Request(DEMO_KEY, "bob", Checking)], [])
  {
    var cfg := Config(false, false);
    hide At;
    AtNext(cfg, BLIND_RUN, 0, DEMO_RULE);
    AtNext(cfg, BLIND_RUN, 1, OpenPr(DEMO_KEY, DEMO_PR));
    AtNext(cfg, BLIND_RUN, 2, Arrive(0, DEMO_KEY, "bob"));
  }

  lemma BlindRunMerges()
    ensures At(Config(false, false), BLIND_RUN, 4).db == BLIND_DB
    ensures At(Config(false, false), BLIND_RUN, 5).db.prs == map[DEMO_KEY := DEMO_PR.(state := Merged)]
  {
    var cfg := Config(false, false);
    BlindRunChecks();
    hide At;
    AtNext(cfg, BLIND_RUN, 3, Check(0, false));
    AtNext(cfg, BLIND_RUN, 4, Record(0, false));
  }

  /** A failed rule lookup is read as "no rule": a protected pull request is merged without an approval,
      in a run none of whose states meets the gate. */
  lemma FailedLookupOpensTheGate()
    ensures var s := At(Config(false, false), BLIND_RUN, |BLIND_RUN|);
            DEMO_KEY in s.db.prs && s.db.prs[DEMO_KEY].state == Merged
    ensures forall c | 0 <= c <= |BLIND_RUN| :: !GateMet(Config(false, false), BLIND_RUN, c, DEMO_KEY)
  {
    var cfg := Config(false, false);
    BlindRunChecks();
    BlindRunMerges();
    forall c | 0 <= c <= |BLIND_RUN|
      ensures !GateMet(cfg, BLIND_RUN, c, DEMO_KEY)
    {
      GateOfTables(cfg, BLIND_RUN, c, DEMO_KEY);
      assert c == 0 || c == 1 || c == 2 || c == 3 || c == 4 || c == 5;
      hide At;
      assert BLIND_DB.Approvers(DEMO_KEY) == {};
      AtNext(cfg, BLIND_RUN, 0, DEMO_RULE);
    }
  }

  const SHUT_GATE: seq<Step> :=
    [DEMO_RULE, OpenPr(DEMO_KEY, DEMO_PR), PutReview(DEMO_KEY, "cy", "approved", ""),
     Arrive(0, DEMO_KEY, "bob"), Check(0, true),
     PutReview(DEMO_KEY, "cy", "changes_requested", ""), Record(0, false)]

  function ShutGateDb(verdict: Verdict): Db {
    Db(map[DEMO_KEY := DEMO_PR], map[(DEMO_KEY, "cy") := Review(verdict, "")],
       map[BranchKey(1, "main") := Protection(1, false)])
  }

  lemma ShutGateOpens()
    ensures At(Config(false, false), SHUT_GATE, 2)
         == Sys(Db(map[DEMO_KEY := DEMO_PR], map[], map[BranchKey(1, "main") := Protection(1, false)]), map[], [])
  {
    hide At;
    AtNext(Config(false, false), SHUT_GATE, 0, DEMO_RULE);
    AtNext(Config(false, false), SHUT_GATE, 1, OpenPr(DEMO_KEY, DEMO_PR));
  }

  lemma ShutGateChecks()
    ensures At(Config(false, false), SHUT_GATE, 4)
         == Sys(ShutGateDb(Approved), map[0 := Request(DEMO_KEY, "bob", Checking)], [])
    ensures ShutGateDb(Approved).Approvers(DEMO_KEY) == {"cy"}
  {
    var cfg := Config(false, false);
    ShutGateOpens();
    hide At;
    AtNext(cfg, SHUT_GATE, 2, PutReview(DEMO_KEY, "cy", "approved", ""));
    AtNext(cfg, SHUT_GATE, 3, Arrive(0, DEMO_KEY, "bob"));
    assert (DEMO_KEY, "cy") in ShutGateDb(Approved).reviews;
  }

  lemma ShutGateReviews()
    ensures At(Config(false, false), SHUT_GATE, 6)
         == Sys(ShutGateDb(ChangesRequested), map[0 := Request(DEMO_KEY, "bob", Recording(""))], [])
  {
    var cfg := Config(false, false);
    ShutGateChecks();
    hide At;
    AtNext(cfg, SHUT_GATE, 4, Check(0, true));
    AtNext(cfg, SHUT_GATE, 5, PutReview(DEMO_KEY, "cy", "changes_requested", ""));
  }

  /** The check and the update are separate steps: the gate can be shut again when the update lands. */
  lemma GateCanShutBeforeTheUpdate()
    ensures (forall i | 0 <= i < |SHUT_GATE| && SHUT_GATE[i].Check? :: SHUT_GATE[i].lookupOk)
    ensures MergesAt(Config(false, false), SHUT_GATE, 6, DEMO_KEY)
    ensures !GateMet(Config(false, false), SHUT_GATE, 6, DEMO_KEY)
  {
    var cfg := Config(false, false);
    ShutGateReviews();
    hide At;
    AtNext(cfg, SHUT_GATE, 6, Record(0, false));
    GateOfTables(cfg, SHUT_GATE, 6, DEMO_KEY);
    assert At(cfg, SHUT_GATE, 6).db.Approvers(DEMO_KEY) == {};
  }

  const RACE: seq<Step> :=
    [OpenPr(DEMO_KEY, DEMO_PR), Arrive(0, DEMO_KEY, "bob"), Arrive(1, DEMO_KEY, "eve"),
     Check(0, true), Check(1, true), Fetch(0), Fetch(1),
     Git(0, Pushed("aa")), Git(1, Pushed("bb")), Record(0, false), Record(1, false)]

  function RaceState(phase: (string, string) -> Phase): Sys {
    Sys(Db(map[DEMO_KEY := DEMO_PR], map[], map[]),
        map[0 := Request(DEMO_KEY, "bob", phase("bob", "aa")), 1 := Request(DEMO_KEY, "eve", phase("eve", "bb"))], [])
  }

  lemma RaceArrives()
    ensures At(Config(true, true), RACE, 3) == RaceState((actor, hash) => Checking)
  {
    hide At;
    AtNext(Config(true, true), RACE, 0, OpenPr(DEMO_KEY, DEMO_PR));
    AtNext(Config(true, true), RACE, 1, Arrive(0, DEMO_KEY, "bob"));
    AtNext(Config(true, true), RACE, 2, Arrive(1, DEMO_KEY, "eve"));
  }

  lemma RaceChecks()
    ensures At(Config(true, true), RACE, 5) == RaceState((actor, hash) => Fetching)
  {
    RaceArrives();
    hide At;
    AtNext(Config(true, true), RACE, 3, Check(0, true));
    AtNext(Config(true, true), RACE, 4, Check(1, true));
    assert Db(map[DEMO_KEY := DEMO_PR], map[], map[]).Approvers(DEMO_KEY) == {};
  }

  lemma RaceFetches()
    ensures At(Config(true, true), RACE, 7) == RaceState((actor, hash) => Merging("topic", "main"))
  {
    RaceChecks();
    hide At;
    AtNext(Config(true, true), RACE, 5, Fetch(0));
    AtNext(Config(true, true), RACE, 6, Fetch(1));
  }

  lemma RacePushes()
    ensures At(Config(true, true), RACE, 9) == RaceState((actor, hash) => Recording(hash))
  {
    RaceFetches();
    hide At;
    AtNext(Config(true, true), RACE, 7, Git(0, Pushed("aa")));
    AtNext(Config(true, true), RACE, 8, Git(1, Pushed("bb")));
  }

  lemma RaceRecords()
    ensures var s := At(Config(true, true), RACE, 10);
            && s.db.prs == map[DEMO_KEY := DEMO_PR.(state := Merged, mergeCommit := Some("aa"))]
            && 1 in s.requests && s.requests[1] == Request(DEMO_KEY, "eve", Recording("bb"))
  {
    RacePushes();
    hide At;
    AtNext(Config(true, true), RACE, 9, Record(0, false));
  }

  /** Git runs before the guarded update: both requests push, though only one merge is recorded. */
  lemma BothRequestsCanPush()
    ensures RACE[7] == Git(0, Pushed("aa")) && RACE[8] == Git(1, Pushed("bb"))
    ensures var s := At(Config(true, true), RACE, |RACE|);
            && DEMO_KEY in s.db.prs && s.db.prs[DEMO_KEY].mergeCommit == Some("aa")
            && 1 in s.requests && s.requests[1] == Request(DEMO_KEY, "eve", Finished(422))
  {
    RaceRecords();
    hide At;
    AtNext(Config(true, true), RACE, 10, Record(1, false));
  }

  const LOST_REPLY: seq<Step> :=
    [OpenPr(DEMO_KEY, DEMO_PR), Arrive(0, DEMO_KEY, "bob"), Check(0, true), Record(0, true)]

  lemma LostReplyChecks()
    ensures At(Config(false, true), LOST_REPLY, 3)
         == Sys(Db(map[DEMO_KEY := DEMO_PR], map[], map[]), map[0 := Request(DEMO_KEY, "bob", Recording(""))], [])
  {
    var cfg := Config(false, true);
    hide At;
    AtNext(cfg, LOST_REPLY, 0, OpenPr(DEMO_KEY, DEMO_PR));
    AtNext(cfg, LOST_REPLY, 1, Arrive(0, DEMO_KEY, "bob"));
    AtNext(cfg, LOST_REPLY, 2, Check(0, true));
    assert Db(map[DEMO_KEY := DEMO_PR], map[], map[]).Approvers(DEMO_KEY) == {};
  }

  lemma LostReplyMerges()
    ensures var s := At(Config(false, true), LOST_REPLY, 4);
            && DEMO_KEY in s.db.prs && s.db.prs[DEMO_KEY].state == Merged
            && EventLost(s, DEMO_KEY)
  {
    LostReplyChecks();
    hide At;
    AtNext(Config(false, true), LOST_REPLY, 3, Record(0, true));
  }

  /** The update commits and its reply is lost: merged, answered 500, and no event, whatever comes later. */
  lemma MergedWithoutEvent(later: seq<Step>)
    ensures var steps := LOST_REPLY + later;
            var s := At(Config(false, true), steps, |steps|);
            && DEMO_KEY in s.db.prs && s.db.prs[DEMO_KEY].state == Merged
            && EventsFor(s.events, DEMO_KEY) == []
  {
    var cfg, steps := Config(false, true), LOST_REPLY + later;
    LostReplyMerges();
    AtPrefix(cfg, LOST_REPLY, later, 4);
    hide At;
    EventLostForGood(cfg, steps, 4, |steps|, DEMO_KEY);
    SettledForGood(cfg, steps, 4, |steps|, DEMO_KEY);
  }

  const LATE_BREAK: seq<Step> :=
    [OpenPr(DEMO_KEY, DEMO_PR), Arrive(0, DEMO_KEY, "bob"), Check(0, true), Record(0, false), Break(0)]

  lemma LateBreakMerges()
    ensures MergesAt(Config(false, true), LATE_BREAK, 3, DEMO_KEY)
  {
    var cfg := Config(false, true);
    LostReplyChecks();
    assert LATE_BREAK[..3] == LOST_REPLY[..3];
    AtSamePrefix(cfg, LATE_BREAK, LOST_REPLY, 3);
    hide At;
    AtNext(cfg, LATE_BREAK, 3, Record(0, false));
  }

  lemma {:induction false} AtSamePrefix(cfg: Config, a: seq<Step>, b: seq<Step>, n: nat)
    requires n <= |a| && n <= |b| && a[..n] == b[..n]
    ensures At(cfg, a, n) == At(cfg, b, n)
  {
    hide Apply;
    if n > 0 {
      assert a[n - 1] == a[..n][n - 1] && b[n - 1] == b[..n][n - 1];
      assert a[..n - 1] == a[..n][..n - 1] && b[..n - 1] == b[..n][..n - 1];
      AtSamePrefix(cfg, a, b, n - 1);
    }
  }

  /** The server goes down between the update and the notification: the same. */
  lemma MergedThenDown(later: seq<Step>)
    ensures var steps := LATE_BREAK + later;
            var s := At(Config(false, true), steps, |steps|);
            && DEMO_KEY in s.db.prs && s.db.prs[DEMO_KEY].state == Merged
            && EventsFor(s.events, DEMO_KEY) == []
  {
    var cfg, steps := Config(false, true), LATE_BREAK + later;
    LateBreakMerges();
    AtPrefix(cfg, LATE_BREAK, later, 3);
    AtPrefix(cfg, LATE_BREAK, later, 4);
    EventOfMergeIff(cfg, steps, 3, |steps|, DEMO_KEY);
    SettledForGood(cfg, steps, 4, |steps|, DEMO_KEY);
    hide At;
    assert steps[3] == Record(0, false) && steps[4] == Break(0);
  }

  const BROKEN_PUSH: seq<Step> :=
    [OpenPr(DEMO_KEY, DEMO_PR), Arrive(0, DEMO_KEY, "bob"), Check(0, true), Fetch(0), Git(0, Pushed("aa")), Break(0)]

  function BrokenPushState(phase: Phase): Sys {
    Sys(Db(map[DEMO_KEY := DEMO_PR], map[], map[]), map[0 := Request(DEMO_KEY, "bob", phase)], [])
  }

  lemma BrokenPushChecks()
    ensures At(Config(true, true), BROKEN_PUSH, 3) == BrokenPushState(Fetching)
  {
    var cfg := Config(true, true);
    hide At;
    AtNext(cfg, BROKEN_PUSH, 0, OpenPr(DEMO_KEY, DEMO_PR));
    AtNext(cfg, BROKEN_PUSH, 1, Arrive(0, DEMO_KEY, "bob"));
    AtNext(cfg, BROKEN_PUSH, 2, Check(0, true));
    assert Db(map[DEMO_KEY := DEMO_PR], map[], map[]).Approvers(DEMO_KEY) == {};
  }

  lemma BrokenPushPushes()
    ensures At(Config(true, true), BROKEN_PUSH, 4) == BrokenPushState(Merging("topic", "main"))
  {
    BrokenPushChecks();
    hide At;
    AtNext(Config(true, true), BROKEN_PUSH, 3, Fetch(0));
  }

  lemma BrokenPushBreaks()
    ensures At(Config(true, true), BROKEN_PUSH, 6) == BrokenPushState(Finished(500))
  {
    var cfg := Config(true, true);
    BrokenPushPushes();
    hide At;
    AtNext(cfg, BROKEN_PUSH, 4, Git(0, Pushed("aa")));
    AtNext(cfg, BROKEN_PUSH, 5, Break(0));
  }

  /** A push is lost without anybody settling the pull request, too: the request is broken off before its
      update.  The pull request is left open, with no commit, and this request never merges it. */
  lemma PushLostToBreak(later: seq<Step>)
    ensures At(Config(true, true), BROKEN_PUSH, 6).db.prs == map[DEMO_KEY := DEMO_PR]
    ensures PushesAt(Config(true, true), BROKEN_PUSH + later, 4, 0)
    ensures var steps := BROKEN_PUSH + later; !MergedBy(Config(true, true), steps, 4, |steps|, 0, DEMO_KEY)
  {
    var cfg, steps := Config(true, true), BROKEN_PUSH + later;
    BrokenPushPushes();
    BrokenPushBreaks();
    AtPrefix(cfg, BROKEN_PUSH, later, 4);
    hide At;
    assert steps[4] == Git(0, Pushed("aa")) && steps[5] == Break(0);
    PushIsRecordedIff(cfg, steps, 4, |steps|, 0);
  }
}
