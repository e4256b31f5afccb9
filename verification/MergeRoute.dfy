/** The merge route itself (internal/httpapi/collab.go), with other requests, reviews and protection edits
  let in between any two of its store calls: every execution is a run of the protocol's steps. */
module MergeRoute {
  import opened Collab
  import opened MergeProtocol
  import opened Wrappers

  function ApplyAll(cfg: Config, s: Sys, steps: seq<Step>): Sys
    decreases |steps|
  {
    if steps == [] then s
    else Apply(cfg, ApplyAll(cfg, s, steps[..|steps| - 1]), steps[|steps| - 1])
  }

  lemma ApplyAllAppend(cfg: Config, s: Sys, steps: seq<Step>, step: Step)
    ensures ApplyAll(cfg, s, steps + [step]) == Apply(cfg, ApplyAll(cfg, s, steps), step)
  {
    assert (steps + [step])[..|steps|] == steps;
  }

  /** So whatever holds in every reachable state of the protocol holds of a handler's state. */
  lemma {:induction false} ApplyAllIsAt(cfg: Config, steps: seq<Step>, n: nat)
    requires n <= |steps|
    ensures ApplyAll(cfg, START, steps[..n]) == At(cfg, steps, n)
  {
    hide Apply;
    if n > 0 {
      ApplyAllIsAt(cfg, steps, n - 1);
      assert steps[..n] == steps[..n - 1] + [steps[n - 1]];
      ApplyAllAppend(cfg, START, steps[..n - 1], steps[n - 1]);
    }
  }

  predicate Concerns(step: Step, id: nat) {
    match step
    case Arrive(i, _, _) => i == id
    case Check(i, _) => i == id
    case Fetch(i) => i == id
    case Git(i, _) => i == id
    case Record(i, _) => i == id
    case Notify(i) => i == id
    case Answer(i) => i == id
    case Break(i) => i == id
    case _ => false
  }

  /** The steps of one request, in order. */
  function Own(steps: seq<Step>, id: nat): seq<Step>
    decreases |steps|
  {
    if steps == [] then []
    else Own(steps[..|steps| - 1], id) +
         (if Concerns(steps[|steps| - 1], id) then [steps[|steps| - 1]] else [])
  }

  lemma OwnAppend(steps: seq<Step>, step: Step, id: nat)
    ensures Own(steps + [step], id) == Own(steps, id) + (if Concerns(step, id) then [step] else [])
  {
    assert (steps + [step])[..|steps|] == steps;
  }

  lemma OthersLeaveRequest(cfg: Config, s: Sys, step: Step, id: nat)
    requires !Concerns(step, id) && id in s.requests
    ensures id in Apply(cfg, s, step).requests && Apply(cfg, s, step).requests[id] == s.requests[id]
  {
    hide Evaluated, VerdictNamed;
  }

  /** A store call that fails for a reason of its own, which the route answers with 500.  A failed update
      can have been committed all the same. */
  datatype Fault = NoFault | AtCheck | AtFetch | AtUpdate(committed: bool)

  /** The steps the route takes, in its order, when no answer of the others stops it early. */
  function RouteSteps(cfg: Config, id: nat, k: PrKey, actor: string, lookupOk: bool, outcome: GitOutcome,
                      fault: Fault): seq<Step> {
    var arrived := [] + [Arrive(id, k, actor)];
    var checked := arrived + [Check(id, lookupOk)];
    var pushed := if cfg.merger then checked + [Fetch(id)] + [Git(id, outcome)] else checked;
    if fault.AtCheck? then arrived + [Break(id)]
    else if fault.AtFetch? && cfg.merger then checked + [Break(id)]
    else if fault.AtUpdate? then pushed + [if fault.committed then Record(id, true) else Break(id)]
    else pushed + [Record(id, false)] + [Notify(id)] + [Answer(id)]
  }

  class Handler {
    const store: Store
    const cfg: Config
    var requests: map<nat, Request>
    var events: seq<Event>
    ghost var start: Sys       // where the history begins
    ghost var trace: seq<Step> // every step since

    constructor (store: Store, cfg: Config)
      ensures this.store == store && this.cfg == cfg && Valid()
      ensures View() == Sys(store.View(), map[], []) && trace == []
    {
      this.store, this.cfg, requests, events := store, cfg, map[], [];
      trace := [];
      start := Sys(store.View(), map[], []);
    }

    ghost function View(): Sys
      reads this, store
    {
      Sys(store.View(), requests, events)
    }

    ghost predicate Valid()
      reads this, store
    {
      View() == ApplyAll(cfg, start, trace)
    }

    /** What others do while the request is between two of its own calls. */
    method Interfere(steps: seq<Step>, ghost id: nat)
      requires Valid() && id in requests
      requires forall i | 0 <= i < |steps| :: !Concerns(steps[i], id)
      modifies this`requests, this`events, this`trace, store
      ensures Valid() && Own(trace, id) == old(Own(trace, id))
      ensures id in requests && requests[id] == old(requests[id])
    {
      for i := 0 to |steps|
        invariant Valid() && Own(trace, id) == old(Own(trace, id))
        invariant id in requests && requests[id] == old(requests[id])
      {
        var s := Sys(Db(store.prs, store.reviews, store.protections), requests, events);
        hide Apply;
        OthersLeaveRequest(cfg, s, steps[i], id);
        ApplyAllAppend(cfg, start, trace, steps[i]);
        OwnAppend(trace, steps[i], id);
        var t := Apply(cfg, s, steps[i]);
        store.prs, store.reviews, store.protections := t.db.prs, t.db.reviews, t.db.protections;
        requests, events, trace := t.requests, t.events, trace + [steps[i]];
      }
    }

    /** Books a call the request has just made as its next step. */
    method Book(id: nat, step: Step, request: Request, ghost before: Sys)
      requires before == ApplyAll(cfg, start, trace) && Concerns(step, id)
      requires var t := Apply(cfg, before, step);
               store.View() == t.db && events == t.events && t.requests == requests[id := request]
      modifies this`requests, this`trace
      ensures Valid() && requests == old(requests)[id := request]
      ensures Own(trace, id) == old(Own(trace, id)) + [step]
    {
      ApplyAllAppend(cfg, start, trace, step);
      OwnAppend(trace, step, id);
      requests, trace := requests[id := request], trace + [step];
    }

    /** The first part of the route: the request arrives and is checked, which may end it. */
    method PassGate(id: nat, k: PrKey, actor: string, lookupOk: bool, fault: Fault, others: seq<Step>)
        returns (blocked: Option<int>)
      requires Valid() && id !in requests
      requires forall j | 0 <= j < |others| :: !Concerns(others[j], id)
      modifies this`requests, this`events, this`trace, store
      ensures Valid() && id in requests
      ensures Own(trace, id) == old(Own(trace, id)) + [Arrive(id, k, actor)]
                                + [if fault.AtCheck? then Break(id) else Check(id, lookupOk)]
      ensures requests[id] == Request(k, actor,
                if blocked.Some? then Finished(blocked.value) else if cfg.merger then Fetching else Recording(""))
      ensures blocked != Some(200) && (fault.AtCheck? ==> blocked == Some(500))
    {
      hide Evaluated, Reviewed, Protected, Unprotected, VerdictNamed, ApplyAll, Own;
      ghost var before := View();
      Book(id, Arrive(id, k, actor), Request(k, actor, Checking), before);
      Interfere(others, id);
      before := View();
      if fault.AtCheck? {
        Book(id, Break(id), Request(k, actor, Finished(500)), before);
        return Some(500);
      }
      var check := store.EvaluateMerge(k, lookupOk);
      Book(id, Check(id, lookupOk), Request(k, actor, AfterCheck(cfg, check)), before);
      if check.Err? {
        return Some(StatusOf(check.error));
      }
      if !check.value.mergable {
        return Some(422);
      }
      return None;
    }

    /** The part of the route that asks git; it may end the request. */
    method PushMerge(id: nat, k: PrKey, actor: string, outcome: GitOutcome, fault: Fault,
                     others: seq<Step>, later: seq<Step>) returns (stopped: Option<int>, mergeCommit: string)
      requires Valid() && id in requests && requests[id] == Request(k, actor, Fetching)
      requires forall j | 0 <= j < |others| :: !Concerns(others[j], id)
      requires forall j | 0 <= j < |later| :: !Concerns(later[j], id)
      modifies this`requests, this`events, this`trace, store
      ensures Valid() && id in requests
      ensures fault.AtFetch? ==> stopped == Some(500) && Own(trace, id) == old(Own(trace, id)) + [Break(id)]
      ensures stopped.None? ==>
        && requests[id] == Request(k, actor, Recording(mergeCommit))
        && Own(trace, id) == old(Own(trace, id)) + [Fetch(id)] + [Git(id, outcome)]
      ensures stopped.Some? ==>
        && stopped.value != 200 && requests[id] == Request(k, actor, Finished(stopped.value))
        && (!fault.AtFetch? ==> Own(trace, id) <= old(Own(trace, id)) + [Fetch(id)] + [Git(id, outcome)])
    {
      hide Evaluated, Reviewed, Protected, Unprotected, VerdictNamed, ApplyAll, Own;
      Interfere(others, id);
      ghost var before := View();
      if fault.AtFetch? {
        Book(id, Break(id), Request(k, actor, Finished(500)), before);
        return Some(500), "";
      }
      var pr := store.GetPullRequest(k);
      if pr.Err? {
        Book(id, Fetch(id), Request(k, actor, Finished(404)), before);
        return Some(404), "";
      }
      Book(id, Fetch(id), Request(k, actor, Merging(pr.value.sourceBranch, pr.value.targetBranch)), before);
      Interfere(later, id);
      before := View();
      if outcome.Failed? {
        Book(id, Git(id, outcome), Request(k, actor, Finished(409)), before);
        return Some(409), "";
      }
      Book(id, Git(id, outcome), Request(k, actor, Recording(outcome.hash)), before);
      return None, outcome.hash;
    }

    /** The update fails, before or after it was committed. */
    method FailUpdate(id: nat, k: PrKey, actor: string, mergeCommit: string, committed: bool)
      requires Valid() && id in requests && requests[id] == Request(k, actor, Recording(mergeCommit))
      modifies this`requests, this`trace, store
      ensures Valid() && id in requests && requests[id] == Request(k, actor, Finished(500))
      ensures Own(trace, id) == old(Own(trace, id)) + [if committed then Record(id, true) else Break(id)]
    {
      hide ApplyAll, Own, VerdictNamed, Evaluated, StateSet;
      ghost var before := View();
      if committed {
        var _ := store.SetPullRequestState(k, "merged", mergeCommit);
        MergedIsAState();
        Book(id, Record(id, true), Request(k, actor, Finished(500)), before);
      } else {
        Book(id, Break(id), Request(k, actor, Finished(500)), before);
      }
    }

    lemma MergedIsAState()
      ensures StateNamed("merged") == Some(Merged)
    {
    }

    /** The guarded update, its answer heard. */
    method TryUpdate(id: nat, k: PrKey, actor: string, mergeCommit: string) returns (pr: Result<PullRequest, Error>)
      requires Valid() && id in requests && requests[id] == Request(k, actor, Recording(mergeCommit))
      modifies this`requests, this`trace, store
      ensures Valid() && id in requests
      ensures requests[id] == Request(k, actor,
                match pr case Ok(row) => Notifying(row, mergeCommit) case Err(e) => Finished(StatusOf(e)))
      ensures Own(trace, id) == old(Own(trace, id)) + [Record(id, false)]
    {
      hide ApplyAll, Own, VerdictNamed, Evaluated, StateSet;
      ghost var before := View();
      pr := store.SetPullRequestState(k, "merged", mergeCommit);
      MergedIsAState();
      var phase := match pr case Ok(row) => Notifying(row, mergeCommit) case Err(e) => Finished(StatusOf(e));
      Book(id, Record(id, false), Request(k, actor, phase), before);
    }

    /** The event. */
    method Fire(id: nat, k: PrKey, actor: string, mergeCommit: string, pr: PullRequest)
      requires Valid() && id in requests && requests[id] == Request(k, actor, Notifying(pr, mergeCommit))
      modifies this`requests, this`events, this`trace
      ensures Valid() && id in requests && requests[id] == Request(k, actor, Answering)
      ensures Own(trace, id) == old(Own(trace, id)) + [Notify(id)]
    {
      hide ApplyAll, Own, VerdictNamed, Evaluated, StateSet;
      ghost var before := View();
      if cfg.automation {
        events := events + [Event(k, actor, mergeCommit, pr.sourceBranch, pr.targetBranch)];
      }
      Book(id, Notify(id), Request(k, actor, Answering), before);
    }

    /** The response. */
    method Respond(id: nat, k: PrKey, actor: string)
      requires Valid() && id in requests && requests[id] == Request(k, actor, Answering)
      modifies this`requests, this`trace
      ensures Valid() && id in requests && requests[id] == Request(k, actor, Finished(200))
      ensures Own(trace, id) == old(Own(trace, id)) + [Answer(id)]
    {
      hide ApplyAll, Own, VerdictNamed, Evaluated, StateSet;
      Book(id, Answer(id), Request(k, actor, Finished(200)), View());
    }

    /** The second half of the route: the guarded update, the event, and the response. */
    method Update(id: nat, k: PrKey, actor: string, mergeCommit: string, fault: Fault,
                  others: seq<Step>, later: seq<Step>, last: seq<Step>) returns (status: int)
      requires Valid() && id in requests && requests[id] == Request(k, actor, Recording(mergeCommit))
      requires forall j | 0 <= j < |others| :: !Concerns(others[j], id)
      requires forall j | 0 <= j < |later| :: !Concerns(later[j], id)
      requires forall j | 0 <= j < |last| :: !Concerns(last[j], id)
      modifies this`requests, this`events, this`trace, store
      ensures Valid()
      ensures id in requests && requests[id] == Request(k, actor, Finished(status))
      ensures if fault.AtUpdate? then
                && status == 500
                && Own(trace, id) == old(Own(trace, id)) + [if fault.committed then Record(id, true) else Break(id)]
              else
                Own(trace, id) == old(Own(trace, id)) + [Record(id, false)]
                                  + if status == 200 then [Notify(id)] + [Answer(id)] else []
    {
      hide Evaluated, Reviewed, Protected, Unprotected, VerdictNamed, ApplyAll, Own, StateSet, Apply, Concerns;
      Interfere(others, id);
      if fault.AtUpdate? {
        FailUpdate(id, k, actor, mergeCommit, fault.committed);
        return 500;
      }
      var pr := TryUpdate(id, k, actor, mergeCommit);
      if pr.Err? {
        return StatusOf(pr.error);
      }
      Interfere(later, id);
      Fire(id, k, actor, mergeCommit, pr.value);
      Interfere(last, id);
      Respond(id, k, actor);
      return 200;
    }

    /** The route.  `lookupOk`, `outcome` and `fault` are what the rule lookup, git and the store happen to
        do; `others` is what happens to run before each call.  The whole is a run in which this request takes
        the route's steps, in order and possibly cut short, and ends with the status that is answered. */
    method MergePullRequest(id: nat, k: PrKey, actor: string, lookupOk: bool, outcome: GitOutcome, fault: Fault,
                            others: seq<seq<Step>>) returns (status: int)
      requires Valid() && id !in requests && Own(trace, id) == []
      requires |others| == 6
      requires forall i, j | 0 <= i < 6 && 0 <= j < |others[i]| :: !Concerns(others[i][j], id)
      modifies this`requests, this`events, this`trace, store
      ensures Valid()
      ensures id in requests && requests[id] == Request(k, actor, Finished(status))
      ensures Own(trace, id) <= RouteSteps(cfg, id, k, actor, lookupOk, outcome, fault)
      ensures status == 200 ==>
        && Own(trace, id) == RouteSteps(cfg, id, k, actor, lookupOk, outcome, fault)
        && (fault == NoFault || (fault == AtFetch && !cfg.merger))
    {
      hide Evaluated, Reviewed, Protected, Unprotected, VerdictNamed, ApplyAll, Own, Apply, Concerns;
      var blocked := PassGate(id, k, actor, lookupOk, fault, others[0]);
      if blocked.Some? {
        return blocked.value;
      }
      var mergeCommit := "";
      if cfg.merger {
        var stopped;
        stopped, mergeCommit := PushMerge(id, k, actor, outcome, fault, others[1], others[2]);
        if stopped.Some? {
          return stopped.value;
        }
      }
      status := Update(id, k, actor, mergeCommit, fault, others[3], others[4], others[5]);
    }

    /** A handler that began on an empty store is in a state of the protocol. */
    lemma ViewIsAt()
      requires Valid() && start == START
      ensures View() == At(cfg, trace, |trace|)
    {
      ApplyAllIsAt(cfg, trace, |trace|);
      assert trace[..|trace|] == trace;
      hide ApplyAll, At;
    }

    /** So whatever it has served, a merged pull request in its store was merged once, by a request whose own
        check had found the gate met or could not read the rule. */
    lemma MergesWereGated(k: PrKey) returns (check: nat, update: nat)
      requires Valid() && start == START && k in store.prs && store.prs[k].state == Merged
      ensures check < update < |trace| && MergesAt(cfg, trace, update, k)
      ensures LetThrough(cfg, trace, check, trace[update].id)
      ensures At(cfg, trace, check).requests[trace[update].id].k == k
    {
      ViewIsAt();
      check, update := EveryMergeWasGated(cfg, trace, |trace|, k);
    }

    /** And an answer of 200 means exactly one event, with the stored commit and the right branches. */
    lemma AnsweredMeansFiredOnce(id: nat)
      requires Valid() && start == START && cfg.automation
      requires id in requests && requests[id].phase == Finished(200)
      ensures requests[id].k in store.prs && store.prs[requests[id].k].state == Merged
      ensures FiredOnce(View(), requests[id])
    {
      ViewIsAt();
      WinnerFiresOnce(cfg, trace, |trace|, id);
    }
  }
}
