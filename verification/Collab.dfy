/** Pull requests, reviews and branch protection (internal/collab).

  A value of type Db is the content of the three tables; a row's key is its UNIQUE constraint.  Each
  store method is one atomic step on them. */
module Collab {
  import opened Wrappers

  datatype Error = NotFound | InvalidState | NotMergeable | InvalidRule

  datatype PrKey = PrKey(repository: int, number: int)

  datatype BranchKey = BranchKey(repository: int, branch: string)

  /** The values the CHECK constraints of the tables admit. */
  datatype State = Open | Merged | Closed

  datatype Verdict = Approved | ChangesRequested | Commented

  function StateNamed(name: string): Option<State> {
    match name
    case "open" => Some(Open)
    case "merged" => Some(Merged)
    case "closed" => Some(Closed)
    case _ => None
  }

  function VerdictNamed(name: string): Option<Verdict> {
    match name
    case "approved" => Some(Approved)
    case "changes_requested" => Some(ChangesRequested)
    case "commented" => Some(Commented)
    case _ => None
  }

  datatype PullRequest = PullRequest(
    title: string, body: string, author: string, state: State,
    sourceBranch: string, targetBranch: string, mergeCommit: Option<string>)

  datatype Review = Review(verdict: Verdict, body: string)

  datatype Protection = Protection(requiredApprovals: int, allowForcePush: bool)

  datatype Db = Db(
    prs: map<PrKey, PullRequest>,
    reviews: map<(PrKey, string), Review>,
    protections: map<BranchKey, Protection>)
  {
    predicate IsOpen(k: PrKey) {
      k in prs && prs[k].state == Open
    }

    /** Reviewers whose row for the pull request says approved. */
    function Approvers(k: PrKey): set<string> {
      set rk | rk in reviews && rk.0 == k && reviews[rk].verdict == Approved :: rk.1
    }

    /** Approvals the target branch asks for; none without a rule. */
    function Required(k: PrKey): int
      requires k in prs
    {
      var b := BranchKey(k.repository, prs[k].targetBranch);
      if b in protections then protections[b].requiredApprovals else 0
    }
  }

  datatype Blocker = NotOpen | NeedsApprovals(required: int, current: int)

  datatype MergeCheck = MergeCheck(
    mergable: bool, blockers: seq<Blocker>, requiredApprovals: int, currentApprovals: int)

  /** What EvaluateMerge answers.  A failed rule lookup counts as "no rule". */
  function Evaluated(db: Db, k: PrKey, lookupOk: bool): Result<MergeCheck, Error> {
    if k !in db.prs then Err(NotFound)
    else
      var required := if lookupOk then db.Required(k) else 0;
      var current := |db.Approvers(k)|;
      var blockers :=
        (if db.IsOpen(k) then [] else [NotOpen]) +
        (if current < required then [NeedsApprovals(required, current)] else []);
      Ok(MergeCheck(blockers == [], blockers, required, current))
  }

  /** An empty commit hash is stored as NULL. */
  function Stored(commit: string): Option<string> {
    if commit == "" then None else Some(commit)
  }

  /** The verdicts a review may carry, as they are spelt. */
  predicate Accepted(verdict: string) {
    verdict == "approved" || verdict == "changes_requested" || verdict == "commented"
  }

  /** The table after SetPullRequestState, and its answer. */
  function StateSet(db: Db, k: PrKey, state: Option<State>, commit: string): (Db, Result<PullRequest, Error>) {
    if state == None || state == Some(Open) then (db, Err(InvalidState))
    else if k !in db.prs then (db, Err(NotFound))
    else if !db.IsOpen(k) then (db, Err(NotMergeable))
    else
      var pr := db.prs[k].(state := state.value, mergeCommit := Stored(commit));
      (db.(prs := db.prs[k := pr]), Ok(pr))
  }

  function Reviewed(db: Db, k: PrKey, reviewer: string, verdict: Option<Verdict>, body: string)
    : (Db, Result<Review, Error>)
  {
    if verdict == None then (db, Err(InvalidState))
    else if k !in db.prs then (db, Err(NotFound))
    else if db.prs[k].state == Merged || db.prs[k].state == Closed then (db, Err(NotMergeable))
    else
      var review := Review(verdict.value, body);
      (db.(reviews := db.reviews[(k, reviewer) := review]), Ok(review))
  }

  function Protected(db: Db, b: BranchKey, p: Protection): (Db, Result<(), Error>) {
    if b.branch == "" || p.requiredApprovals < 0 then (db, Err(InvalidRule))
    else (db.(protections := db.protections[b := p]), Ok(()))
  }

  function Unprotected(db: Db, b: BranchKey): (Db, Result<(), Error>) {
    if b in db.protections then (db.(protections := db.protections - {b}), Ok(()))
    else (db, Err(NotFound))
  }

  function RuleOf(db: Db, b: BranchKey): Result<Protection, Error> {
    if b in db.protections then Ok(db.protections[b]) else Err(NotFound)
  }

  function RowOf(db: Db, k: PrKey): Result<PullRequest, Error> {
    if k in db.prs then Ok(db.prs[k]) else Err(NotFound)
  }

  /** Three texts are verdicts, each one of its own; in particular a comment approves nothing. */
  lemma VerdictNamedIff(name: string)
    ensures VerdictNamed(name) == Some(Approved) <==> name == "approved"
    ensures VerdictNamed(name) == Some(ChangesRequested) <==> name == "changes_requested"
    ensures VerdictNamed(name) == Some(Commented) <==> name == "commented"
    ensures VerdictNamed(name).Some? <==> Accepted(name)
  {
  }

  /** A reviewer's one row is the last accepted review, word for word, and no review touches another row; it
      is accepted exactly when its verdict is one and the pull request is open, and the three errors are told
      apart. */
  lemma ReviewReadsBack(db: Db, k: PrKey, reviewer: string, verdict: string, body: string, rk: (PrKey, string))
    ensures var (after, r) := Reviewed(db, k, reviewer, VerdictNamed(verdict), body);
            && (r.Ok? <==> Accepted(verdict) && db.IsOpen(k))
            && (r == Err(InvalidState) <==> !Accepted(verdict))
            && (r == Err(NotFound) <==> Accepted(verdict) && k !in db.prs)
            && (r == Err(NotMergeable) <==> Accepted(verdict) && k in db.prs && !db.IsOpen(k))
            && (rk in after.reviews <==> rk in db.reviews || (r.Ok? && rk == (k, reviewer)))
            && (rk in after.reviews ==>
                  var row := after.reviews[rk];
                  if r.Ok? && rk == (k, reviewer) then
                    && row.body == body && r.value == row
                    && (row.verdict == Approved <==> verdict == "approved")
                    && (row.verdict == ChangesRequested <==> verdict == "changes_requested")
                    && (row.verdict == Commented <==> verdict == "commented")
                  else row == db.reviews[rk])
  {
    VerdictNamedIff(verdict);
    hide VerdictNamed, Accepted;
  }

  /** An accepted rule reads back until it is replaced or deleted, after which there is none; a refused one
      changes nothing, and no edit touches another branch's rule. */
  lemma RuleReadsBack(db: Db, b: BranchKey, p: Protection, c: BranchKey)
    ensures var (after, r) := Protected(db, b, p);
            RuleOf(after, c) == if r.Ok? && c == b then Ok(p) else RuleOf(db, c)
    ensures var (after, r) := Unprotected(db, b);
            && RuleOf(after, c) == (if c == b then Err(NotFound) else RuleOf(db, c))
            && (r.Ok? <==> RuleOf(db, b).Ok?)
  {
  }

  /** The row that a guarded update answered with is the one that is read afterwards, for good: no further
      update of it succeeds, and no update touches another row. */
  lemma RowReadsBack(db: Db, k: PrKey, state: Option<State>, commit: string, j: PrKey,
                     again: Option<State>, other: string)
    ensures var (after, r) := StateSet(db, k, state, commit);
            && RowOf(after, j) == (if r.Ok? && j == k then r else RowOf(db, j))
            && (r.Ok? ==> StateSet(after, k, again, other).1.Err? && StateSet(after, k, again, other).0 == after)
  {
  }

  /** The answer in full: the number the rule asks for, the number of approving rows, and each of the two
      blockers exactly when it applies, with those numbers in their places. */
  lemma AnswerIs(db: Db, k: PrKey, lookupOk: bool)
    ensures Evaluated(db, k, lookupOk).Err? <==> k !in db.prs
    ensures k in db.prs ==>
              var check, b := Evaluated(db, k, lookupOk).value, BranchKey(k.repository, db.prs[k].targetBranch);
              && check.requiredApprovals
                   == (if lookupOk && b in db.protections then db.protections[b].requiredApprovals else 0)
              && check.currentApprovals
                   == |set rk | rk in db.reviews && rk.0 == k && db.reviews[rk].verdict == Approved :: rk.1|
              && (NotOpen in check.blockers <==> db.prs[k].state != Open)
              && (forall required, current :: NeedsApprovals(required, current) in check.blockers <==>
                    && required == check.requiredApprovals && current == check.currentApprovals
                    && current < required)
              && (check.mergable <==> check.blockers == [])
  {
  }

  /** The check lets a pull request through exactly when it is open and the approvals reach the rule that
      was read; a failed lookup reads no rule. */
  lemma MergableIff(db: Db, k: PrKey, lookupOk: bool)
    requires k in db.prs
    ensures Evaluated(db, k, lookupOk).value.mergable <==>
            db.IsOpen(k) && (lookupOk ==> |db.Approvers(k)| >= db.Required(k))
  {
  }

  /** So the verdict misses the rule in one case only: an open pull request short of approvals whose rule
      could not be read. */
  lemma VerdictIsWrongIff(db: Db, k: PrKey, lookupOk: bool)
    requires k in db.prs
    ensures (Evaluated(db, k, lookupOk).value.mergable <==>
               db.IsOpen(k) && |db.Approvers(k)| >= db.Required(k))
       <==> !(!lookupOk && db.IsOpen(k) && |db.Approvers(k)| < db.Required(k))
  {
    MergableIff(db, k, lookupOk);
    hide Evaluated;
  }

  // ---- Counting over the rows, as the loops of EvaluateMerge do ----

  /** Some listing of the reviews of one pull request: every row once, in any order. */
  ghost predicate Lists(rows: seq<(string, Review)>, db: Db, k: PrKey) {
    && (forall i, j | 0 <= i < j < |rows| :: rows[i].0 != rows[j].0)
    && (forall i | 0 <= i < |rows| :: (k, rows[i].0) in db.reviews && db.reviews[(k, rows[i].0)] == rows[i].1)
    && (forall rk | rk in db.reviews && rk.0 == k :: exists i :: 0 <= i < |rows| && rows[i].0 == rk.1)
  }

  class Store {
    var prs: map<PrKey, PullRequest>
    var reviews: map<(PrKey, string), Review>
    var protections: map<BranchKey, Protection>

    ghost function View(): Db
      reads this
    {
      Db(prs, reviews, protections)
    }

    constructor ()
      ensures View() == Db(map[], map[], map[])
    {
      prs, reviews, protections := map[], map[], map[];
    }

    method SetBranchProtection(b: BranchKey, p: Protection) returns (r: Result<(), Error>)
      modifies this`protections
      ensures (View(), r) == Protected(old(View()), b, p)
    {
      if b.branch == "" || p.requiredApprovals < 0 {
        return Err(InvalidRule);
      }
      protections := protections[b := p];
      r := Ok(());
    }

    method GetBranchProtection(b: BranchKey) returns (r: Result<Protection, Error>)
      ensures r == RuleOf(View(), b)
    {
      r := if b in protections then Ok(protections[b]) else Err(NotFound);
    }

    method DeleteBranchProtection(b: BranchKey) returns (r: Result<(), Error>)
      modifies this`protections
      ensures (View(), r) == Unprotected(old(View()), b)
    {
      if b !in protections {
        return Err(NotFound);
      }
      protections := protections - {b};
      r := Ok(());
    }

    method GetPullRequest(k: PrKey) returns (r: Result<PullRequest, Error>)
      ensures r == RowOf(View(), k)
    {
      r := if k in prs then Ok(prs[k]) else Err(NotFound);
    }

    method SetPullRequestState(k: PrKey, state: string, mergeCommit: string) returns (r: Result<PullRequest, Error>)
      modifies this`prs
      ensures (View(), r) == StateSet(old(View()), k, StateNamed(state), mergeCommit)
      ensures r.Ok? <==> (state == "merged" || state == "closed") && old(View()).IsOpen(k)
      ensures r == Err(InvalidState) <==> state != "merged" && state != "closed"
      ensures r == Err(NotFound) <==> (state == "merged" || state == "closed") && k !in old(prs)
      ensures r.Ok? ==>
        && r.value.state == (if state == "merged" then Merged else Closed)
        && r.value.mergeCommit == (if mergeCommit == "" then None else Some(mergeCommit))
        && r.value == old(prs)[k].(state := r.value.state, mergeCommit := r.value.mergeCommit)
    {
      if state != "merged" && state != "closed" {
        return Err(InvalidState);
      }
      if k in prs && prs[k].state == Open {
        var pr := prs[k].(state := StateNamed(state).value, mergeCommit := Stored(mergeCommit));
        prs := prs[k := pr];
        return Ok(pr);
      }
      r := if k in prs then Err(NotMergeable) else Err(NotFound);
    }

    method UpsertReview(k: PrKey, reviewer: string, verdict: string, body: string) returns (r: Result<Review, Error>)
      modifies this`reviews
      ensures (View(), r) == Reviewed(old(View()), k, reviewer, VerdictNamed(verdict), body)
      ensures r.Ok? <==> Accepted(verdict) && old(View()).IsOpen(k)
      ensures r.Ok? ==>
        && r.value.body == body
        && (r.value.verdict == Approved <==> verdict == "approved")
        && (r.value.verdict == ChangesRequested <==> verdict == "changes_requested")
        && (r.value.verdict == Commented <==> verdict == "commented")
    {
      match verdict {
        case "approved" =>
        case "changes_requested" =>
        case "commented" =>
        case _ => return Err(InvalidState);
      }
      var found := GetPullRequest(k);
      if found.Err? {
        return Err(found.error);
      }
      if found.value.state == Merged || found.value.state == Closed {
        return Err(NotMergeable);
      }
      var review := Review(VerdictNamed(verdict).value, body);
      reviews := reviews[(k, reviewer) := review];
      r := Ok(review);
    }

    method ListReviews(k: PrKey) returns (rows: seq<(string, Review)>)
      ensures Lists(rows, View(), k)
    {
      rows := [];
      var left := set rk | rk in reviews && rk.0 == k;
      while left != {}
        invariant left <= reviews.Keys && forall rk | rk in left :: rk.0 == k
        invariant forall i, j | 0 <= i < j < |rows| :: rows[i].0 != rows[j].0
        invariant forall i | 0 <= i < |rows| ::
                    (k, rows[i].0) in reviews && reviews[(k, rows[i].0)] == rows[i].1 && (k, rows[i].0) !in left
        invariant forall rk | rk in reviews && rk.0 == k ::
                    rk in left || exists i :: 0 <= i < |rows| && rows[i].0 == rk.1
        decreases left
      {
        var rk :| rk in left;
        ghost var before := rows;
        rows := rows + [(rk.1, reviews[rk])];
        left := left - {rk};
        assert rows[|before|].0 == rk.1;
        assert forall i | 0 <= i < |before| :: rows[i] == before[i];
      }
    }

    method EvaluateMerge(k: PrKey, lookupOk: bool) returns (r: Result<MergeCheck, Error>)
      ensures r == Evaluated(View(), k, lookupOk)
    {
      var found := GetPullRequest(k);
      if found.Err? {
        return Err(found.error);
      }
      var pr := found.value;
      var blockers := [];
      if pr.state != Open {
        blockers := blockers + [NotOpen];
      }
      var rule := GetBranchProtection(BranchKey(k.repository, pr.targetBranch));
      var required := 0;
      if lookupOk && rule.Ok? {
        required := rule.value.requiredApprovals;
      }
      var rows := ListReviews(k);
      var latest := LatestVerdicts(rows, View(), k);
      var current := CountApproved(latest);
      if current < required {
        blockers := blockers + [NeedsApprovals(required, current)];
      }
      assert blockers == (if View().IsOpen(k) then [] else [NotOpen]) +
                         (if current < required then [NeedsApprovals(required, current)] else []);
      r := Ok(MergeCheck(|blockers| == 0, blockers, required, current));
    }
  }

  /** The first loop of EvaluateMerge; with one row a reviewer, the listing's order does not matter. */
  method LatestVerdicts(rows: seq<(string, Review)>, ghost db: Db, ghost k: PrKey)
      returns (latest: map<string, Verdict>)
    requires Lists(rows, db, k)
    ensures db.Approvers(k) == set reviewer | reviewer in latest && latest[reviewer] == Approved
  {
    latest := map[];
    for i := 0 to |rows|
      invariant latest.Keys == set j | 0 <= j < i :: rows[j].0
      invariant forall j | 0 <= j < i :: latest[rows[j].0] == rows[j].1.verdict
    {
      latest := latest[rows[i].0 := rows[i].1.verdict];
    }
  }

  /** The second loop of EvaluateMerge: the map is visited in no particular order. */
  method CountApproved(latest: map<string, Verdict>) returns (count: nat)
    ensures count == |set reviewer | reviewer in latest && latest[reviewer] == Approved|
  {
    count := 0;
    var left := latest.Keys;
    ghost var counted := {};
    while left != {}
      invariant left <= latest.Keys
      invariant counted == set reviewer | reviewer in latest && reviewer !in left && latest[reviewer] == Approved
      invariant count == |counted|
      decreases left
    {
      var reviewer :| reviewer in left;
      left := left - {reviewer};
      if latest[reviewer] == Approved {
        count := count + 1;
        counted := counted + {reviewer};
      }
    }
    assert counted == set reviewer | reviewer in latest && latest[reviewer] == Approved;
  }
}
