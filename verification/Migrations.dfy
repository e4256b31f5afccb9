/** The migration runner (internal/database/database.go).

  The schema is the list of SQL texts that have taken effect, oldest first: what they do to the tables is
  whatever PostgreSQL makes of them in that order. */
module Migrations {
  import opened Wrappers

  datatype Migration = Migration(version: string, sql: string)

  predicate Distinct(ms: seq<Migration>) {
    forall i, j | 0 <= i < j < |ms| :: ms[i].version != ms[j].version
  }

  function Versions(ms: seq<Migration>): set<string> {
    set i | 0 <= i < |ms| :: ms[i].version
  }

  function Texts(ms: seq<Migration>): seq<string> {
    seq(|ms|, i requires 0 <= i < |ms| => ms[i].sql)
  }

  datatype Db = Db(table: bool, recorded: set<string>, schema: seq<string>)

  const EMPTY: Db := Db(false, {}, [])

  /** The recorded versions are the first |schema| of the list, and their texts are the schema. */
  ghost predicate Prefix(ms: seq<Migration>, db: Db) {
    && |db.schema| <= |ms|
    && db.schema == Texts(ms[..|db.schema|])
    && db.recorded == Versions(ms[..|db.schema|])
  }

  lemma RecordedIff(ms: seq<Migration>, db: Db, i: nat)
    requires Distinct(ms) && Prefix(ms, db) && i < |ms|
    ensures ms[i].version in db.recorded <==> i < |db.schema|
  {
    if i < |db.schema| {
      assert ms[..|db.schema|][i] == ms[i];
    }
  }

  function Committed(ms: seq<Migration>, db: Db, i: nat): Db
    requires i < |ms|
  {
    db.(recorded := db.recorded + {ms[i].version}, schema := db.schema + [ms[i].sql])
  }

  /** Committing migration i, not yet recorded, by someone who saw all earlier ones recorded. */
  lemma CommitKeepsPrefix(ms: seq<Migration>, db: Db, i: nat)
    requires Distinct(ms) && Prefix(ms, db) && i < |ms|
    requires i <= |db.schema| && ms[i].version !in db.recorded
    ensures i == |db.schema| && Prefix(ms, Committed(ms, db, i))
  {
    RecordedIff(ms, db, i);
    assert ms[..i + 1] == ms[..i] + [ms[i]];
  }

  // ---- Any number of servers migrating at once, any of them crashing anywhere ----

  datatype Phase =
    | Creating          // CREATE TABLE IF NOT EXISTS
    | Asking(i: nat)    // SELECT EXISTS for version i; past the last one the runner returns
    | Executing(i: nat) // in a transaction: the SQL text
    | Inserting(i: nat) // in the same transaction: the version's row
    | Committing(i: nat)
    | Returned(ok: bool)

  datatype Outcome = Success | Failure | ReplyLost // the commit can take effect and its reply be lost

  datatype Step =
    | Launch(id: nat)
    | Call(id: nat, outcome: Outcome) // the call the runner's phase names
    | Crash(id: nat)

  datatype Sys = Sys(db: Db, runners: map<nat, Phase>)

  function Next(ms: seq<Migration>, db: Db, phase: Phase, outcome: Outcome): (Db, Phase) {
    match phase
    case Returned(_) => (db, phase)
    case Asking(i) =>
      if i >= |ms| then (db, Returned(true))
      else if outcome != Success || !db.table then (db, Returned(false))
      else if ms[i].version in db.recorded then (db, Asking(i + 1))
      else (db, Executing(i))
    case Creating =>
      (if outcome == Failure then db else db.(table := true), if outcome == Success then Asking(0) else Returned(false))
    case Executing(i) => (db, if outcome == Success then Inserting(i) else Returned(false))
    case Inserting(i) =>
      (db, if outcome == Success && i < |ms| && ms[i].version !in db.recorded then Committing(i) else Returned(false))
    case Committing(i) =>
      // The primary key refuses a version that another transaction has recorded meanwhile.
      if outcome == Failure || i >= |ms| || ms[i].version in db.recorded then (db, Returned(false))
      else (Committed(ms, db, i), if outcome == Success then Asking(i + 1) else Returned(false))
  }

  function Apply(ms: seq<Migration>, s: Sys, step: Step): Sys {
    match step
    case Launch(id) => if id in s.runners then s else s.(runners := s.runners[id := Creating])
    case Crash(id) => s.(runners := s.runners - {id})
    case Call(id, outcome) =>
      if id !in s.runners then s
      else
        var (db, phase) := Next(ms, s.db, s.runners[id], outcome);
        Sys(db, s.runners[id := phase])
  }

  function At(ms: seq<Migration>, steps: seq<Step>, n: nat): Sys
    requires n <= |steps|
  {
    if n == 0 then Sys(EMPTY, map[]) else Apply(ms, At(ms, steps, n - 1), steps[n - 1])
  }

  /** A runner at version i has seen all earlier versions recorded. */
  predicate Behind(ms: seq<Migration>, db: Db, phase: Phase) {
    match phase
    case Creating => true
    case Returned(ok) => ok ==> |db.schema| == |ms|
    case _ => phase.i <= |db.schema|
  }

  ghost predicate Inv(ms: seq<Migration>, s: Sys) {
    Prefix(ms, s.db) && forall id | id in s.runners :: Behind(ms, s.db, s.runners[id])
  }

  lemma NextKeeps(ms: seq<Migration>, db: Db, phase: Phase, outcome: Outcome)
    requires Distinct(ms) && Prefix(ms, db) && Behind(ms, db, phase)
    ensures var (db', phase') := Next(ms, db, phase, outcome);
            Prefix(ms, db') && Behind(ms, db', phase') && db.schema <= db'.schema
  {
    if phase.Asking? && phase.i < |ms| {
      RecordedIff(ms, db, phase.i);
    }
    if phase.Committing? && phase.i < |ms| && ms[phase.i].version !in db.recorded {
      CommitKeepsPrefix(ms, db, phase.i);
    }
  }

  lemma StepKeeps(ms: seq<Migration>, s: Sys, step: Step)
    requires Distinct(ms) && Inv(ms, s)
    ensures Inv(ms, Apply(ms, s, step)) && s.db.schema <= Apply(ms, s, step).db.schema
  {
    if step.Call? && step.id in s.runners {
      NextKeeps(ms, s.db, s.runners[step.id], step.outcome);
      hide Prefix, Next;
    }
  }

  /** From an empty database, in every reachable state, the recorded versions are a prefix of the list and
      the schema is exactly that prefix's texts, in order; a runner that returned success saw them all. */
  lemma {:induction false} AlwaysPrefix(ms: seq<Migration>, steps: seq<Step>, n: nat)
    requires Distinct(ms) && n <= |steps|
    ensures Inv(ms, At(ms, steps, n))
  {
    hide Apply, Prefix;
    if n > 0 {
      AlwaysPrefix(ms, steps, n - 1);
      StepKeeps(ms, At(ms, steps, n - 1), steps[n - 1]);
    } else {
      assert Prefix(ms, EMPTY) by {
        EmptyIsPrefix(ms);
      }
    }
  }

  lemma EmptyIsPrefix(ms: seq<Migration>)
    ensures Prefix(ms, EMPTY)
  {
  }

  lemma {:induction false} SchemaOnlyGrows(ms: seq<Migration>, steps: seq<Step>, n: nat, m: nat)
    requires Distinct(ms) && n <= m <= |steps|
    ensures At(ms, steps, n).db.schema <= At(ms, steps, m).db.schema
  {
    hide Apply, Prefix;
    if n < m {
      SchemaOnlyGrows(ms, steps, n, m - 1);
      AlwaysPrefix(ms, steps, m - 1);
      StepKeeps(ms, At(ms, steps, m - 1), steps[m - 1]);
    }
  }

  /** A crashed runner does nothing any more, until another one is launched in its place. */
  lemma {:induction false} CrashedIsGone(ms: seq<Migration>, steps: seq<Step>, n: nat, m: nat, id: nat)
    requires n < m <= |steps| && steps[n] == Crash(id) && forall i | n < i < m :: steps[i] != Launch(id)
    ensures id !in At(ms, steps, m).runners
  {
    if n + 1 < m {
      CrashedIsGone(ms, steps, n, m - 1, id);
    }
    hide Next;
  }

  /** Step n makes migration i take effect. */
  predicate TakesEffect(ms: seq<Migration>, steps: seq<Step>, n: nat, i: nat) {
    && n < |steps| && i < |ms| && steps[n].Call? && steps[n].id in At(ms, steps, n).runners
    && At(ms, steps, n).runners[steps[n].id] == Committing(i)
    && At(ms, steps, n + 1).db != At(ms, steps, n).db
  }

  /** Each migration takes effect at most once in a run, and only after all earlier ones have. */
  lemma AtMostOnce(ms: seq<Migration>, steps: seq<Step>, n: nat, m: nat, i: nat)
    requires Distinct(ms) && TakesEffect(ms, steps, n, i) && TakesEffect(ms, steps, m, i)
    ensures n == m && At(ms, steps, n).db.schema == Texts(ms[..i])
  {
    AlwaysPrefix(ms, steps, n);
    AlwaysPrefix(ms, steps, m);
    CommitKeepsPrefix(ms, At(ms, steps, n).db, i);
    CommitKeepsPrefix(ms, At(ms, steps, m).db, i);
    if n < m {
      SchemaOnlyGrows(ms, steps, n + 1, m);
    } else if m < n {
      SchemaOnlyGrows(ms, steps, m + 1, n);
    }
  }

  /** After a runner has returned success every migration is in, and no later step changes the database. */
  lemma RerunChangesNothing(ms: seq<Migration>, steps: seq<Step>, n: nat, m: nat, id: nat)
    requires Distinct(ms) && n <= m <= |steps|
    requires id in At(ms, steps, n).runners && At(ms, steps, n).runners[id] == Returned(true)
    ensures At(ms, steps, n).db.schema == Texts(ms) && At(ms, steps, n).db.recorded == Versions(ms)
    ensures At(ms, steps, m).db.schema == At(ms, steps, n).db.schema
    ensures At(ms, steps, m).db.recorded == At(ms, steps, n).db.recorded
  {
    AlwaysPrefix(ms, steps, n);
    AlwaysPrefix(ms, steps, m);
    SchemaOnlyGrows(ms, steps, n, m);
    assert Behind(ms, At(ms, steps, n).db, Returned(true));
    assert ms[..|ms|] == ms;
  }

  // ---- The code: one call of Migrate, with others let in between any two of its database calls ----

  predicate Concerns(step: Step, id: nat) {
    match step
    case Launch(i) => i == id
    case Call(i, _) => i == id
    case Crash(i) => i == id
  }

  lemma OthersLeaveRunner(ms: seq<Migration>, s: Sys, step: Step, id: nat)
    requires !Concerns(step, id) && id in s.runners
    ensures id in Apply(ms, s, step).runners && Apply(ms, s, step).runners[id] == s.runners[id]
  {
    hide Next;
  }

  lemma {:induction false} AtPrefix(ms: seq<Migration>, steps: seq<Step>, step: Step, n: nat)
    requires n <= |steps|
    ensures At(ms, steps + [step], n) == At(ms, steps, n)
  {
    hide Apply;
    if n > 0 {
      AtPrefix(ms, steps, step, n - 1);
    }
  }

  lemma AtAppend(ms: seq<Migration>, steps: seq<Step>, step: Step)
    ensures At(ms, steps + [step], |steps| + 1) == Apply(ms, At(ms, steps, |steps|), step)
  {
    AtPrefix(ms, steps, step, |steps|);
    hide Apply;
  }

  /** No database call goes wrong and nobody else does anything. */
  ghost predicate Undisturbed(oracle: Phase -> Outcome, others: Phase -> seq<Step>) {
    forall phase :: oracle(phase) == Success && others(phase) == []
  }

  class Database {
    const ms: seq<Migration>
    var table: bool
    var recorded: set<string>
    var schema: seq<string>
    var runners: map<nat, Phase> // who is migrating, and at which call
    ghost var trace: seq<Step>   // every step so far

    constructor (ms: seq<Migration>)
      requires Distinct(ms)
      ensures this.ms == ms && View() == Sys(EMPTY, map[]) && trace == [] && Valid()
    {
      this.ms, table, recorded, schema, runners, trace := ms, false, {}, [], map[], [];
      new;
      EmptyIsPrefix(ms);
    }

    ghost function View(): Sys
      reads this
    {
      Sys(Db(table, recorded, schema), runners)
    }

    ghost predicate Valid()
      reads this
    {
      Distinct(ms) && Inv(ms, View()) && View() == At(ms, trace, |trace|)
    }

    /** What others do while a runner is between two of its own calls. */
    method Interfere(steps: seq<Step>, ghost id: nat)
      requires Valid() && id in runners
      requires forall i | 0 <= i < |steps| :: !Concerns(steps[i], id)
      modifies this
      ensures Valid() && old(schema) <= schema && old(trace) <= trace
      ensures steps == [] ==> table == old(table) && recorded == old(recorded)
      ensures id in runners && runners[id] == old(runners[id])
    {
      for i := 0 to |steps|
        invariant Valid() && old(schema) <= schema && old(trace) <= trace
        invariant i == 0 ==> table == old(table) && recorded == old(recorded)
        invariant id in runners && runners[id] == old(runners[id])
      {
        var s := Sys(Db(table, recorded, schema), runners);
        hide Apply, At, Prefix;
        StepKeeps(ms, s, steps[i]);
        OthersLeaveRunner(ms, s, steps[i], id);
        AtAppend(ms, trace, steps[i]);
        var t := Apply(ms, s, steps[i]);
        table, recorded, schema, runners := t.db.table, t.db.recorded, t.db.schema, t.runners;
        trace := trace + [steps[i]];
      }
    }

    /** Books what a runner has just done as its next step. */
    method Book(step: Step, id: nat, phase: Phase, ghost before: Sys)
      requires Distinct(ms) && Inv(ms, before) && before == At(ms, trace, |trace|)
      requires Apply(ms, before, step) == Sys(Db(table, recorded, schema), runners[id := phase])
      modifies this`runners, this`trace
      ensures Valid() && runners == old(runners)[id := phase] && trace == old(trace) + [step]
      ensures before.db.schema <= schema
    {
      hide Apply, At, Prefix;
      StepKeeps(ms, before, step);
      AtAppend(ms, trace, step);
      runners, trace := runners[id := phase], trace + [step];
    }

    /** Books one of the runner's database calls. */
    method Turn(id: nat, was: Phase, outcome: Outcome, now: Phase, ghost before: Sys)
      requires Distinct(ms) && Inv(ms, before) && before == At(ms, trace, |trace|) && before.runners == runners
      requires id in runners && runners[id] == was
      requires Next(ms, before.db, was, outcome) == (Db(table, recorded, schema), now)
      modifies this`runners, this`trace
      ensures Valid() && runners == old(runners)[id := now] && trace == old(trace) + [Call(id, outcome)]
      ensures before.db.schema <= schema
    {
      hide Next, Inv, At;
      Book(Call(id, outcome), id, now, before);
    }

    lemma Launched(s: Sys, id: nat)
      requires id !in s.runners
      ensures Apply(ms, s, Launch(id)) == s.(runners := s.runners[id := Creating])
    {
    }

    /** SELECT EXISTS; no answer when the query fails. */
    method IsApplied(id: nat, i: nat, outcome: Outcome, others: seq<Step>) returns (applied: Option<bool>)
      requires Valid() && i < |ms| && id in runners && runners[id] == Asking(i)
      requires forall j | 0 <= j < |others| :: !Concerns(others[j], id)
      modifies this
      ensures Valid() && old(schema) <= schema && old(trace) <= trace
      ensures id in runners && runners[id] ==
        match applied case None => Returned(false) case Some(yes) => if yes then Asking(i + 1) else Executing(i)
      ensures others == [] ==>
        && table == old(table) && recorded == old(recorded)
        && applied == if outcome == Success && table then Some(ms[i].version in recorded) else None
    {
      hide Prefix, At, Apply, Inv;
      Interfere(others, id);
      if outcome != Success || !table {
        Turn(id, Asking(i), outcome, Returned(false), View());
        return None;
      }
      var yes := ms[i].version in recorded;
      Turn(id, Asking(i), outcome, if yes then Asking(i + 1) else Executing(i), View());
      return Some(yes);
    }

    /** The SQL text, in a transaction: its writes stay the transaction's own until the commit. */
    method ExecText(id: nat, i: nat, outcome: Outcome, others: seq<Step>) returns (ok: bool)
      requires Valid() && i < |ms| && id in runners && runners[id] == Executing(i)
      requires forall j | 0 <= j < |others| :: !Concerns(others[j], id)
      modifies this
      ensures Valid() && old(schema) <= schema && old(trace) <= trace
      ensures id in runners && runners[id] == if ok then Inserting(i) else Returned(false)
      ensures others == [] ==> table == old(table) && recorded == old(recorded) && (ok <==> outcome == Success)
    {
      hide Prefix, At, Apply, Inv;
      Interfere(others, id);
      ok := outcome == Success;
      Turn(id, Executing(i), outcome, if ok then Inserting(i) else Returned(false), View());
    }

    /** The version's row, in the same transaction; the primary key refuses one that is there. */
    method InsertVersion(id: nat, i: nat, outcome: Outcome, others: seq<Step>) returns (ok: bool)
      requires Valid() && i < |ms| && id in runners && runners[id] == Inserting(i)
      requires forall j | 0 <= j < |others| :: !Concerns(others[j], id)
      modifies this
      ensures Valid() && old(schema) <= schema && old(trace) <= trace
      ensures id in runners && runners[id] == if ok then Committing(i) else Returned(false)
      ensures others == [] ==>
        && table == old(table) && recorded == old(recorded)
        && (ok <==> outcome == Success && ms[i].version !in recorded)
    {
      hide Prefix, At, Apply, Inv;
      Interfere(others, id);
      ok := outcome == Success && ms[i].version !in recorded;
      Turn(id, Inserting(i), outcome, if ok then Committing(i) else Returned(false), View());
    }

    /** The end of the transaction: the SQL text and the row take effect together, or neither does. */
    method Commit(id: nat, i: nat, outcome: Outcome, others: seq<Step>) returns (ok: bool)
      requires Valid() && i < |ms| && id in runners && runners[id] == Committing(i)
      requires forall j | 0 <= j < |others| :: !Concerns(others[j], id)
      modifies this
      ensures Valid() && old(schema) <= schema && old(trace) <= trace
      ensures id in runners && runners[id] == if ok then Asking(i + 1) else Returned(false)
      ensures others == [] ==>
        table == old(table) && (ok <==> outcome == Success && ms[i].version !in old(recorded))
    {
      hide Prefix, At, Apply, Inv;
      Interfere(others, id);
      ghost var before := View();
      if outcome == Failure || ms[i].version in recorded {
        Turn(id, Committing(i), outcome, Returned(false), before);
        return false;
      }
      schema, recorded := schema + [ms[i].sql], recorded + {ms[i].version};
      ok := outcome == Success;
      Turn(id, Committing(i), outcome, if ok then Asking(i + 1) else Returned(false), before);
    }

    /** One turn of the loop: ask for version i and, unless it is recorded, apply it in a transaction. */
    method ApplyVersion(id: nat, i: nat, oracle: Phase -> Outcome, others: Phase -> seq<Step>) returns (ok: bool)
      requires Valid() && i < |ms| && id in runners && runners[id] == Asking(i)
      requires forall phase, j | 0 <= j < |others(phase)| :: !Concerns(others(phase)[j], id)
      modifies this
      ensures Valid() && old(schema) <= schema && old(trace) <= trace
      ensures id in runners && runners[id] == if ok then Asking(i + 1) else Returned(false)
      ensures Undisturbed(oracle, others) && old(table) ==> ok && table
    {
      hide Prefix, At, Apply, Inv, Valid;
      var applied := IsApplied(id, i, oracle(Asking(i)), others(Asking(i)));
      if applied.None? {
        return false;
      }
      if applied.value {
        return true;
      }
      ok := ExecText(id, i, oracle(Executing(i)), others(Executing(i)));
      if !ok {
        return false;
      }
      ok := InsertVersion(id, i, oracle(Inserting(i)), others(Inserting(i)));
      if !ok {
        return false;
      }
      ok := Commit(id, i, oracle(Committing(i)), others(Committing(i)));
    }

    /** `oracle` says how each of the runner's database calls turns out, `others` what happens to run before
        it.  The call is a run of the steps above, so at any moment - the end of this run, or a crash after
        any of its steps - the record is a prefix and the schema that prefix; success means everything is
        in, and a call that nobody and nothing disturbs succeeds. */
    method Migrate(id: nat, oracle: Phase -> Outcome, others: Phase -> seq<Step>) returns (ok: bool)
      requires Valid() && id !in runners
      requires forall phase, i | 0 <= i < |others(phase)| :: !Concerns(others(phase)[i], id)
      modifies this
      ensures Valid() && old(schema) <= schema && old(trace) <= trace
      ensures id in runners && runners[id] == Returned(ok)
      ensures ok ==> schema == Texts(ms) && recorded == Versions(ms)
      ensures Undisturbed(oracle, others) ==> ok
    {
      hide Prefix, At, Apply, Inv;
      Launched(View(), id);
      Book(Launch(id), id, Creating, View());
      Interfere(others(Creating), id);
      ghost var before := View();
      var outcome := oracle(Creating);
      if outcome != Failure {
        table := true;
      }
      Turn(id, Creating, outcome, if outcome == Success then Asking(0) else Returned(false), before);
      if outcome != Success {
        return false;
      }
      for i := 0 to |ms|
        invariant Valid() && old(schema) <= schema && old(trace) <= trace
        invariant id in runners && runners[id] == Asking(i)
        invariant Undisturbed(oracle, others) ==> table
      {
        ok := ApplyVersion(id, i, oracle, others);
        if !ok {
          return false;
        }
      }
      Turn(id, Asking(|ms|), Success, Returned(true), View());
      AllIn(View(), id);
      return true;
    }

    lemma AllIn(s: Sys, id: nat)
      requires Inv(ms, s) && id in s.runners && s.runners[id] == Returned(true)
      ensures s.db.schema == Texts(ms) && s.db.recorded == Versions(ms)
    {
      assert Behind(ms, s.db, Returned(true));
      assert ms[..|ms|] == ms;
    }
  }
}
