/** Delivering events to webhooks (internal/webhooks/webhooks.go).

  The network and the caller's context are oracles: what status each attempt gets (0 for no response), and
  whether the wait after it ends by cancellation. */
module Webhooks {

  datatype World = World(status: nat -> int, cancelled: nat -> bool)

  predicate Success(status: int) {
    200 <= status < 300
  }

  /** k is the number of attempts: one more only after a failure and an uncancelled wait, up to the limit. */
  ghost predicate Attempts(w: World, maxRetries: int, k: nat) {
    && k <= (if maxRetries > 0 then maxRetries else 0)
    && (forall i: nat | i + 1 < k :: !Success(w.status(i)) && !w.cancelled(i))
    && (k < maxRetries ==> k > 0 && (Success(w.status(k - 1)) || w.cancelled(k - 1)))
  }

  lemma AttemptsUnique(w: World, maxRetries: int, j: nat, k: nat)
    requires Attempts(w, maxRetries, j) && Attempts(w, maxRetries, k)
    ensures j == k
  {
  }

  /** Status of the last attempt, how many were made, and the milliseconds of back-off asked for. */
  method DeliverWithRetries(w: World, maxRetries: int) returns (status: int, made: nat, backoff: nat)
    ensures Attempts(w, maxRetries, made)
    ensures status == if made == 0 then 0 else w.status(made - 1)
    ensures Success(status) <==> exists i: nat :: i < made && Success(w.status(i))
    ensures var failed := if Success(status) then made - 1 else made;
            backoff == 250 * failed * (failed + 1)
  {
    status, made, backoff := 0, 0, 0;
    var attempt := 0;
    while attempt < maxRetries
      invariant attempt == made && (made <= maxRetries || made == 0)
      invariant forall i: nat | i < made :: !Success(w.status(i)) && !w.cancelled(i)
      invariant status == if made == 0 then 0 else w.status(made - 1)
      invariant backoff == 250 * made * (made + 1)
    {
      status := w.status(attempt);
      made := made + 1;
      if 200 <= status < 300 {
        return;
      }
      backoff := backoff + (attempt + 1) * 500;
      if w.cancelled(attempt) {
        return;
      }
      attempt := attempt + 1;
    }
  }

  datatype Hook = Hook(id: int, active: bool, events: set<string>)

  datatype Record = Record(hook: int, event: string, status: int, delivered: bool)

  /** The query of ListHooks; an empty event type matches every hook. */
  predicate Matches(h: Hook, event: string) {
    h.active && (event == "" || event in h.events)
  }

  function Matching(hooks: seq<Hook>, event: string): seq<Hook> {
    if hooks == [] then []
    else (if Matches(hooks[0], event) then [hooks[0]] else []) + Matching(hooks[1..], event)
  }

  /** The record a hook must get: its final status, and whether that is a success. */
  ghost predicate RightRecord(r: Record, h: Hook, event: string, w: World, retries: int) {
    && r.hook == h.id && r.event == event && r.delivered == (200 <= r.status < 300)
    && exists k: nat :: Attempts(w, retries, k) && k > 0 && r.status == w.status(k - 1)
  }

  class Dispatcher {
    const maxRetries: int
    var deliveries: seq<Record>

    constructor (maxRetries: int)
      ensures this.maxRetries == maxRetries && deliveries == []
    {
      this.maxRetries, deliveries := maxRetries, [];
    }

    method RecordDelivery(hook: int, event: string, status: int, stored: bool) returns (r: Record)
      modifies this
      ensures r == Record(hook, event, status, 200 <= status < 300)
      ensures deliveries == old(deliveries) + if stored then [r] else []
    {
      var delivered := status >= 200 && status < 300;
      r := Record(hook, event, status, delivered);
      if stored {
        deliveries := deliveries + [r];
      }
    }

    /** One turn of the loop: deliver to a hook, then record the outcome. */
    method DeliverTo(h: Hook, event: string, w: World, retries: int, stored: bool) returns (r: Record)
      requires retries > 0
      modifies this
      ensures RightRecord(r, h, event, w, retries)
      ensures deliveries == old(deliveries) + if stored then [r] else []
    {
      var status, made, _ := DeliverWithRetries(w, retries);
      r := RecordDelivery(h.id, event, status, stored);
    }

    /** `worlds` is what each delivery meets and `stored` whether its record can be written; a record that
        cannot is logged and the loop goes on. */
    method Dispatch(hooks: seq<Hook>, event: string, worlds: nat -> World, stored: nat -> bool)
        returns (tried: seq<Record>)
      modifies this
      ensures |tried| == |Matching(hooks, event)|
      ensures forall i | 0 <= i < |tried| ::
                RightRecord(tried[i], Matching(hooks, event)[i], event, worlds(i),
                            if maxRetries <= 0 then 3 else maxRetries)
      ensures deliveries == old(deliveries) + Kept(tried, stored)
    {
      hide RightRecord, Matching;
      var matching := Matching(hooks, event);
      var retries := maxRetries;
      if retries <= 0 {
        retries := 3;
      }
      tried := [];
      for i := 0 to |matching|
        invariant |tried| == i
        invariant forall j | 0 <= j < i :: RightRecord(tried[j], matching[j], event, worlds(j), retries)
        invariant deliveries == old(deliveries) + Kept(tried, stored)
      {
        var r := DeliverTo(matching[i], event, worlds(i), retries, stored(i));
        ghost var before := tried;
        tried := tried + [r];
        assert tried[..i] == before;
      }
    }
  }

  /** The tried records that could be written. */
  function Kept(tried: seq<Record>, stored: nat -> bool): seq<Record> {
    if tried == [] then []
    else
      var n := |tried| - 1;
      Kept(tried[..n], stored) + (if stored(n) then [tried[n]] else [])
  }

  /** The places of the active subscribed hooks, from a given one on. */
  function Places(hooks: seq<Hook>, event: string, from: nat): (places: seq<nat>)
    requires from <= |hooks|
    ensures forall i | 0 <= i < |places| :: from <= places[i] < |hooks|
    ensures forall i, j | 0 <= i < j < |places| :: places[i] < places[j]
    ensures forall p: nat | from <= p < |hooks| ::
              p in places <==> hooks[p].active && (event == "" || event in hooks[p].events)
    decreases |hooks| - from
  {
    if from == |hooks| then []
    else (if Matches(hooks[from], event) then [from] else []) + Places(hooks, event, from + 1)
  }

  /** The hooks matched are those at these places, and so the active subscribed ones in their order. */
  lemma {:induction false} MatchingIsExact(hooks: seq<Hook>, event: string, from: nat)
    requires from <= |hooks|
    ensures var places := Places(hooks, event, from);
            && |Matching(hooks[from..], event)| == |places|
            && forall i | 0 <= i < |places| :: Matching(hooks[from..], event)[i] == hooks[places[i]]
    decreases |hooks| - from
  {
    if from < |hooks| {
      MatchingIsExact(hooks, event, from + 1);
      assert hooks[from..][0] == hooks[from] && hooks[from..][1..] == hooks[from + 1..];
    }
  }
}
