/**
  The invariant of the admission controller and its preservation by every
  event, hence by every event trace starting at process start.
 */
module AdmissionInvariant {
  import opened Admission

  /** Job ids are arrival positions: the i-th job to arrive has id i. */
  ghost predicate ArrivalIds(jobs: seq<Job>) {
    forall i :: 0 <= i < |jobs| ==> jobs[i].id == i
  }

  /** The ids of the jobs whose caller has received a response. */
  function RepliedIds(replies: seq<Answer>): (ids: set<JobId>)
    ensures forall k :: 0 <= k < |replies| ==> replies[k].id in ids
  {
    set k | 0 <= k < |replies| :: replies[k].id
  }

  /** No caller is answered twice. */
  ghost predicate AnsweredOnce(replies: seq<Answer>) {
    forall j, k :: 0 <= j < k < |replies| ==> replies[j].id != replies[k].id
  }

  /** The ids below `n`. */
  function IdsBelow(n: nat): (ids: set<JobId>)
    ensures forall id: JobId :: id in ids <==> id < n
  {
    if n == 0 then {} else IdsBelow(n - 1) + {n - 1}
  }

  /** The ids of the jobs whose backend call has been issued. */
  function StartedIds(s: State): set<JobId> {
    IdsBelow(|s.started|)
  }

  /** The bookkeeping of jobs:
      - backend calls followed by the wait list are exactly the arrivals, in order;
      - every started job is either in flight or answered, not both;
      - no caller is answered twice. */
  ghost predicate Ledger(s: State) {
    && s.submitted == s.started + s.waiting
    && ArrivalIds(s.submitted)
    && s.inFlight !! RepliedIds(s.replies)
    && s.inFlight + RepliedIds(s.replies) == StartedIds(s)
    && AnsweredOnce(s.replies)
  }

  /** What holds in every state the server can reach: the counter stays
      within the limit and equals the number of jobs in flight, a non-empty
      wait list means the counter is at the limit, and the ledger is sound. */
  ghost predicate Inv(max: int, s: State) {
    && 0 <= s.active <= max
    && s.active == |s.inFlight|
    && (|s.waiting| > 0 ==> s.active == max)
    && Ledger(s)
  }

  lemma RepliedIdsAppend(replies: seq<Answer>, a: Answer)
    ensures RepliedIds(replies + [a]) == RepliedIds(replies) + {a.id}
  {
    var rs := replies + [a];
    assert rs[|replies|] == a;
    forall id | id in RepliedIds(rs) ensures id in RepliedIds(replies) + {a.id} {
      var k :| 0 <= k < |rs| && rs[k].id == id;
      if k < |replies| {
        assert rs[k] == replies[k];
      }
    }
    forall k | 0 <= k < |replies| ensures replies[k].id in RepliedIds(rs) {
      assert rs[k] == replies[k];
    }
  }

  /** Process start satisfies the invariant for any non-negative limit. */
  lemma InitInv(max: int)
    requires 0 <= max
    ensures Inv(max, Init())
  {
  }

  lemma SubmitPreservesInv(max: int, s: State, text: string)
    requires Inv(max, s)
    ensures Inv(max, Submit(max, s, text))
  {
  }

  /** Answering an in-flight job moves it from in flight to answered. */
  lemma ReleasePreservesLedger(s: State, id: JobId, ok: bool)
    requires id in s.inFlight
    requires Ledger(s)
    ensures Ledger(Release(s, id, ok))
  {
    var r := Release(s, id, ok);
    RepliedIdsAppend(s.replies, Answer(id, ReplyFor(ok)));
    assert id !in RepliedIds(s.replies);
    forall j, k | 0 <= j < k < |r.replies| ensures r.replies[j].id != r.replies[k].id {
      assert r.replies[j] == s.replies[j];
      if k < |s.replies| {
        assert r.replies[k] == s.replies[k];
      } else {
        assert s.replies[j].id in RepliedIds(s.replies);
      }
    }
    assert StartedIds(r) == StartedIds(s);
  }

  /** Starting the wait-list head moves a job that was not yet started into flight. */
  lemma DispatchPreservesLedger(max: int, s: State)
    requires Ledger(s)
    ensures Ledger(Dispatch(max, s))
    ensures Dispatch(max, s) != s ==> |Dispatch(max, s).inFlight| == |s.inFlight| + 1
  {
    var r := Dispatch(max, s);
    if |s.waiting| > 0 && s.active < max {
      var n := |s.started|;
      assert s.submitted[n] == s.waiting[0];
      assert n !in s.inFlight;
      assert n !in RepliedIds(s.replies);
      assert StartedIds(r) == StartedIds(s) + {n};
      assert r.submitted == r.started + r.waiting;
    }
  }

  lemma CompletePreservesInv(max: int, s: State, id: JobId, ok: bool)
    requires Inv(max, s)
    requires id in s.inFlight
    ensures Inv(max, Complete(max, s, id, ok))
  {
    var m := Release(s, id, ok);
    ReleasePreservesLedger(s, id, ok);
    DispatchPreservesLedger(max, m);
  }

  lemma StepPreservesInv(max: int, s: State, e: Event)
    requires Inv(max, s)
    ensures Inv(max, Step(max, s, e))
  {
    match e
    case Arrival(text) => SubmitPreservesInv(max, s, text);
    case Settled(id, ok) =>
      if id in s.inFlight {
        CompletePreservesInv(max, s, id, ok);
      }
  }

  lemma {:induction false} RunPreservesInv(max: int, s: State, events: seq<Event>)
    requires Inv(max, s)
    ensures Inv(max, Run(max, s, events))
    decreases |events|
  {
    if events != [] {
      StepPreservesInv(max, s, events[0]);
      RunPreservesInv(max, Step(max, s, events[0]), events[1..]);
    }
  }

  /** Every state reachable from process start, by any sequence of arrivals and
      completions, satisfies the invariant: in particular the counter never
      exceeds the limit and always equals the number of jobs in flight. */
  lemma ReachableInv(max: int, events: seq<Event>)
    requires 0 <= max
    ensures Inv(max, Run(max, Init(), events))
    ensures var s := Run(max, Init(), events);
      0 <= s.active <= max && s.active == |s.inFlight|
  {
    InitInv(max);
    RunPreservesInv(max, Init(), events);
  }
}
