/**
  Properties of the admission controller over reachable states and event
  traces: no overtaking, first-in-first-out service, every job in exactly one
  place, exactly-once answers, failure handled like success, and draining.
 */
module AdmissionProperties {
  import opened Admission
  import opened AdmissionInvariant

  /** The ids of the jobs on the wait list. */
  function WaitingIds(s: State): (ids: set<JobId>)
    ensures forall j :: 0 <= j < |s.waiting| ==> s.waiting[j].id in ids
  {
    set j | 0 <= j < |s.waiting| :: s.waiting[j].id
  }

  /** An arrival is started at once exactly when the counter is below the
      limit; in a reachable state that also means nothing is waiting, so a
      new request never overtakes a waiting one. */
  lemma SubmitNeverOvertakes(max: int, s: State, text: string)
    requires Inv(max, s)
    ensures var r := Submit(max, s, text);
      && (|r.started| == |s.started| + 1 <==> s.active < max)
      && (s.active < max ==> s.waiting == [])
      && (|s.waiting| > 0 ==> r.started == s.started && r.waiting == s.waiting + [Job(|s.submitted|, text)])
  {
  }

  /** In a reachable state the wait list is exactly the arrivals not yet
      started, and the backend calls are exactly the earlier arrivals, both in
      arrival order: the i-th backend call is made for the i-th arrival. */
  lemma ServiceOrderIsArrivalOrder(max: int, s: State)
    requires Inv(max, s)
    ensures s.started == s.submitted[..|s.started|]
    ensures s.waiting == s.submitted[|s.started|..]
    ensures forall i :: 0 <= i < |s.started| ==> s.started[i].id == i
    ensures forall j :: 0 <= j < |s.waiting| ==> s.waiting[j].id == |s.started| + j
  {
  }

  /** `a` is a prefix of `b`. */
  ghost predicate Prefix<T>(a: seq<T>, b: seq<T>) {
    |a| <= |b| && b[..|a|] == a
  }

  /** No event rewrites history: the arrival log, the backend-call log and the
      response log only ever grow at their ends. */
  lemma StepExtendsLogs(max: int, s: State, e: Event)
    ensures var r := Step(max, s, e);
      Prefix(s.submitted, r.submitted) && Prefix(s.started, r.started) && Prefix(s.replies, r.replies)
  {
  }

  lemma {:induction false} RunExtendsLogs(max: int, s: State, events: seq<Event>)
    ensures var r := Run(max, s, events);
      Prefix(s.submitted, r.submitted) && Prefix(s.started, r.started) && Prefix(s.replies, r.replies)
    decreases |events|
  {
    if events != [] {
      var m := Step(max, s, events[0]);
      StepExtendsLogs(max, s, events[0]);
      RunExtendsLogs(max, m, events[1..]);
      var r := Run(max, m, events[1..]);
      assert r.submitted[..|s.submitted|] == r.submitted[..|m.submitted|][..|s.submitted|];
      assert r.started[..|s.started|] == r.started[..|m.started|][..|s.started|];
      assert r.replies[..|s.replies|] == r.replies[..|m.replies|][..|s.replies|];
    }
  }

  /** First in, first out over whole traces: from process start, the backend
      calls made by any sequence of events are a prefix of the arrivals, and
      any further events only add calls for later arrivals. */
  lemma FifoDispatch(max: int, events: seq<Event>, more: seq<Event>)
    requires 0 <= max
    ensures var s := Run(max, Init(), events);
      var t := Run(max, s, more);
      && Prefix(s.started, s.submitted)
      && Prefix(t.started, t.submitted)
      && Prefix(s.started, t.started)
  {
    var s := Run(max, Init(), events);
    ReachableInv(max, events);
    ServiceOrderIsArrivalOrder(max, s);
    RunPreservesInv(max, s, more);
    ServiceOrderIsArrivalOrder(max, Run(max, s, more));
    RunExtendsLogs(max, s, more);
  }

  function Indicator(b: bool): nat {
    if b then 1 else 0
  }

  /** No job is lost or merged: every arrival, including one whose text equals
      another's, is in exactly one of waiting, in flight and answered; an id
      that never arrived is in none of them. */
  lemma ExactlyOnePlace(max: int, s: State, id: JobId)
    requires Inv(max, s)
    ensures id < |s.submitted| ==>
      Indicator(id in WaitingIds(s)) + Indicator(id in s.inFlight) + Indicator(id in RepliedIds(s.replies)) == 1
    ensures id >= |s.submitted| ==>
      id !in WaitingIds(s) && id !in s.inFlight && id !in RepliedIds(s.replies)
  {
    ServiceOrderIsArrivalOrder(max, s);
    assert id in WaitingIds(s) <==> |s.started| <= id < |s.submitted| by {
      if id in WaitingIds(s) {
        var j :| 0 <= j < |s.waiting| && s.waiting[j].id == id;
      }
      if |s.started| <= id < |s.submitted| {
        assert s.waiting[id - |s.started|].id == id;
      }
    }
    assert id in s.inFlight || id in RepliedIds(s.replies) <==> id in StartedIds(s);
  }

  /** A completion answers its job exactly once: the job had no response
      before, gets exactly one now, and leaves flight for good: after any
      further events it is still not in flight, and a later completion event
      for it changes nothing. */
  lemma CompleteAnswersOnce(max: int, s: State, id: JobId, ok: bool, later: bool, more: seq<Event>)
    requires Inv(max, s)
    requires id in s.inFlight
    ensures id !in RepliedIds(s.replies)
    ensures var r := Complete(max, s, id, ok);
      && r.replies == s.replies + [Answer(id, ReplyFor(ok))]
      && id !in r.inFlight
      && Step(max, r, Settled(id, later)) == r
    ensures var t := Run(max, Complete(max, s, id, ok), more);
      && id !in t.inFlight
      && Step(max, t, Settled(id, later)) == t
  {
    ServiceOrderIsArrivalOrder(max, s);
    if |s.waiting| > 0 {
      assert s.waiting[0].id == |s.started|;
      assert s.waiting[0].id !in StartedIds(s);
    }
    var r := Complete(max, s, id, ok);
    var t := Run(max, r, more);
    CompletePreservesInv(max, s, id, ok);
    RunPreservesInv(max, r, more);
    RunExtendsLogs(max, r, more);
    assert t.replies[|s.replies|] == r.replies[|s.replies|];
    assert id in RepliedIds(t.replies);
  }

  /** Success and failure differ only in the response sent: the counter, the
      wait list, the jobs in flight and the backend calls come out the same. */
  lemma OutcomeDoesNotAffectAdmission(max: int, s: State, id: JobId)
    requires id in s.inFlight
    ensures var good := Complete(max, s, id, true);
      var bad := Complete(max, s, id, false);
      && good.active == bad.active
      && good.waiting == bad.waiting
      && good.inFlight == bad.inFlight
      && good.started == bad.started
      && good.replies[..|s.replies|] == bad.replies[..|s.replies|]
      && good.replies[|s.replies|] == Answer(id, Audio(AudioContentType))
      && bad.replies[|s.replies|] == Answer(id, Failed(ErrorStatus, ErrorMessage))
  {
  }

  /** A completion, successful or not, hands its slot to the wait-list head
      when there is one, and otherwise gives it back. */
  lemma CompleteHandsOverSlot(max: int, s: State, id: JobId, ok: bool)
    requires Inv(max, s)
    requires id in s.inFlight
    ensures var r := Complete(max, s, id, ok);
      && (|s.waiting| > 0 ==>
            && r.active == s.active
            && r.started == s.started + [s.waiting[0]]
            && r.waiting == s.waiting[1..]
            && s.waiting[0].id in r.inFlight)
      && (|s.waiting| == 0 ==>
            && r.active == s.active - 1
            && r.started == s.started
            && r.waiting == [])
  {
  }

  /** In a reachable state with a positive limit, jobs wait only while some
      job is in flight, so there is always a completion that will start the
      wait-list head. */
  lemma WaitingImpliesInFlight(max: int, s: State)
    requires 1 <= max
    requires Inv(max, s)
    ensures |s.waiting| > 0 ==> |s.inFlight| == max
    ensures s.inFlight == {} ==> s.waiting == []
  {
  }

  /** With a limit of zero no request ever reaches the backend: every arrival
      waits forever. */
  lemma {:induction false} ZeroLimitStarves(s: State, events: seq<Event>)
    requires Inv(0, s)
    ensures Run(0, s, events).started == s.started
    ensures Run(0, s, events).inFlight == {}
    decreases |events|
  {
    if events != [] {
      var m := Step(0, s, events[0]);
      StepPreservesInv(0, s, events[0]);
      assert m.started == s.started;
      ZeroLimitStarves(m, events[1..]);
    }
  }

  /** Each completion leaves one job fewer in flight or waiting. */
  lemma CompleteShrinksWork(max: int, s: State, id: JobId, ok: bool)
    requires Inv(max, s)
    requires id in s.inFlight
    ensures var m := Step(max, s, Settled(id, ok));
      && Inv(max, m)
      && m.submitted == s.submitted
      && |m.inFlight| + |m.waiting| + 1 == |s.inFlight| + |s.waiting|
  {
    CompletePreservesInv(max, s, id, ok);
    CompleteHandsOverSlot(max, s, id, ok);
  }

  lemma RunCons(max: int, s: State, e: Event, rest: seq<Event>)
    ensures Run(max, s, [e] + rest) == Run(max, Step(max, s, e), rest)
  {
    assert ([e] + rest)[1..] == rest;
  }

  /** A reachable state with nothing in flight is idle: with a positive limit
      nothing waits, and every job that arrived has been answered. */
  lemma IdleMeansAllAnswered(max: int, s: State)
    requires 1 <= max
    requires Inv(max, s)
    requires s.inFlight == {}
    ensures s.active == 0 && s.waiting == []
    ensures forall id: JobId :: id < |s.submitted| ==> id in RepliedIds(s.replies)
  {
  }

  /** With a positive limit some completion trace drains the server: this one
      completes the jobs in flight one after another, in an order it picks,
      with the same outcome for every job and no new arrivals. */
  lemma {:induction false} DrainEvents(max: int, s: State, ok: bool) returns (events: seq<Event>)
    requires 1 <= max
    requires Inv(max, s)
    ensures |events| == |s.inFlight| + |s.waiting|
    ensures forall e :: e in events ==> e.Settled?
    ensures Inv(max, Run(max, s, events))
    ensures Run(max, s, events).inFlight == {}
    ensures Run(max, s, events).submitted == s.submitted
    decreases |s.inFlight| + |s.waiting|
  {
    if s.inFlight == {} {
      events := [];
      IdleMeansAllAnswered(max, s);
    } else {
      var id :| id in s.inFlight;
      var e := Settled(id, ok);
      var m := Step(max, s, e);
      CompleteShrinksWork(max, s, id, ok);
      var rest := DrainEvents(max, m, ok);
      events := [e] + rest;
      RunCons(max, s, e, rest);
    }
  }

  /** Some completion trace with one shared outcome ends in the idle state:
      counter zero, wait list empty, and every job that had arrived answered. */
  lemma Drain(max: int, s: State, ok: bool) returns (events: seq<Event>)
    requires 1 <= max
    requires Inv(max, s)
    ensures forall e :: e in events ==> e.Settled?
    ensures var r := Run(max, s, events);
      && r.active == 0
      && r.waiting == []
      && r.inFlight == {}
      && r.submitted == s.submitted
      && forall id: JobId :: id < |s.submitted| ==> id in RepliedIds(r.replies)
  {
    events := DrainEvents(max, s, ok);
    IdleMeansAllAnswered(max, Run(max, s, events));
  }

  /** `events` are completions only, each settling a job that is in flight
      when it occurs; the backend picks the order and each job's outcome. */
  ghost predicate Completions(max: int, s: State, events: seq<Event>)
    decreases |events|
  {
    events == [] ||
      (&& events[0].Settled?
       && events[0].id in s.inFlight
       && Completions(max, Step(max, s, events[0]), events[1..]))
  }

  /** With a positive limit the server drains whatever the backend does: any
      sequence of completions of in-flight jobs, in any order and with any mix
      of successes and failures, that settles as many calls as there are jobs
      waiting or in flight, leaves the counter at zero, the wait list empty,
      nothing in flight and every job that had arrived answered. */
  lemma {:induction false} AnyDrain(max: int, s: State, events: seq<Event>)
    requires 1 <= max
    requires Inv(max, s)
    requires Completions(max, s, events)
    requires |events| == |s.inFlight| + |s.waiting|
    ensures var r := Run(max, s, events);
      && r.active == 0
      && r.waiting == []
      && r.inFlight == {}
      && r.submitted == s.submitted
      && forall id: JobId :: id < |s.submitted| ==> id in RepliedIds(r.replies)
    decreases |events|
  {
    if events == [] {
      IdleMeansAllAnswered(max, s);
    } else {
      var e := events[0];
      CompleteShrinksWork(max, s, e.id, e.ok);
      AnyDrain(max, Step(max, s, e), events[1..]);
    }
  }

  /** The scenario of a limit of two and three quick requests "a", "b" and
      "c", where "b" finishes first, then "c", then "a": "a" and "b" start at
      once, "c" waits until "b" frees its slot, and at the end nothing is in
      flight or waiting and every caller was answered in completion order. */
  lemma ThreeRequestScenario()
    ensures var afterArrivals := Run(DefaultMaxConcurrency, Init(), [Arrival("a"), Arrival("b"), Arrival("c")]);
      && afterArrivals.active == 2
      && afterArrivals.started == [Job(0, "a"), Job(1, "b")]
      && afterArrivals.waiting == [Job(2, "c")]
    ensures var afterB := Run(DefaultMaxConcurrency, Init(), [Arrival("a"), Arrival("b"), Arrival("c"), Settled(1, true)]);
      && afterB.active == 2
      && afterB.started == [Job(0, "a"), Job(1, "b"), Job(2, "c")]
      && afterB.waiting == []
    ensures var done := Run(DefaultMaxConcurrency, Init(), [Arrival("a"), Arrival("b"), Arrival("c"),
                                        Settled(1, true), Settled(2, true), Settled(0, true)]);
      && done.active == 0
      && done.waiting == []
      && done.inFlight == {}
      && done.replies == [Answer(1, Audio(AudioContentType)), Answer(2, Audio(AudioContentType)),
                          Answer(0, Audio(AudioContentType))]
  {
  }
}
