/**
  The server as it is written: process-wide mutable variables (`activeRequests`,
  `requestQueue`) updated in place by one callback at a time. The event loop
  below runs a trace of events and is proved to agree with the step functions
  of module Admission and to keep the counter within the limit throughout.
 */
module ServerLoop {
  import opened Admission
  import opened AdmissionInvariant

  /** The server's variables. `inFlight`, `arrived`, `called` and
      `responses` are not variables of the server; they record what the backend and the callers
      have seen, so that the run can be compared with the model. */
  datatype Globals = Globals(
    activeRequests: int,
    requestQueue: seq<Job>,
    inFlight: set<JobId>,
    arrived: seq<Job>,
    called: seq<Job>,
    responses: seq<Answer>)

  function AsState(g: Globals): State {
    State(g.activeRequests, g.requestQueue, g.inFlight, g.arrived, g.called, g.responses)
  }

  /** One callback of the server, written as in-place updates of its variables:
      the `/tts` handler for an arrival, and for a settled backend call the
      completion callback followed by `processNextRequest`. */
  method Handle(max: int, g: Globals, e: Event) returns (h: Globals)
    ensures AsState(h) == Step(max, AsState(g), e)
  {
    var activeRequests := g.activeRequests;
    var requestQueue := g.requestQueue;
    var inFlight := g.inFlight;
    var arrived := g.arrived;
    var called := g.called;
    var responses := g.responses;
    match e {
      case Arrival(text) =>
        var job := Job(|arrived|, text);
        arrived := arrived + [job];
        if activeRequests >= max {
          requestQueue := requestQueue + [job];
        } else {
          activeRequests := activeRequests + 1;
          inFlight := inFlight + {job.id};
          called := called + [job];
        }
      case Settled(id, ok) =>
        if id in inFlight {
          responses := responses + [Answer(id, ReplyFor(ok))];
          activeRequests := activeRequests - 1;
          inFlight := inFlight - {id};
          // processNextRequest
          if |requestQueue| > 0 && activeRequests < max {
            var head := requestQueue[0];
            requestQueue := requestQueue[1..];
            activeRequests := activeRequests + 1;
            inFlight := inFlight + {head.id};
            called := called + [head];
          }
        }
    }
    h := Globals(activeRequests, requestQueue, inFlight, arrived, called, responses);
  }

  /** Runs the events one callback at a time from process start. */
  method Serve(max: int, events: seq<Event>) returns (g: Globals)
    requires 0 <= max
    ensures AsState(g) == Run(max, Init(), events)
    ensures 0 <= g.activeRequests <= max
    ensures g.activeRequests == |g.inFlight|
    ensures |g.requestQueue| > 0 ==> g.activeRequests == max
  {
    g := Globals(0, [], {}, [], [], []);
    InitInv(max);
    var i := 0;
    while i < |events|
      invariant 0 <= i <= |events|
      invariant Inv(max, AsState(g))
      invariant Run(max, AsState(g), events[i..]) == Run(max, Init(), events)
    {
      StepPreservesInv(max, AsState(g), events[i]);
      assert events[i..][1..] == events[i + 1..];
      g := Handle(max, g, events[i]);
      i := i + 1;
    }
  }
}
