/**
  The admission controller of the text-to-speech endpoint (`POST /tts`).

  The server keeps a counter of backend calls in progress and a first-in
  first-out wait list of requests that arrived while the counter was at the
  concurrency limit. Node runs every callback to completion on one thread, so
  each of the three ways the state changes is one atomic step here:

  - `Submit`   — a request arrives at the `/tts` handler;
  - `Complete` — the backend call of an in-flight job settles (success or failure);
  - `Dispatch` — `processNextRequest`, the attempt to start the wait-list head.

  The backend call itself is not modelled: its result enters `Complete` as a
  success flag.
 */
module Admission {

  /** A job is identified by its position in the arrival order. In the server
      a job is identified by its own response object, so two requests carrying
      the same text are still two distinct jobs. */
  type JobId = nat

  /** The limit used when no limit is configured. */
  const DefaultMaxConcurrency: int := 2

  /** What the caller receives when the backend succeeds or fails. */
  const AudioContentType: string := "audio/mpeg"
  const ErrorStatus: int := 500
  const ErrorMessage: string := "Error processing TTS request"

  datatype Job = Job(id: JobId, text: string)

  datatype Reply =
    | Audio(contentType: string)
    | Failed(status: int, message: string)

  /** One response sent on a job's response object. */
  datatype Answer = Answer(id: JobId, reply: Reply)

  /** The server's admission state, plus the logs a caller can observe.
      - `active`    the counter of backend calls in progress;
      - `waiting`   the wait list, head first;
      - `inFlight`  the jobs whose backend call is in progress;
      - `submitted` every job in arrival order;
      - `started`   every job in the order its backend call was issued;
      - `replies`   every response sent, in order. */
  datatype State = State(
    active: int,
    waiting: seq<Job>,
    inFlight: set<JobId>,
    submitted: seq<Job>,
    started: seq<Job>,
    replies: seq<Answer>
  )

  /** The events the server reacts to: a request arriving at `/tts`, and the
      backend call of one job settling with the given outcome. */
  datatype Event =
    | Arrival(text: string)
    | Settled(id: JobId, ok: bool)

  /** The state at process start: no backend call in progress, nothing waiting. */
  function Init(): (s: State)
    ensures s.active == 0 && s.waiting == [] && s.inFlight == {}
    ensures s.submitted == [] && s.started == [] && s.replies == []
  {
    State(0, [], {}, [], [], [])
  }

  /** The response a job's caller gets for a backend outcome. */
  function ReplyFor(ok: bool): (r: Reply)
    ensures r.Audio? <==> ok
    ensures r.Audio? ==> r.contentType == AudioContentType
    ensures r.Failed? ==> r.status == ErrorStatus && r.message == ErrorMessage
  {
    if ok then Audio(AudioContentType) else Failed(ErrorStatus, ErrorMessage)
  }

  /** `processNextRequest`: start the head of the wait list when there is
      one and the counter is below the limit; otherwise do nothing. */
  function Dispatch(max: int, s: State): (r: State)
    // the order in which jobs are served is never changed, and nothing is lost
    ensures r.started + r.waiting == s.started + s.waiting
    ensures r.submitted == s.submitted && r.replies == s.replies
    // nothing happens exactly when the list is empty or the limit is reached
    ensures r == s <==> (|s.waiting| == 0 || s.active >= max)
    ensures r != s ==>
      && r.waiting == s.waiting[1..]
      && r.started == s.started + [s.waiting[0]]
      && r.active == s.active + 1
      && r.inFlight == s.inFlight + {s.waiting[0].id}
  {
    if |s.waiting| > 0 && s.active < max then
      var head := s.waiting[0];
      assert s.started + s.waiting == (s.started + [head]) + s.waiting[1..];
      s.(waiting := s.waiting[1..],
         active := s.active + 1,
         inFlight := s.inFlight + {head.id},
         started := s.started + [head])
    else
      s
  }

  /** The `/tts` handler: a new job is started at once when the counter is
      below the limit, and otherwise appended to the tail of the wait list. */
  function Submit(max: int, s: State, text: string): (r: State)
    ensures var job := Job(|s.submitted|, text);
      && r.submitted == s.submitted + [job]
      && r.replies == s.replies
      && (s.active < max ==>
            && r.active == s.active + 1
            && r.inFlight == s.inFlight + {job.id}
            && r.started == s.started + [job]
            && r.waiting == s.waiting
            // started at once: it is served ahead of anything already waiting
            && r.started + r.waiting == s.started + [job] + s.waiting)
      && (s.active >= max ==>
            && r.active == s.active
            && r.inFlight == s.inFlight
            && r.started == s.started
            && r.waiting == s.waiting + [job]
            // queued: it is served after every job that arrived before it
            && r.started + r.waiting == s.started + s.waiting + [job])
  {
    var job := Job(|s.submitted|, text);
    if s.active >= max then
      s.(waiting := s.waiting + [job], submitted := s.submitted + [job])
    else
      s.(active := s.active + 1,
         inFlight := s.inFlight + {job.id},
         submitted := s.submitted + [job],
         started := s.started + [job])
  }

  /** The first three lines of either completion callback: answer the
      caller, then lower the counter. */
  function Release(s: State, id: JobId, ok: bool): (r: State)
    requires id in s.inFlight
    ensures r.replies == s.replies + [Answer(id, ReplyFor(ok))]
    ensures r.active == s.active - 1
    ensures r.inFlight == s.inFlight - {id} && |r.inFlight| == |s.inFlight| - 1
    ensures r.waiting == s.waiting && r.started == s.started && r.submitted == s.submitted
  {
    assert (s.inFlight - {id}) + {id} == s.inFlight;
    s.(replies := s.replies + [Answer(id, ReplyFor(ok))],
       active := s.active - 1,
       inFlight := s.inFlight - {id})
  }

  /** A completion callback (`.then` on success, `.catch` on failure): answer,
      lower the counter, then make one dispatch attempt. Such a callback only
      exists for a job whose backend call is in progress. */
  function Complete(max: int, s: State, id: JobId, ok: bool): (r: State)
    requires id in s.inFlight
    ensures r.replies == s.replies + [Answer(id, ReplyFor(ok))]
    ensures id !in r.inFlight || (|s.waiting| > 0 && s.waiting[0].id == id)
    ensures r.started + r.waiting == s.started + s.waiting
    ensures r.submitted == s.submitted
    // at most one waiting job is started, and only the head
    ensures |s.waiting| - 1 <= |r.waiting| <= |s.waiting|
    ensures r.active == s.active - 1 + (|s.waiting| - |r.waiting|)
    // the dispatch attempt starts the head exactly when, after the release,
    // there is one and the counter is below the limit
    ensures |r.waiting| == |s.waiting| - 1 <==> (|s.waiting| > 0 && s.active - 1 < max)
  {
    Dispatch(max, Release(s, id, ok))
  }

  /** One event of the server's event loop. A completion for a job that is
      not in flight cannot occur in the server (no callback exists for it);
      here it leaves the state unchanged. */
  function Step(max: int, s: State, e: Event): (r: State)
    ensures e.Arrival? ==> r.submitted == s.submitted + [Job(|s.submitted|, e.text)]
    ensures e.Settled? ==> r.submitted == s.submitted
    ensures e.Settled? && e.id !in s.inFlight ==> r == s
  {
    match e
    case Arrival(text) => Submit(max, s, text)
    case Settled(id, ok) => if id in s.inFlight then Complete(max, s, id, ok) else s
  }

  /** The state after the events, in order, starting from `s`. */
  function Run(max: int, s: State, events: seq<Event>): State
    decreases |events|
  {
    if events == [] then s else Run(max, Step(max, s, events[0]), events[1..])
  }
}
