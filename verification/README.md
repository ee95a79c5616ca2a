# Text-to-speech admission controller

A Dafny model of the admission controller of the voice chatbot's server
(`src/server.ts`). The server forwards each `POST /tts` request to a speech
synthesis backend, but never runs more than `MAX_CONCURRENCY` (default 2)
backend calls at once. Requests that arrive while the limit is reached wait in
a first-in-first-out queue. When a backend call settles, successfully or not,
its caller is answered, the counter goes down and `processNextRequest` starts
the head of the queue.

Node runs each callback to completion on one thread, so every event is one
atomic step. The model is a sequential state machine:

- `admission.dfy` (module `Admission`): the state (`active` counter, `waiting`
  queue, `inFlight` job set, and the logs of arrivals, backend calls and
  responses) and the pure steps `Submit` (the `/tts` handler), `Release` +
  `Dispatch` = `Complete` (the `.then`/`.catch` callbacks followed by
  `processNextRequest`), `Step` for one event, and `Run`, the plain left-to-right
  fold of `Step` over an event trace. The backend's
  result enters as the `ok` flag of a `Settled(id, ok)` event.
- `invariant.dfy` (module `AdmissionInvariant`): the invariant `Inv` and its
  preservation by every event, so it holds in every reachable state.
- `properties.dfy` (module `AdmissionProperties`): no overtaking, FIFO service,
  every job in exactly one place, exactly-once answers, failure handled like
  success, draining, a zero limit starving everything, and a worked scenario.
- `server_loop.dfy` (module `ServerLoop`): the server written as in-place
  updates of its variables, one callback at a time, proved equal to the model.

Jobs are identified by their arrival position. In the server a job is
identified by its own response object, so two requests carrying the same text
are two jobs. The concurrency limit is a parameter `max`. The safety
invariants need only `max >= 0`. Draining needs `max >= 1`.

## Model

| member | source | states |
|---|---|---|
| Admission.Init | src/server.ts:8-14 | at process start the counter is 0, the queue is empty and nothing is in flight or answered |
| Admission.ReplyFor | src/server.ts:96-101 | success is answered with `audio/mpeg` audio and failure with status 500 and "Error processing TTS request", and only those |
| Admission.Dispatch | src/server.ts:92-106 | nothing changes exactly when the queue is empty or the counter is at the limit; otherwise only the queue head leaves, becomes in flight and gets its backend call, the counter rises by 1, and the rest of the queue keeps its order |
| Admission.Submit | src/server.ts:109-125 | below the limit the new job is in flight at once, the counter rises by 1 and the queue is unchanged; at the limit the job goes to the tail of the queue and the counter is unchanged; either way it is logged as the next arrival |
| Admission.Release | src/server.ts:96-102 | a completion answers its job once, removes it from flight and lowers the counter by exactly 1 |
| Admission.Complete | src/server.ts:96-104 | a completion answers exactly its own job, keeps service order, and starts at most one waiting job, only the head, which it starts exactly when one is waiting and the counter, once lowered, is below the limit |
| Admission.Step | src/server.ts:92-125 | an arrival logs exactly one new job, the next arrival position, with its text; a settlement never changes the arrivals; a settlement for a job not in flight changes nothing |
| AdmissionInvariant.InitInv | src/server.ts:8-14 | the invariant holds at process start for any non-negative limit |
| AdmissionInvariant.SubmitPreservesInv | src/server.ts:109-114 | an arrival keeps the counter within the limit and equal to the jobs in flight, and keeps the queue non-empty only at the limit |
| AdmissionInvariant.ReleasePreservesLedger | src/server.ts:96-102 | answering moves the job from in flight to answered, and no caller is answered twice |
| AdmissionInvariant.DispatchPreservesLedger | src/server.ts:92-95 | starting the queue head moves a job that was not yet started into flight |
| AdmissionInvariant.CompletePreservesInv | src/server.ts:96-104 | a completion, success or failure, keeps the invariant |
| AdmissionInvariant.StepPreservesInv | src/server.ts:92-125 | every event keeps the invariant |
| AdmissionInvariant.RunPreservesInv | src/server.ts:92-125 | every event trace keeps the invariant |
| AdmissionInvariant.ReachableInv | src/server.ts:92-125 | from process start, no sequence of arrivals and completions makes the counter exceed the limit or differ from the number of jobs in flight |
| AdmissionProperties.SubmitNeverOvertakes | src/server.ts:110-114 | an arrival is started at once exactly when the counter is below the limit; in a reachable state that means nothing is waiting, so a new request never overtakes a waiting one |
| AdmissionProperties.ServiceOrderIsArrivalOrder | src/server.ts:92-114 | the i-th backend call is made for the i-th arrival, and the queue holds exactly the later arrivals, in arrival order |
| AdmissionProperties.StepExtendsLogs | src/server.ts:92-125 | no event rewrites history: arrivals, backend calls and responses only grow at their ends |
| AdmissionProperties.RunExtendsLogs | src/server.ts:92-125 | the same holds over any event trace |
| AdmissionProperties.FifoDispatch | src/server.ts:92-114 | over whole traces, backend calls are a prefix of the arrivals and later events only add calls for later arrivals |
| AdmissionProperties.ExactlyOnePlace | src/server.ts:92-125 | every arrived job, even one whose text equals another's, is in exactly one of waiting, in flight and answered; an id that never arrived is in none |
| AdmissionProperties.CompleteAnswersOnce | src/server.ts:96-104 | a completion answers a job that had no answer, exactly once; after the completion and any further events the job is never in flight again, and a later completion event for it changes nothing |
| AdmissionProperties.OutcomeDoesNotAffectAdmission | src/server.ts:96-104 | success and failure have the same effect on the counter, queue, jobs in flight and backend calls; they differ only in the response sent |
| AdmissionProperties.CompleteHandsOverSlot | src/server.ts:92-104 | in a reachable state a completion hands its slot to the queue head when there is one, and otherwise lowers the counter by 1 |
| AdmissionProperties.WaitingImpliesInFlight | src/server.ts:92-114 | with a positive limit, jobs wait only while the limit's worth of jobs is in flight, so together with `AdmissionProperties.CompleteHandsOverSlot` some completion will always start the queue head |
| AdmissionProperties.ZeroLimitStarves | src/server.ts:110-112 | with a limit of 0 no request ever reaches the backend and nothing is ever in flight |
| AdmissionProperties.CompleteShrinksWork | src/server.ts:96-104 | each completion leaves one job fewer waiting or in flight and keeps the invariant |
| AdmissionProperties.IdleMeansAllAnswered | src/server.ts:92-125 | with a positive limit and nothing in flight, the counter is 0, nothing waits and every arrived job has been answered |
| AdmissionProperties.DrainEvents | src/server.ts:92-104 | with a positive limit there is a trace of completions only, one per waiting or in-flight job, in an order the lemma picks and with one outcome shared by all, that empties both the wait list and the in-flight set |
| AdmissionProperties.Drain | src/server.ts:92-104 | such a completion trace, with one shared outcome, brings the server back to idle with every arrived job answered |
| AdmissionProperties.AnyDrain | src/server.ts:92-123 | with a positive limit, every trace of completions of in-flight jobs, in any order and with any mix of successes and failures, settling one call per waiting or in-flight job, brings the server back to idle: counter 0, nothing waiting or in flight, every arrived job answered |
| AdmissionProperties.ThreeRequestScenario | src/server.ts:109-125 | with the default limit of 2 and requests a, b, c: a and b start at once and c waits; when b finishes c starts; at the end nothing is in flight or waiting and the callers are answered in completion order |
| ServerLoop.Handle | src/server.ts:92-125 | one callback written as in-place updates of the server's variables gives the same state as the model's step |
| ServerLoop.Serve | src/server.ts:8-14 | the server's event loop from process start ends in the model's state for the same events, with the counter within the limit and the queue non-empty only at the limit |

## Left out

- `processTTS` (src/server.ts:55-89): the HTTP call to the synthesis backend. Only its outcome is modelled, as the `ok` flag of a `Settled` event. The audio bytes are not modelled.
- The `/upload` route (src/server.ts:38-54) and `api/upload.ts`: a pass-through to a speech-to-text service. It is pure I/O. The server route never responds when that call fails.
- `api/tts.ts`: a stateless serverless variant with a method check and one backend call. It has no queue.
- CORS middleware, body parsers, environment loading and `listen`: framework plumbing.
- Parsing `MAX_CONCURRENCY` from the environment (src/server.ts:8). The limit is an integer parameter. `parseInt` can yield `NaN`, and then every comparison is false and every request is admitted. That case is not modelled. A limit of 0 is modelled (`ZeroLimitStarves`).
- A request without a `text` field: the text is taken as given. The model never inspects it.
- Admission.Step: a `Settled` event for a job that is not in flight leaves the state unchanged. The server has no callback for such a job, so the event cannot happen there.
- `.then(...).catch(...)` (src/server.ts:96-104, 115-123): if the success callback threw after lowering the counter, the failure callback would lower it a second time. Sending a response does not throw in normal operation, so the model treats each callback as one step that does not fail.
- `src/Chatbot.tsx` and `src/App.tsx`: React state, iframe messages, microphone capture and audio playback. `Chatbot.tsx` keeps `messageQueue` and `audioQueue` as React state arrays and shifts them in place (src/Chatbot.tsx:101, 121). It has no sequence numbers and no in-order buffering, and it can start overlapping fetches, so playback order follows network completion and re-render scheduling. There is no ordering contract to model, and the client is left out.
- Real concurrency, timeouts and cancellation: the server has none. Each callback is one atomic step.
- A response is delivered "exactly once" in two halves. `CompleteAnswersOnce` and the invariant prove at most once. `AnyDrain` proves that completions alone, in any order and with any outcomes, answer every job. The model does not prove that the backend eventually settles.
- AdmissionProperties.DrainEvents: shows that one draining trace exists, with a completion order it picks and one outcome for every job. Every other order and mix of outcomes is covered by `AnyDrain`.
- AdmissionProperties.Drain: like `DrainEvents`, an existence result for one shared outcome. `AnyDrain` is the universal statement.
