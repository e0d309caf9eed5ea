/** The table of asynchronous requests as a state machine (`async_invoke.cpp`, `async_invoke_server.cpp`).

    Every operation of the server holds one mutex, so it is one step. Threads and the clock are not
    under that mutex: each time the code asks whether a thread has finished, or what time it is, the
    step takes an observation that says whether the thread finished just before, and how far the clock
    moved. A run is any sequence of steps with any observations. */
module RequestTable {
  import opened Values

  /** One look at the environment. */
  datatype Obs = Obs(finish: bool, dt: nat)

  /** What the table does not control: the clock, and the threads that have finished. */
  datatype Env = Env(clock: nat, done: set<uint64>)

  /** One request: its future still holds a reply to come (`valid`), or the reply has been taken. */
  datatype Entry = Entry(input: AnyValue, valid: bool, invalidated: bool, lastAccess: nat)

  /** A request erased without its reply having been taken, and the clock at that moment. */
  datatype Corpse = Corpse(entry: Entry, at: nat)

  /** The table, its id counter and the environment; and, to state what the table guarantees, the
      payloads submitted so far (in order), the replies delivered and the requests dropped. */
  datatype State = State(
    entries: map<uint64, Entry>,
    lastId: uint64,
    env: Env,
    issued: seq<AnyValue>,
    delivered: map<uint64, Outcome>,
    dropped: map<uint64, Corpse>)

  /** Expiration time, and the protocol: what the thread of request `id` produces for its input. As it
      depends on the request, it covers protocols with internal state and with random behaviour. */
  datatype Config = Config(expirationNs: nat, protocol: (uint64, AnyValue) -> Outcome)

  datatype Op =
    | Submit(payload: AnyValue)
    | Poll(id: uint64)
    | GetReply(id: uint64)
    | Invalidate(id: uint64)
    | Await(id: uint64)      // AsyncInvokeServer::WaitForReady
    | Malformed              // a follow-up whose payload holds no id
    | Unsupported            // a command other than the four known ones

  /** `Visit` is one iteration of the cleanup loop; `Finish` and `Tick` are the environment alone. */
  datatype Event =
    | Do(op: Op, first: Obs, second: Obs)
    | Visit(id: uint64, obs: Obs)
    | Finish(id: uint64)
    | Tick(dt: nat)

  datatype Answer =
    | Accepted(id: uint64)
    | UnknownId
    | BadPayload
    | InvalidOperation
    | Readiness(ready: bool)
    | Delivery(outcome: Outcome)
    | Acknowledged
    | Awaited(ready: bool)
    | Silent

  // ----- one request (AsyncInvokeImpl)

  function SampleThread(env: Env, id: uint64, o: Obs): Env {
    if o.finish then env.(done := env.done + {id}) else env
  }

  function ReadClock(env: Env, o: Obs): Env {
    env.(clock := env.clock + o.dt)
  }

  predicate IsExpired(cfg: Config, e: Entry, now: nat) {
    Sub64(now, e.lastAccess) > cfg.expirationNs
  }

  function IsReadyForRemoval(cfg: Config, env: Env, id: uint64, e: Entry, o: Obs): (Env, bool) {
    if !e.valid then (env, true)
    else
      var env' := ReadClock(SampleThread(env, id, o), o);
      (env', id in env'.done && (e.invalidated || IsExpired(cfg, e, env'.clock)))
  }

  function WaitForReady(env: Env, id: uint64, e: Entry, o: Obs): (Env, Entry, bool) {
    if !e.valid || e.invalidated then (env, e, false)
    else
      var now := ReadClock(env, o);
      var env' := SampleThread(now, id, o);
      (env', e.(lastAccess := now.clock), id in env'.done)
  }

  /** What a blocking wait adds to one look at the thread: time. */
  function Elapse(env: Env, ns: nat): Env {
    env.(clock := env.clock + ns)
  }

  function TakeReply(cfg: Config, env: Env, id: uint64, e: Entry, o: Obs): (Env, Entry, Option<Outcome>) {
    if !e.valid then (env, e, None)
    else
      var env' := SampleThread(env, id, o);
      if id !in env'.done || e.invalidated then (env', e, None)
      else (env', e.(valid := false), Some(cfg.protocol(id, e.input)))
  }

  // ----- the table (AsyncInvokeServer)

  const INIT := State(map[], 0, Env(0, {}), [], map[], map[])

  function NextId(s: State): uint64 {
    (s.lastId + 1) % U64_LIMIT
  }

  /** Storing `e` and then erasing it when `remove` holds; an entry erased with its reply still in it
      counts as dropped. */
  function Settle(s: State, env: Env, id: uint64, e: Entry, remove: bool): State {
    if !remove then s.(env := env, entries := s.entries[id := e])
    else s.(env := env, entries := s.entries - {id},
            dropped := if e.valid then s.dropped[id := Corpse(e, env.clock)] else s.dropped)
  }

  function StepSubmit(cfg: Config, s: State, payload: AnyValue, o: Obs): (State, Answer) {
    var id := NextId(s);
    var s' := s.(lastId := id, issued := s.issued + [payload]);
    if id in s.entries then (s', Accepted(id))  // emplace leaves an existing entry alone
    else
      var now := ReadClock(s.env, o);
      var env := now.(done := now.done - {id});  // a new thread is running
      (s'.(env := env, entries := s.entries[id := Entry(payload, true, false, env.clock)]), Accepted(id))
  }

  function StepPoll(cfg: Config, s: State, id: uint64, o1: Obs, o2: Obs): (State, Answer) {
    if id !in s.entries then (s, UnknownId)
    else
      var (env1, removable) := IsReadyForRemoval(cfg, s.env, id, s.entries[id], o1);
      if removable then (s.(env := env1), InvalidOperation)
      else
        var (env2, e, ready) := WaitForReady(env1, id, s.entries[id], o2);
        (Settle(s, env2, id, e, false), Readiness(ready))
  }

  function StepGetReply(cfg: Config, s: State, id: uint64, o1: Obs, o2: Obs): (State, Answer) {
    if id !in s.entries then (s, UnknownId)
    else
      var (env1, e, reply) := TakeReply(cfg, s.env, id, s.entries[id], o1);
      var (env2, remove) := IsReadyForRemoval(cfg, env1, id, e, o2);
      match reply
      case None => (Settle(s, env2, id, e, remove), InvalidOperation)
      case Some(outcome) =>
        (Settle(s.(delivered := s.delivered[id := outcome]), env2, id, e, remove), Delivery(outcome))
  }

  function StepInvalidate(cfg: Config, s: State, id: uint64, o: Obs): (State, Answer) {
    if id !in s.entries then (s, UnknownId)
    else
      var e := s.entries[id].(invalidated := true);
      var (env, remove) := IsReadyForRemoval(cfg, s.env, id, e, o);
      (Settle(s, env, id, e, remove), Acknowledged)
  }

  /** The wait keeps the mutex: `waited` tells how long it lasts. */
  function StepAwait(s: State, id: uint64, o: Obs, waited: nat): (State, Answer) {
    if id !in s.entries then (s, Awaited(false))
    else
      var (env, e, ready) := WaitForReady(s.env, id, s.entries[id], o);
      (Settle(s, Elapse(env, waited), id, e, false), Awaited(ready))
  }

  function StepVisit(cfg: Config, s: State, id: uint64, o: Obs): (State, Answer) {
    if id !in s.entries then (s, Silent)
    else
      var (env, remove) := IsReadyForRemoval(cfg, s.env, id, s.entries[id], o);
      (Settle(s, env, id, s.entries[id], remove), Silent)
  }

  function Step(cfg: Config, s: State, ev: Event): (State, Answer) {
    match ev
    case Do(Submit(payload), o, _) => StepSubmit(cfg, s, payload, o)
    case Do(Poll(id), o1, o2) => StepPoll(cfg, s, id, o1, o2)
    case Do(GetReply(id), o1, o2) => StepGetReply(cfg, s, id, o1, o2)
    case Do(Invalidate(id), o, _) => StepInvalidate(cfg, s, id, o)
    case Do(Await(id), o1, o2) => StepAwait(s, id, o1, o2.dt)
    case Do(Malformed, _, _) => (s, BadPayload)
    case Do(Unsupported, _, _) => (s, InvalidOperation)
    case Visit(id, o) => StepVisit(cfg, s, id, o)
    case Finish(id) => (s.(env := s.env.(done := s.env.done + {id})), Silent)
    case Tick(dt) => (s.(env := s.env.(clock := s.env.clock + dt)), Silent)
  }

  /** The state before event number i of a run that starts in s, and the answer to event number i. */
  function At(cfg: Config, s: State, evs: seq<Event>, i: nat): State
    requires i <= |evs|
  {
    if i == 0 then s else Step(cfg, At(cfg, s, evs, i - 1), evs[i - 1]).0
  }

  function Final(cfg: Config, s: State, evs: seq<Event>): State {
    At(cfg, s, evs, |evs|)
  }

  function AnswerTo(cfg: Config, s: State, evs: seq<Event>, i: nat): Answer
    requires i < |evs|
  {
    Step(cfg, At(cfg, s, evs, i), evs[i]).1
  }

  /** Runs compose. */
  lemma {:induction false} AtConcat(cfg: Config, s: State, a: seq<Event>, b: seq<Event>, i: nat)
    requires i <= |a| + |b|
    ensures At(cfg, s, a + b, i) == if i <= |a| then At(cfg, s, a, i) else At(cfg, Final(cfg, s, a), b, i - |a|)
  {
    if i != 0 {
      AtConcat(cfg, s, a, b, i - 1);
    }
  }
}
