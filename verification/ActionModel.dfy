/** The action manager (libs/action/ot-action.h) as a state machine: a dispatcher thread, a growing list
    of worker threads, and clients that send actions and register handlers.  Each step is one access to
    shared state; a worker and the dispatcher hand work over through the worker's two-valued condition. */
module ActionModel {
  import opened Options

  datatype Kind = Kind(number: nat)

  datatype Handler = Handler(name: nat)

  datatype Action = Action(kind: Kind, body: nat)

  /** Where a worker's run loop is: waiting for its condition to be true, past the wait, handling an
      action, about to leave, or gone. */
  datatype WorkerAt = Idle | Woken | Handling | Quitting | Gone

  /** A worker's fields.  The action field holds the number of the dispatch it was given. */
  datatype Worker = Worker(condition: bool, action: Option<nat>, handler: Option<Handler>, at: WorkerAt)

  const NEW_WORKER := Worker(false, None, None, Idle)

  /** The three writes of `set_action`. */
  datatype Stage = PutAction | PutHandler | Signal

  /** Where the dispatcher is: waiting on the queue, holding an action it has not looked up, giving
      handler `i` of the list to worker `i` under the handlers lock, waiting for worker `i`, shutting
      worker `i` down, waiting for that, or finished. */
  datatype DispatcherAt =
    | Fetch
    | Got(action: Action)
    | Assign(i: nat, stage: Stage)
    | Join(i: nat)
    | Close(i: nat, stage: Stage)
    | CloseWait(i: nat)
    | Stopped

  /** One action that was looked up, with the handlers registered for it at that moment. */
  datatype Dispatch = Dispatch(action: Action, handlers: seq<Handler>)

  /** A handler was called: by worker `slot`, for dispatch number `dispatch`. */
  datatype Call = Call(dispatch: nat, kind: Kind, slot: nat, handler: Handler)

  /** How an item left the front of the queue. */
  datatype Left = Taken(item: Option<Action>) | Dropped(item: Option<Action>)

  datatype Manager = Manager(
    queue: seq<Option<Action>>,
    handlers: map<Kind, seq<Handler>>,
    workers: seq<Worker>,
    at: DispatcherAt,
    dispatched: seq<Dispatch>,
    calls: seq<Call>,
    sent: seq<Option<Action>>,
    left: seq<Left>)

  const START := Manager([], map[], [], Fetch, [], [], [], [])

  datatype Event =
    | Dispatcher
    | WorkerStep(i: nat)
    | Send(item: Option<Action>)
    | Limit(n: nat)
    | AddHandler(kind: Kind, handler: Handler)
    | Cancel

  function Registered(s: Manager, kind: Kind): seq<Handler> {
    if kind in s.handlers then s.handlers[kind] else []
  }

  /** The handlers of the dispatch being worked on. */
  function Current(s: Manager): seq<Handler>
    requires s.dispatched != []
  {
    s.dispatched[|s.dispatched| - 1].handlers
  }

  // ---------- The dispatcher ----------

  predicate DispatcherCanStep(s: Manager) {
    match s.at
    case Fetch => s.queue != []
    case Got(_) => true
    case Assign(i, stage) =>
      s.dispatched != [] && (i < |Current(s)| ==> stage == PutAction || i < |s.workers|)
    case Join(i) => s.dispatched != [] && (i < |Current(s)| ==> i < |s.workers| && !s.workers[i].condition)
    case Close(i, stage) => i < |s.workers| || stage == PutAction
    case CloseWait(i) => i < |s.workers| && !s.workers[i].condition
    case Stopped => false
  }

  /** The threads, with one more if there are not enough. */
  function Grown(workers: seq<Worker>, i: nat): seq<Worker> {
    if i >= |workers| then workers + [NEW_WORKER] else workers
  }

  function DispatcherStep(s: Manager): Manager
    requires DispatcherCanStep(s) && (s.at.Assign? ==> s.at.i <= |s.workers|)
  {
    match s.at
    case Fetch =>
      s.(queue := s.queue[1..], left := s.left + [Taken(s.queue[0])],
         at := if s.queue[0].Some? then Got(s.queue[0].value) else Close(0, PutAction))
    case Got(action) =>
      s.(dispatched := s.dispatched + [Dispatch(action, Registered(s, action.kind))], at := Assign(0, PutAction))
    case Assign(i, stage) =>
      if i >= |Current(s)| then s.(at := Join(0))
      else (
        match stage
        case PutAction =>
          var workers := Grown(s.workers, i);
          s.(workers := workers[i := workers[i].(action := Some(|s.dispatched| - 1))], at := Assign(i, PutHandler))
        case PutHandler =>
          s.(workers := s.workers[i := s.workers[i].(handler := Some(Current(s)[i]))], at := Assign(i, Signal))
        case Signal =>
          s.(workers := s.workers[i := s.workers[i].(condition := true)], at := Assign(i + 1, PutAction)))
    case Join(i) => s.(at := if i < |Current(s)| then Join(i + 1) else Fetch)
    case Close(i, stage) =>
      if i >= |s.workers| then s.(at := Stopped)
      else (
        match stage
        case PutAction => s.(workers := s.workers[i := s.workers[i].(action := None)], at := Close(i, PutHandler))
        case PutHandler => s.(workers := s.workers[i := s.workers[i].(handler := None)], at := Close(i, Signal))
        case Signal => s.(workers := s.workers[i := s.workers[i].(condition := true)], at := CloseWait(i)))
    case CloseWait(i) => s.(at := Close(i + 1, PutAction))
    case Stopped => s
  }

  // ---------- A worker ----------

  predicate WorkerCanStep(s: Manager, i: nat) {
    && i < |s.workers|
    && (s.workers[i].at == Idle ==> s.workers[i].condition)
    && s.workers[i].at != Gone
    && (s.workers[i].at == Woken && s.workers[i].action.Some? ==> s.workers[i].action.value < |s.dispatched|)
  }

  function WorkerMoves(s: Manager, i: nat): Manager
    requires WorkerCanStep(s, i)
  {
    var w := s.workers[i];
    match w.at
    case Idle => s.(workers := s.workers[i := w.(at := Woken)])
    case Woken =>
      if w.handler.Some? && w.action.Some? then
        s.(workers := s.workers[i := w.(at := Handling)],
           calls := s.calls + [Call(w.action.value, s.dispatched[w.action.value].action.kind, i, w.handler.value)])
      else s.(workers := s.workers[i := w.(at := Quitting)])
    case Handling => s.(workers := s.workers[i := w.(condition := false, at := Idle)])
    case Quitting => s.(workers := s.workers[i := w.(condition := false, at := Gone)])
    case Gone => s
  }

  // ---------- Everything ----------

  function Drop(items: seq<Option<Action>>): seq<Left> {
    if items == [] then [] else [Dropped(items[0])] + Drop(items[1..])
  }

  predicate Enabled(s: Manager, e: Event) {
    match e
    case Dispatcher => DispatcherCanStep(s) && (s.at.Assign? ==> s.at.i <= |s.workers|)
    case WorkerStep(i) => WorkerCanStep(s, i)
    case Send(_) => true
    case Limit(_) => true
    case AddHandler(_, _) => !s.at.Assign?
    case Cancel => s.at == Fetch
  }

  function Apply(s: Manager, e: Event): Manager
    requires Enabled(s, e)
  {
    match e
    case Dispatcher => DispatcherStep(s)
    case WorkerStep(i) => WorkerMoves(s, i)
    case Send(item) => s.(queue := s.queue + [item], sent := s.sent + [item])
    case Limit(n) =>
      if |s.queue| <= n then s
      else s.(queue := s.queue[|s.queue| - n..], left := s.left + Drop(s.queue[..|s.queue| - n]))
    case AddHandler(kind, handler) => s.(handlers := s.handlers[kind := Registered(s, kind) + [handler]])
    case Cancel => s.(at := Close(0, PutAction))
  }
}
