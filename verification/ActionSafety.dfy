/** Safety of the action manager over every run of the dispatcher, the workers and the clients. */
module ActionSafety {
  import opened ActionModel
  import opened Options
  import opened Sequences

  // ---------- What the dispatcher's place says about every worker ----------

  predicate Resting(w: Worker) {
    w.at == Idle && !w.condition
  }

  predicate Departed(w: Worker) {
    w.at == Gone && !w.condition
  }

  /** Given handler `j` of the last dispatch: not yet called, being called, or done. */
  predicate Given(s: Manager, j: nat) {
    && j < |s.workers| && s.dispatched != [] && j < |Current(s)|
    && s.workers[j].action == Some(|s.dispatched| - 1)
    && s.workers[j].handler == Some(Current(s)[j])
    && (s.workers[j].at == Idle || (s.workers[j].condition && s.workers[j].at in {Woken, Handling}))
  }

  /** Worker `i` is resting while the writes of `set_action` up to `stage` are in its fields. */
  predicate HalfSet(w: Worker, stage: Stage, action: Option<nat>, handler: Option<Handler>) {
    && Resting(w)
    && (stage != PutAction ==> w.action == action)
    && (stage == Signal ==> w.handler == handler)
  }

  /** Told to quit: still to notice, or gone. */
  predicate Dismissed(w: Worker) {
    && w.action == None && w.handler == None
    && (if w.condition then w.at in {Idle, Woken, Quitting} else w.at == Gone)
  }

  predicate WorkerOk(s: Manager, j: nat)
    requires j < |s.workers|
  {
    var w := s.workers[j];
    match s.at
    case Fetch => Resting(w)
    case Got(_) => Resting(w)
    case Assign(i, stage) =>
      if j < i then Given(s, j)
      else if j == i && stage != PutAction then
        s.dispatched != [] && j < |Current(s)| && HalfSet(w, stage, Some(|s.dispatched| - 1), Some(Current(s)[j]))
      else Resting(w)
    case Join(i) => if s.dispatched != [] && i <= j < |Current(s)| then Given(s, j) else Resting(w)
    case Close(i, stage) =>
      if j < i then Departed(w) else if j == i then HalfSet(w, stage, None, None) else Resting(w)
    case CloseWait(i) => if j < i then Departed(w) else if j == i then Dismissed(w) else Resting(w)
    case Stopped => Departed(w)
  }

  /** The dispatcher is never at a worker or handler that is not there. */
  predicate PlaceOk(s: Manager) {
    match s.at
    case Assign(i, stage) =>
      && s.dispatched != [] && i <= |Current(s)| && i <= |s.workers|
      && (stage != PutAction ==> i < |Current(s)| && i < |s.workers|)
    case Join(i) => s.dispatched != [] && i <= |Current(s)| <= |s.workers|
    case Close(i, stage) => i <= |s.workers| && (stage != PutAction ==> i < |s.workers|)
    case CloseWait(i) => i < |s.workers|
    case _ => true
  }

  predicate HandOver(s: Manager) {
    PlaceOk(s) && forall j: nat | j < |s.workers| :: WorkerOk(s, j)
  }

  // ---------- What has been called ----------

  /** The dispatches a registration is due: those of its kind looked up once it was registered. */
  function Due(dispatched: seq<Dispatch>, kind: Kind, slot: nat): seq<nat> {
    if dispatched == [] then []
    else
      var n := |dispatched| - 1;
      var earlier := Due(dispatched[..n], kind, slot);
      if dispatched[n].action.kind == kind && slot < |dispatched[n].handlers| then earlier + [n] else earlier
  }

  /** The dispatches for which a registration was called, in the order of the calls. */
  function Made(calls: seq<Call>, kind: Kind, slot: nat): seq<nat> {
    if calls == [] then []
    else
      var n := |calls| - 1;
      var earlier := Made(calls[..n], kind, slot);
      if calls[n].kind == kind && calls[n].slot == slot then earlier + [calls[n].dispatch] else earlier
  }

  /** Handler `slot` of the last dispatch has not been called yet. */
  predicate Awaiting(s: Manager, slot: nat) {
    && s.dispatched != [] && slot < |Current(s)|
    && (s.at.Assign? || s.at.Join?)
    && (if slot < s.at.i then s.at.Assign? && NotCalled(s, slot)
        else s.at.Assign? || NotCalled(s, slot))
  }

  predicate NotCalled(s: Manager, slot: nat) {
    slot < |s.workers| && s.workers[slot].condition && s.workers[slot].at != Handling
  }

  /** The part of the dispatches that registration `slot` has been called for. */
  function CalledFor(s: Manager, slot: nat): seq<Dispatch> {
    if Awaiting(s, slot) then s.dispatched[..|s.dispatched| - 1] else s.dispatched
  }

  predicate LogOf(s: Manager, kind: Kind, slot: nat) {
    Made(s.calls, kind, slot) == Due(CalledFor(s, slot), kind, slot)
  }

  /** Each registration's log is exactly what is due to it so far. */
  ghost predicate Logs(s: Manager) {
    forall kind: Kind, slot: nat :: LogOf(s, kind, slot)
  }

  /** Every call is of the handler registered in that place, for a dispatch of that kind. */
  predicate CallOk(s: Manager, c: Call) {
    && c.dispatch < |s.dispatched| && c.kind == s.dispatched[c.dispatch].action.kind
    && c.slot < |s.dispatched[c.dispatch].handlers| && c.handler == s.dispatched[c.dispatch].handlers[c.slot]
  }

  predicate Calls(s: Manager) {
    && (forall c <- s.calls :: CallOk(s, c))
    && (forall a: nat, b: nat | a < b < |s.calls| :: s.calls[a].dispatch <= s.calls[b].dispatch)
  }

  /** What was looked up is a prefix of what is registered. */
  predicate Registrations(s: Manager) {
    forall d <- s.dispatched :: d.handlers <= Registered(s, d.action.kind)
  }

  // ---------- The queue ----------

  function Items(left: seq<Left>): seq<Option<Action>> {
    if left == [] then [] else Items(left[..|left| - 1]) + [left[|left| - 1].item]
  }

  /** The actions taken from the queue, in order. */
  function Fetched(left: seq<Left>): seq<Action> {
    if left == [] then []
    else
      var last := left[|left| - 1];
      Fetched(left[..|left| - 1]) + if last.Taken? && last.item.Some? then [last.item.value] else []
  }

  function Actions(dispatched: seq<Dispatch>): seq<Action> {
    if dispatched == [] then []
    else Actions(dispatched[..|dispatched| - 1]) + [dispatched[|dispatched| - 1].action]
  }

  /** Items leave the queue in the order they were sent, and what is dispatched is what was taken. */
  predicate Fifo(s: Manager) {
    && s.sent == Items(s.left) + s.queue
    && Fetched(s.left) == Actions(s.dispatched) + if s.at.Got? then [s.at.action] else []
  }

  ghost predicate Inv(s: Manager) {
    HandOver(s) && Logs(s) && Calls(s) && Registrations(s) && Fifo(s)
  }

  // ---------- The hand-over ----------

  lemma DispatcherKeepsHandOver(s: Manager)
    requires HandOver(s) && Enabled(s, Dispatcher)
    ensures HandOver(Apply(s, Dispatcher))
  {
    var t := DispatcherStep(s);
    forall j: nat | j < |t.workers| ensures WorkerOk(t, j) {
      if j < |s.workers| {
        assert WorkerOk(s, j);
      }
    }
  }

  lemma WorkerKeepsHandOver(s: Manager, i: nat)
    requires HandOver(s) && Enabled(s, WorkerStep(i))
    ensures HandOver(Apply(s, WorkerStep(i)))
  {
    var t := WorkerMoves(s, i);
    assert WorkerOk(s, i);
    forall j: nat | j < |t.workers| ensures WorkerOk(t, j) {
      assert WorkerOk(s, j);
    }
  }

  lemma ClientKeepsHandOver(s: Manager, e: Event)
    requires HandOver(s) && Enabled(s, e) && !e.Dispatcher? && !e.WorkerStep?
    ensures HandOver(Apply(s, e))
  {
    var t := Apply(s, e);
    forall j: nat | j < |t.workers| ensures WorkerOk(t, j) {
      assert WorkerOk(s, j);
    }
  }

  lemma StepKeepsHandOver(s: Manager, e: Event)
    requires HandOver(s) && Enabled(s, e)
    ensures HandOver(Apply(s, e))
  {
    match e {
      case Dispatcher => DispatcherKeepsHandOver(s);
      case WorkerStep(i) => WorkerKeepsHandOver(s, i);
      case _ => ClientKeepsHandOver(s, e);
    }
  }

  // ---------- The logs ----------

  lemma DispatcherAwaits(s: Manager, slot: nat)
    requires HandOver(s) && Enabled(s, Dispatcher) && !s.at.Got?
    ensures Awaiting(DispatcherStep(s), slot) <==> Awaiting(s, slot)
  {
    DispatcherKeepsHandOver(s);
    var t := DispatcherStep(s);
    if slot < |s.workers| {
      assert WorkerOk(s, slot) && WorkerOk(t, slot);
    } else if slot < |t.workers| {
      assert WorkerOk(t, slot);
    }
  }

  lemma WorkerAwaits(s: Manager, i: nat, slot: nat)
    requires HandOver(s) && Enabled(s, WorkerStep(i))
    ensures Awaiting(WorkerMoves(s, i), slot) <==> Awaiting(s, slot) && !(slot == i && s.workers[i].at == Woken)
  {
    if slot < |s.workers| {
      assert WorkerOk(s, slot);
    }
  }

  /** Which handlers still wait to be called is changed by looking up an action and by calling. */
  lemma AwaitingSteps(s: Manager, e: Event, slot: nat)
    requires HandOver(s) && Enabled(s, e)
    requires !(e.Dispatcher? && s.at.Got?)
    ensures Awaiting(Apply(s, e), slot) <==>
            Awaiting(s, slot) && !(e == WorkerStep(slot) && s.workers[slot].at == Woken)
  {
    match e {
      case Dispatcher => DispatcherAwaits(s, slot);
      case WorkerStep(i) => WorkerAwaits(s, i, slot);
      case _ =>
    }
  }

  lemma LookUpKeepsLog(s: Manager, kind: Kind, slot: nat)
    requires HandOver(s) && s.at.Got? && LogOf(s, kind, slot)
    ensures LogOf(DispatcherStep(s), kind, slot)
  {
    var t := DispatcherStep(s);
    assert t.dispatched[..|s.dispatched|] == s.dispatched;
    assert !Awaiting(s, slot);
    assert Awaiting(t, slot) <==> slot < |Current(t)|;
  }

  lemma QuietStep(s: Manager, e: Event)
    requires Enabled(s, e) && !(e.Dispatcher? && s.at.Got?)
    requires e.WorkerStep? ==> s.workers[e.i].at != Woken
    ensures Apply(s, e).calls == s.calls && Apply(s, e).dispatched == s.dispatched
  {
  }

  lemma SameLog(s: Manager, t: Manager, kind: Kind, slot: nat)
    requires LogOf(s, kind, slot) && t.calls == s.calls && t.dispatched == s.dispatched
    requires Awaiting(s, slot) <==> Awaiting(t, slot)
    ensures LogOf(t, kind, slot)
  {
  }

  /** A worker past its wait has the last dispatch, unless it was told to quit. */
  lemma WokenWorker(s: Manager, i: nat)
    requires HandOver(s) && i < |s.workers| && s.workers[i].at == Woken
    ensures if s.workers[i].handler.Some? && s.workers[i].action.Some? then Given(s, i) && Awaiting(s, i)
            else forall slot: nat :: !Awaiting(s, slot)
  {
    assert WorkerOk(s, i);
  }

  /** Calling handler `i` of the last dispatch completes that registration's log. */
  lemma CallCompletesLog(s: Manager, i: nat, kind: Kind, slot: nat)
    requires HandOver(s) && Enabled(s, WorkerStep(i)) && s.workers[i].at == Woken && LogOf(s, kind, slot)
    requires Given(s, i) && Awaiting(s, i)
    ensures LogOf(Apply(s, WorkerStep(i)), kind, slot)
  {
    var n := |s.dispatched| - 1;
    var c := Call(n, s.dispatched[n].action.kind, i, s.workers[i].handler.value);
    AwaitingSteps(s, WorkerStep(i), slot);
    var t := WorkerMoves(s, i);
    assert t.calls == s.calls + [c] && t.dispatched == s.dispatched;
    if slot == i {
      assert CalledFor(s, slot) == s.dispatched[..n] && CalledFor(t, slot) == s.dispatched;
    } else {
      assert CalledFor(t, slot) == CalledFor(s, slot);
    }
  }

  lemma WakingKeepsLog(s: Manager, i: nat, kind: Kind, slot: nat)
    requires HandOver(s) && Enabled(s, WorkerStep(i)) && s.workers[i].at == Woken && LogOf(s, kind, slot)
    ensures LogOf(Apply(s, WorkerStep(i)), kind, slot)
  {
    WokenWorker(s, i);
    if s.workers[i].handler.Some? && s.workers[i].action.Some? {
      CallCompletesLog(s, i, kind, slot);
    } else {
      AwaitingSteps(s, WorkerStep(i), slot);
    }
  }

  lemma StepKeepsLogs(s: Manager, e: Event)
    requires HandOver(s) && Enabled(s, e) && Logs(s)
    ensures Logs(Apply(s, e))
  {
    forall kind: Kind, slot: nat ensures LogOf(Apply(s, e), kind, slot) {
      assert LogOf(s, kind, slot);
      if e.Dispatcher? && s.at.Got? {
        LookUpKeepsLog(s, kind, slot);
      } else if e.WorkerStep? && s.workers[e.i].at == Woken {
        WakingKeepsLog(s, e.i, kind, slot);
      } else {
        AwaitingSteps(s, e, slot);
        QuietStep(s, e);
        SameLog(s, Apply(s, e), kind, slot);
      }
    }
  }

  lemma StepKeepsCalls(s: Manager, e: Event)
    requires HandOver(s) && Enabled(s, e) && Calls(s)
    ensures Calls(Apply(s, e))
  {
    var t := Apply(s, e);
    if e.WorkerStep? && s.workers[e.i].at == Woken {
      WokenWorker(s, e.i);
    }
    forall c | c in t.calls ensures CallOk(t, c) {
      assert c in s.calls ==> CallOk(s, c);
    }
    forall a: nat, b: nat | a < b < |t.calls| ensures t.calls[a].dispatch <= t.calls[b].dispatch {
      assert CallOk(s, s.calls[a]);
    }
  }

  lemma StepKeepsRegistrations(s: Manager, e: Event)
    requires Enabled(s, e) && Registrations(s)
    ensures Registrations(Apply(s, e))
  {
    var t := Apply(s, e);
    forall d | d in t.dispatched ensures d.handlers <= Registered(t, d.action.kind) {
      assert Registered(s, d.action.kind) <= Registered(t, d.action.kind);
    }
  }

  // ---------- The queue ----------

  lemma {:induction false} DropItems(left: seq<Left>, items: seq<Option<Action>>)
    ensures Items(left + Drop(items)) == Items(left) + items && Fetched(left + Drop(items)) == Fetched(left)
    decreases items
  {
    if items == [] {
      assert left + Drop(items) == left;
    } else {
      var first, rest := items[0], items[1..];
      DropItems(left + [Dropped(first)], rest);
      Assoc(left, [Dropped(first)], Drop(rest));
      Assoc(Items(left), [first], rest);
      assert items == [first] + rest;
    }
  }

  lemma FetchKeepsFifo(s: Manager)
    requires Fifo(s) && s.at == Fetch && s.queue != []
    ensures Fifo(DispatcherStep(s))
  {
    var t := DispatcherStep(s);
    assert t.left[..|s.left|] == s.left;
    assert s.queue == [s.queue[0]] + t.queue;
  }

  lemma LookUpKeepsFifo(s: Manager)
    requires Fifo(s) && s.at.Got?
    ensures Fifo(DispatcherStep(s))
  {
    var t := DispatcherStep(s);
    assert t.dispatched[..|s.dispatched|] == s.dispatched;
  }

  lemma LimitKeepsFifo(s: Manager, n: nat)
    requires Fifo(s)
    ensures Fifo(Apply(s, Limit(n)))
  {
    if |s.queue| > n {
      var k := |s.queue| - n;
      DropItems(s.left, s.queue[..k]);
      assert s.queue == s.queue[..k] + s.queue[k..];
    }
  }

  lemma SendKeepsFifo(s: Manager, item: Option<Action>)
    requires Fifo(s)
    ensures Fifo(Apply(s, Send(item)))
  {
    Assoc(Items(s.left), s.queue, [item]);
  }

  lemma OtherStep(s: Manager, e: Event)
    requires Enabled(s, e) && (e.Dispatcher? ==> s.at != Fetch && !s.at.Got?) && !e.Send? && !e.Limit?
    ensures var t := Apply(s, e);
            && t.queue == s.queue && t.left == s.left && t.sent == s.sent && t.dispatched == s.dispatched
            && (t.at.Got? || s.at.Got? ==> t.at == s.at)
  {
  }

  lemma SameQueue(s: Manager, t: Manager)
    requires Fifo(s) && t.queue == s.queue && t.left == s.left && t.sent == s.sent && t.dispatched == s.dispatched
    requires t.at.Got? || s.at.Got? ==> t.at == s.at
    ensures Fifo(t)
  {
  }

  lemma StepKeepsFifo(s: Manager, e: Event)
    requires Enabled(s, e) && Fifo(s)
    ensures Fifo(Apply(s, e))
  {
    if e.Dispatcher? && s.at == Fetch {
      FetchKeepsFifo(s);
    } else if e.Dispatcher? && s.at.Got? {
      LookUpKeepsFifo(s);
    } else if e.Limit? {
      LimitKeepsFifo(s, e.n);
    } else if e.Send? {
      SendKeepsFifo(s, e.item);
    } else {
      OtherStep(s, e);
      SameQueue(s, Apply(s, e));
    }
  }

  // ---------- Every run ----------

  /** Every step of the dispatcher, of any worker and of any client keeps the invariant. */
  lemma StepKeepsInv(s: Manager, e: Event)
    requires Inv(s) && Enabled(s, e)
    ensures Inv(Apply(s, e))
  {
    StepKeepsHandOver(s, e);
    StepKeepsLogs(s, e);
    StepKeepsCalls(s, e);
    StepKeepsRegistrations(s, e);
    StepKeepsFifo(s, e);
  }

  predicate IsRun(states: seq<Manager>, events: seq<Event>) {
    && |states| == |events| + 1 && states[0] == START
    && forall i: nat | i < |events| :: Enabled(states[i], events[i]) && states[i + 1] == Apply(states[i], events[i])
  }

  lemma {:induction false} RunsAreSafe(states: seq<Manager>, events: seq<Event>, i: nat)
    requires IsRun(states, events) && i < |states|
    ensures Inv(states[i])
  {
    if i > 0 {
      RunsAreSafe(states, events, i - 1);
      StepKeepsInv(states[i - 1], events[i - 1]);
    }
  }

  // ---------- What that means ----------

  predicate Concerns(dispatched: seq<Dispatch>, d: nat, kind: Kind, slot: nat) {
    d < |dispatched| && dispatched[d].action.kind == kind && slot < |dispatched[d].handlers|
  }

  predicate Ascending(log: seq<nat>) {
    forall a, b | 0 <= a < b < |log| :: log[a] < log[b]
  }

  lemma {:induction false} DueAscends(dispatched: seq<Dispatch>, kind: Kind, slot: nat)
    ensures forall d: nat :: d in Due(dispatched, kind, slot) <==> Concerns(dispatched, d, kind, slot)
    ensures Ascending(Due(dispatched, kind, slot))
  {
    if dispatched != [] {
      var n := |dispatched| - 1;
      var earlier := Due(dispatched[..n], kind, slot);
      DueAscends(dispatched[..n], kind, slot);
      forall d: nat ensures d in Due(dispatched, kind, slot) <==> Concerns(dispatched, d, kind, slot) {
        assert d in earlier <==> Concerns(dispatched[..n], d, kind, slot);
      }
      forall k | 0 <= k < |earlier| ensures earlier[k] < n {
        assert Concerns(dispatched[..n], earlier[k], kind, slot);
      }
    }
  }

  /** At every moment of every run, the calls made by a registration are for the dispatches of its kind
      since it was registered: in order, none twice, and none missing but perhaps the last one looked up. */
  lemma LogFollowsDispatches(states: seq<Manager>, events: seq<Event>, i: nat, kind: Kind, slot: nat)
    requires IsRun(states, events) && i < |states|
    ensures var s := states[i]; var log := Made(s.calls, kind, slot);
            && Ascending(log)
            && (forall d <- log :: Concerns(s.dispatched, d, kind, slot))
            && (forall d: nat :: Concerns(s.dispatched, d, kind, slot) && d !in log ==>
                  d == |s.dispatched| - 1 && Awaiting(s, slot))
  {
    RunsAreSafe(states, events, i);
    var s := states[i];
    assert LogOf(s, kind, slot);
    DueAscends(CalledFor(s, slot), kind, slot);
    forall d: nat | Concerns(s.dispatched, d, kind, slot) && d !in Made(s.calls, kind, slot)
      ensures d == |s.dispatched| - 1 && Awaiting(s, slot)
    {
      assert !Concerns(CalledFor(s, slot), d, kind, slot);
    }
  }

  /** A call that is being made is for the last action looked up; every handler of every earlier action
      has been called, and no worker is still handling one. */
  lemma EarlierActionsAreFinished(s: Manager, i: nat, d: nat, slot: nat)
    requires Inv(s) && i < |s.workers| && s.workers[i].at == Handling
    requires d < |s.dispatched| - 1 && slot < |s.dispatched[d].handlers|
    ensures s.workers[i].action == Some(|s.dispatched| - 1)
    ensures d in Made(s.calls, s.dispatched[d].action.kind, slot)
    ensures forall w <- s.workers :: w.at == Handling ==> w.action != Some(d)
  {
    assert WorkerOk(s, i);
    var kind := s.dispatched[d].action.kind;
    assert LogOf(s, kind, slot);
    DueAscends(CalledFor(s, slot), kind, slot);
    assert Concerns(CalledFor(s, slot), d, kind, slot);
    forall w | w in s.workers && w.at == Handling ensures w.action != Some(d) {
      var j: nat :| j < |s.workers| && s.workers[j] == w;
      assert WorkerOk(s, j);
    }
  }

  /** The next action is taken from the queue, looked up and given out only when every worker rests and
      everything due so far has been called. */
  lemma NextActionWaitsForAll(s: Manager, kind: Kind, slot: nat)
    requires Inv(s) && (s.at.Fetch? || s.at.Got?)
    ensures forall w <- s.workers :: Resting(w)
    ensures Made(s.calls, kind, slot) == Due(s.dispatched, kind, slot)
  {
    forall w | w in s.workers ensures Resting(w) {
      var j: nat :| j < |s.workers| && s.workers[j] == w;
      assert WorkerOk(s, j);
    }
    assert LogOf(s, kind, slot);
  }

  /** The unlocked action and handler fields of a worker are written while it waits for a condition that
      is false, and by nobody but the dispatcher; its reads of them never overlap a write. */
  lemma FieldsChangeWhileResting(s: Manager, e: Event, j: nat)
    requires Inv(s) && Enabled(s, e) && j < |s.workers|
    requires Apply(s, e).workers[j].action != s.workers[j].action || Apply(s, e).workers[j].handler != s.workers[j].handler
    ensures e == Dispatcher && Resting(s.workers[j]) && Resting(Apply(s, e).workers[j])
  {
    if e.WorkerStep? {
      WorkersKeepFields(s, e.i, j);
    }
    DispatcherWrites(s, j);
  }

  lemma WorkersKeepFields(s: Manager, i: nat, j: nat)
    requires WorkerCanStep(s, i) && j < |s.workers|
    ensures WorkerMoves(s, i).workers[j].action == s.workers[j].action
    ensures WorkerMoves(s, i).workers[j].handler == s.workers[j].handler
  {
  }

  lemma DispatcherWrites(s: Manager, j: nat)
    requires HandOver(s) && Enabled(s, Dispatcher) && j < |s.workers|
    requires var w := DispatcherStep(s).workers[j]; w.action != s.workers[j].action || w.handler != s.workers[j].handler
    ensures Resting(s.workers[j]) && Resting(DispatcherStep(s).workers[j])
  {
    assert WorkerOk(s, j);
  }

  /** In a run, whatever is called is the handler registered at that place, and it stays there. */
  lemma CallsAreOfRegistered(s: Manager, c: Call)
    requires Inv(s) && c in s.calls
    ensures c.slot < |Registered(s, c.kind)| && Registered(s, c.kind)[c.slot] == c.handler
  {
    assert CallOk(s, c);
    assert s.dispatched[c.dispatch] in s.dispatched;
  }

  /** The dispatcher blocks only on an empty queue or on a worker that can itself take a step: the hand-over
      does not deadlock. */
  lemma NobodyIsStuck(s: Manager)
    requires Inv(s) && !Enabled(s, Dispatcher)
    ensures (s.at == Fetch && s.queue == []) || s.at == Stopped || exists i: nat :: Enabled(s, WorkerStep(i))
  {
    if s.at.Join? || s.at.CloseWait? {
      assert WorkerOk(s, s.at.i);
      assert Enabled(s, WorkerStep(s.at.i));
    }
  }
}
