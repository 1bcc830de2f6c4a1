module ActionMeaning {
  // What the action manager does for its handlers over a whole run, said on what the clients did.

  import opened ActionModel
  import opened ActionSafety
  import opened Options
  import opened Sequences

  /** The handlers that clients have added for a kind of action, in order. */
  function Added(events: seq<Event>, kind: Kind): seq<Handler> {
    if events == [] then []
    else
      var last := events[|events| - 1];
      Added(events[..|events| - 1], kind) + if last.AddHandler? && last.kind == kind then [last.handler] else []
  }

  lemma {:induction false} RegisteredIs(states: seq<Manager>, events: seq<Event>, i: nat, kind: Kind)
    requires IsRun(states, events) && i < |states|
    ensures Registered(states[i], kind) == Added(events[..i], kind)
  {
    if i > 0 {
      RegisteredIs(states, events, i - 1, kind);
      assert events[..i][..i - 1] == events[..i - 1];
      OneMoreAdded(states[i - 1], events[i - 1], kind);
    }
  }

  lemma OneMoreAdded(s: Manager, e: Event, kind: Kind)
    requires Enabled(s, e)
    ensures Registered(Apply(s, e), kind) ==
            Registered(s, kind) + if e.AddHandler? && e.kind == kind then [e.handler] else []
  {
    if !e.AddHandler? {
      assert Registered(s, kind) + [] == Registered(s, kind);
    }
  }

  /** What is looked up for an action is every handler that has been added for its kind by then. */
  lemma LookedUpAll(states: seq<Manager>, events: seq<Event>, i: nat)
    requires IsRun(states, events) && i < |events| && |states[i + 1].dispatched| > |states[i].dispatched|
    ensures var d := states[i + 1].dispatched[|states[i].dispatched|];
            |states[i + 1].dispatched| == |states[i].dispatched| + 1 && states[i].at == Got(d.action)
            && d.handlers == Added(events[..i], d.action.kind)
  {
    assert states[i + 1] == Apply(states[i], events[i]);
    RegisteredIs(states, events, i, states[i].at.action.kind);
  }

  lemma {:induction false} MadeWasCalled(calls: seq<Call>, kind: Kind, slot: nat, d: nat)
    requires d in Made(calls, kind, slot)
    ensures exists c <- calls :: c.dispatch == d && c.kind == kind && c.slot == slot
  {
    var n := |calls| - 1;
    if calls[n].kind == kind && calls[n].slot == slot && calls[n].dispatch == d {
      assert calls[n] in calls;
    } else {
      MadeWasCalled(calls[..n], kind, slot, d);
    }
  }

  /** Whenever the dispatcher waits for the next action, every handler of every action looked up has been called for it. */
  lemma EveryHandlerCalled(states: seq<Manager>, events: seq<Event>, i: nat, d: nat, slot: nat)
    requires IsRun(states, events) && i < |states| && states[i].at.Fetch?
    requires d < |states[i].dispatched| && slot < |states[i].dispatched[d].handlers|
    ensures exists c <- states[i].calls :: c.dispatch == d && c.slot == slot && c.handler == states[i].dispatched[d].handlers[slot]
  {
    var s := states[i];
    var kind := s.dispatched[d].action.kind;
    RunsAreSafe(states, events, i);
    NextActionWaitsForAll(s, kind, slot);
    DueAscends(s.dispatched, kind, slot);
    assert Concerns(s.dispatched, d, kind, slot);
    MadeWasCalled(s.calls, kind, slot, d);
    var c :| c in s.calls && c.dispatch == d && c.kind == kind && c.slot == slot;
    assert CallOk(s, c);
  }

  // ---------- Shutting down ----------

  predicate IsClosing(s: Manager) {
    s.at.Close? || s.at.CloseWait? || s.at.Stopped?
  }

  /** Once an empty item has been taken from the queue the dispatcher shuts down, looks nothing up any more, and when it has
      stopped every worker has left. */
  lemma {:induction false} EmptyItemStops(states: seq<Manager>, events: seq<Event>, i: nat)
    requires IsRun(states, events) && i < |states|
    ensures Taken(None) in states[i].left ==> IsClosing(states[i])
    ensures i > 0 && IsClosing(states[i - 1]) ==> IsClosing(states[i]) && states[i].dispatched == states[i - 1].dispatched
    ensures states[i].at.Stopped? ==> forall w <- states[i].workers :: w.at == Gone
  {
    RunsAreSafe(states, events, i);
    if states[i].at.Stopped? {
      AllGone(states[i]);
    }
    if i > 0 {
      EmptyItemStops(states, events, i - 1);
      ClosingGoesOn(states[i - 1], events[i - 1]);
    }
  }

  lemma AllGone(s: Manager)
    requires HandOver(s) && s.at.Stopped?
    ensures forall w <- s.workers :: w.at == Gone
  {
    forall w <- s.workers ensures w.at == Gone {
      var j: nat :| j < |s.workers| && s.workers[j] == w;
      assert WorkerOk(s, j);
    }
  }

  lemma {:induction false} NothingTaken(items: seq<Option<Action>>)
    ensures Taken(None) !in Drop(items)
  {
    if items != [] {
      NothingTaken(items[1..]);
    }
  }

  lemma ClosingGoesOn(s: Manager, e: Event)
    requires Enabled(s, e)
    ensures IsClosing(s) ==> IsClosing(Apply(s, e)) && Apply(s, e).dispatched == s.dispatched
    ensures Taken(None) in Apply(s, e).left ==> Taken(None) in s.left || IsClosing(Apply(s, e))
  {
    if e.Limit? && |s.queue| > e.n {
      NothingTaken(s.queue[..|s.queue| - e.n]);
    }
  }
}
