/** The action manager's objects (libs/action/ot-action.h).  Each method is one access to shared state by
    one thread, and is proved to take exactly that step of the state machine in `ActionModel`. */
module ActionManagers {
  import opened ActionModel
  import opened ActionSafety
  import opened Options
  import opened Sequences

  class ActionTask {
    var condition: bool
    var action: Option<nat>
    var handler: Option<Handler>
    var at: WorkerAt

    constructor ()
      ensures Now() == NEW_WORKER
    {
      condition, action, handler, at := false, None, None, Idle;
    }

    function Now(): Worker
      reads this
    {
      Worker(condition, action, handler, at)
    }

    /** One of the three writes of `set_action`. */
    method SetAction(stage: Stage, newAction: Option<nat>, newHandler: Option<Handler>)
      modifies this
      ensures Now() == match stage
                       case PutAction => old(Now()).(action := newAction)
                       case PutHandler => old(Now()).(handler := newHandler)
                       case Signal => old(Now()).(condition := true)
    {
      match stage
      case PutAction => action := newAction;
      case PutHandler => handler := newHandler;
      case Signal => condition := true;
    }

    /** One turn of the run loop; the worker is not waiting.  Tells whether a handler is called. */
    method Turn() returns (called: bool)
      requires at == Idle ==> condition
      modifies this
      ensures called == (old(at) == Woken && action.Some? && handler.Some?)
      ensures Now() == match old(at)
                       case Idle => old(Now()).(at := Woken)
                       case Woken => old(Now()).(at := if called then Handling else Quitting)
                       case Handling => old(Now()).(condition := false, at := Idle)
                       case Quitting => old(Now()).(condition := false, at := Gone)
                       case Gone => old(Now())
    {
      called := false;
      match at
      case Idle => at := Woken;
      case Woken =>
        called := action.Some? && handler.Some?;
        at := if called then Handling else Quitting;
      case Handling => condition, at := false, Idle;
      case Quitting => condition, at := false, Gone;
      case Gone =>
    }
  }

  datatype QueueResult = Accepted | ReplacedOld

  /** The queue with room for one more under the limit; 0 stands for none. */
  function MadeRoom(s: ActionModel.Manager, limit: nat): ActionModel.Manager {
    if limit == 0 then s else Apply(s, Event.Limit(limit - 1))
  }

  /** Whoever queues alone keeps the limit, and loses nothing but the oldest that are over it. */
  lemma QueuedWithinLimit(s: ActionModel.Manager, limit: nat, item: Option<Action>)
    ensures var t := Apply(MadeRoom(s, limit), Event.Send(item));
            && (limit > 0 ==> |t.queue| <= limit)
            && exists k: nat :: k <= |s.queue| && t.queue == s.queue[k..] + [item] && t.left == s.left + Drop(s.queue[..k])
                 && (k > 0 ==> limit > 0 && |s.queue| - k + 1 == limit)
  {
    var k := if limit == 0 || |s.queue| < limit then 0 else |s.queue| + 1 - limit;
    var t := Apply(MadeRoom(s, limit), Event.Send(item));
    assert s.queue[..0] == [] && s.queue[0..] == s.queue && s.left + [] == s.left;
    assert t.queue == s.queue[k..] + [item] && t.left == s.left + Drop(s.queue[..k]);
  }

  class Manager {
    var queueLimit: nat
    var queue: seq<Option<Action>>
    var handlers: map<Kind, seq<Handler>>
    var threads: seq<ActionTask>
    var at: DispatcherAt
    var dispatched: seq<Dispatch>
    ghost var calls: seq<Call>
    ghost var sent: seq<Option<Action>>
    ghost var left: seq<Left>

    ghost function Workers(): seq<Worker>
      reads this, threads
    {
      seq(|threads|, i requires 0 <= i < |threads| reads this, threads => threads[i].Now())
    }

    ghost function State(): ActionModel.Manager
      reads this, threads
    {
      ActionModel.Manager(queue, handlers, Workers(), at, dispatched, calls, sent, left)
    }

    ghost predicate Valid()
      reads this, threads
    {
      NoDup(threads) && Inv(State())
    }

    constructor ()
      ensures Valid() && State() == START
    {
      queueLimit, queue, handlers, threads, at, dispatched := 0, [], map[], [], Fetch, [];
      calls, sent, left := [], [], [];
      new;
      RunsAreSafe([START], [], 0);
    }

    /** Writing one worker's object changes one place in the list of workers. */
    method Set(i: nat, stage: Stage, action: Option<nat>, handler: Option<Handler>)
      requires NoDup(threads) && i < |threads|
      modifies threads[i]
      ensures Workers() == old(Workers())[i := match stage
                                               case PutAction => old(Workers()[i]).(action := action)
                                               case PutHandler => old(Workers()[i]).(handler := handler)
                                               case Signal => old(Workers()[i]).(condition := true)]
    {
      threads[i].SetAction(stage, action, handler);
    }

    /** A new thread, if there are not enough. */
    method Grow(i: nat)
      requires NoDup(threads) && i <= |threads|
      modifies this`threads
      ensures NoDup(threads) && i < |threads| && Workers() == Grown(old(Workers()), i)
      ensures threads[i] in old(threads) || fresh(threads[i])
    {
      if i >= |threads| {
        var p := new ActionTask();
        threads := threads + [p];
      }
    }

    /** The dispatcher's next step; it is not waiting. */
    method DispatcherTurn()
      requires Valid() && Enabled(State(), Dispatcher)
      modifies this, threads
      ensures Valid() && State() == Apply(old(State()), Dispatcher)
    {
      StepKeepsInv(State(), Dispatcher);
      match at {
        case Fetch => Take();
        case Got(action) => LookUp(action);
        case Assign(i, stage) => GiveOut(i, stage);
        case Close(i, stage) => ShutDown(i, stage);
        case _ => MoveOn();
      }
    }

    /** The awaited worker has finished. */
    method MoveOn()
      requires (at.Join? || at.CloseWait?) && Enabled(State(), Dispatcher)
      modifies this`at
      ensures State() == DispatcherStep(old(State()))
    {
      match at {
        case Join(i) => at := if i < |dispatched[|dispatched| - 1].handlers| then Join(i + 1) else Fetch;
        case CloseWait(i) => at := Close(i + 1, PutAction);
      }
      assert Workers() == old(Workers());
    }

    method Take()
      requires at == Fetch && queue != []
      modifies this`queue, this`left, this`at
      ensures State() == DispatcherStep(old(State()))
    {
      var first := queue[0];
      queue := queue[1..];
      left := left + [Taken(first)];
      at := if first.Some? then Got(first.value) else Close(0, PutAction);
    }

    method LookUp(action: Action)
      requires at == Got(action)
      modifies this`dispatched, this`at
      ensures State() == DispatcherStep(old(State()))
    {
      var found := if action.kind in handlers then handlers[action.kind] else [];
      dispatched := dispatched + [Dispatch(action, found)];
      at := Assign(0, PutAction);
    }

    method GiveOut(i: nat, stage: Stage)
      requires NoDup(threads) && at == Assign(i, stage) && i <= |threads| && Enabled(State(), Dispatcher)
      modifies this`threads, this`at, threads
      ensures NoDup(threads) && State() == DispatcherStep(old(State()))
    {
      var last := dispatched[|dispatched| - 1].handlers;
      if i >= |last| {
        at := Join(0);
      } else {
        if stage == PutAction {
          Grow(i);
        }
        assert threads[i] in old(threads) || fresh(threads[i]);
        Set(i, stage, Some(|dispatched| - 1), Some(last[i]));
        at := match stage
              case PutAction => Assign(i, PutHandler)
              case PutHandler => Assign(i, Signal)
              case Signal => Assign(i + 1, PutAction);
      }
    }

    method ShutDown(i: nat, stage: Stage)
      requires NoDup(threads) && at == Close(i, stage) && Enabled(State(), Dispatcher)
      modifies this`at, threads
      ensures State() == DispatcherStep(old(State()))
    {
      if i >= |threads| {
        at := Stopped;
      } else {
        Set(i, stage, None, None);
        at := match stage
              case PutAction => Close(i, PutHandler)
              case PutHandler => Close(i, Signal)
              case Signal => CloseWait(i);
      }
    }

    /** Worker `i`'s next step; it is not waiting. */
    method Work(i: nat)
      requires Valid() && Enabled(State(), WorkerStep(i))
      modifies this`calls, threads
      ensures Valid() && State() == Apply(old(State()), WorkerStep(i))
    {
      StepKeepsInv(State(), WorkerStep(i));
      var called := threads[i].Turn();
      if called {
        ghost var d := threads[i].action.value;
        calls := calls + [Call(d, dispatched[d].action.kind, i, threads[i].handler.value)];
      }
      assert Workers() == Apply(old(State()), WorkerStep(i)).workers;
    }

    /** Send an action to the dispatcher, or nothing to stop it. */
    method Send(item: Option<Action>)
      requires Valid()
      modifies this`queue, this`sent
      ensures Valid() && State() == Apply(old(State()), Event.Send(item))
    {
      StepKeepsInv(State(), Event.Send(item));
      queue := queue + [item];
      sent := sent + [item];
      assert Workers() == old(Workers());
    }

    /** Drop the oldest items until at most `n` are queued; tells whether any was dropped. */
    method Limit(n: nat) returns (limited: bool)
      requires Valid()
      modifies this`queue, this`left
      ensures Valid() && State() == Apply(old(State()), Event.Limit(n)) && limited == (|old(queue)| > n)
    {
      ghost var goal := Apply(State(), Event.Limit(n));
      StepKeepsInv(State(), Event.Limit(n));
      limited := |queue| > n;
      DropOldest(n);
      assert Workers() == old(Workers());
      assert State() == goal;
    }

    method SetQueueLimit(n: nat)
      requires Valid()
      modifies this`queueLimit
      ensures Valid() && State() == old(State()) && queueLimit == n
    {
      queueLimit := n;
      assert Workers() == old(Workers());
    }

    /** Queue an action: if there is a limit, the oldest make room for it.  Tells whether any was dropped.  These are two
        steps, and others may come between them. */
    method Queue(item: Option<Action>) returns (r: QueueResult)
      requires Valid()
      modifies this`queue, this`sent, this`left
      ensures Valid() && State() == Apply(MadeRoom(old(State()), queueLimit), Event.Send(item))
      ensures r == (if queueLimit > 0 && |old(queue)| >= queueLimit then ReplacedOld else Accepted)
    {
      var limited := false;
      if queueLimit > 0 {
        limited := Limit(queueLimit - 1);
      }
      Send(item);
      r := if limited then ReplacedOld else Accepted;
    }

    method DropOldest(n: nat)
      modifies this`queue, this`left
      ensures queue == if |old(queue)| <= n then old(queue) else old(queue)[|old(queue)| - n..]
      ensures left == if |old(queue)| <= n then old(left) else old(left) + Drop(old(queue)[..|old(queue)| - n])
    {
      ghost var k := 0;
      ghost var all := queue;
      assert all[..0] == [] && all[0..] == all && left + [] == left;
      while |queue| > n
        invariant 0 <= k <= |all| && queue == all[k..] && left == old(left) + Drop(all[..k])
        invariant k > 0 ==> |queue| >= n
        decreases |queue|
      {
        DropOneMore(all, k);
        Assoc(old(left), Drop(all[..k]), [Dropped(all[k])]);
        left := left + [Dropped(queue[0])];
        queue := queue[1..];
        k := k + 1;
      }
    }

    method AddHandler(kind: Kind, handler: Handler)
      requires Valid() && Enabled(State(), Event.AddHandler(kind, handler))
      modifies this`handlers
      ensures Valid() && State() == Apply(old(State()), Event.AddHandler(kind, handler))
    {
      StepKeepsInv(State(), Event.AddHandler(kind, handler));
      handlers := handlers[kind := (if kind in handlers then handlers[kind] else []) + [handler]];
      assert Workers() == old(Workers());
    }
  }

  lemma {:induction false} DropOneMore(items: seq<Option<Action>>, k: nat)
    requires k < |items|
    ensures Drop(items[..k + 1]) == Drop(items[..k]) + [Dropped(items[k])]
  {
    if k == 0 {
      assert items[..1] == [items[0]] && items[..1][1..] == [];
    } else {
      DropOneMore(items[1..], k - 1);
      assert items[..k + 1][1..] == items[1..][..k] && items[..k][1..] == items[1..][..k - 1];
    }
  }
}
