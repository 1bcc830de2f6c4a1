/** The alarm clock (libs/alarm/alarm.cc): observers waiting at times, and a timer set to the earliest. */
module AlarmClocks {

  /** A time stamp; zero ticks are the invalid one. */
  datatype Time = Time(ticks: nat)

  const INVALID := Time(0)

  datatype Observer = Observer(address: nat)

  datatype Alarm = Alarm(time: Time, observer: Observer)

  /** The observers waiting at one time. */
  datatype Slot = Slot(time: Time, who: set<Observer>)

  /** The map in the order of its times, the timer's time, and a ledger of alarms that were set, told and removed. */
  datatype State = State(
    slots: seq<Slot>,
    timer: Time,
    added: multiset<Alarm>,
    notified: multiset<Alarm>,
    removed: multiset<Alarm>)

  const START := State([], INVALID, multiset{}, multiset{}, multiset{})

  function Find(slots: seq<Slot>, time: Time): (i: nat)
    ensures i <= |slots|
  {
    if slots == [] || slots[0].time.ticks >= time.ticks then 0 else 1 + Find(slots[1..], time)
  }

  predicate Has(slots: seq<Slot>, time: Time) {
    var i := Find(slots, time);
    i < |slots| && slots[i].time == time
  }

  predicate Ordered(slots: seq<Slot>) {
    forall i, j | 0 <= i < j < |slots| :: slots[i].time.ticks < slots[j].time.ticks
  }

  predicate Waiting(slots: seq<Slot>, a: Alarm) {
    exists i | 0 <= i < |slots| :: slots[i].time == a.time && a.observer in slots[i].who
  }

  /** What the timer is set to: the first time in the map, the invalid one if there is none. */
  function Earliest(slots: seq<Slot>): Time {
    if slots == [] then INVALID else slots[0].time
  }

  function AlarmsOf(s: Slot): set<Alarm> {
    set o | o in s.who :: Alarm(s.time, o)
  }

  // ---------- Operations ----------

  function AddAlarm(s: State, a: Alarm): State {
    var i := Find(s.slots, a.time);
    if Has(s.slots, a.time) then
      var t := s.(slots := s.slots[i := Slot(a.time, s.slots[i].who + {a.observer})]);
      if a.observer in s.slots[i].who then t else t.(added := s.added + multiset{a})
    else
      s.(slots := s.slots[..i] + [Slot(a.time, {a.observer})] + s.slots[i..],
         timer := if i == 0 then a.time else s.timer,
         added := s.added + multiset{a})
  }

  /** Remove an alarm; of a slot with one observer only the time is looked at. */
  function RemoveAlarm(s: State, a: Alarm): (bool, State) {
    if !Has(s.slots, a.time) then (false, s)
    else
      var i := Find(s.slots, a.time);
      var slot := s.slots[i];
      if |slot.who| > 1 then
        var t := s.(slots := s.slots[i := Slot(a.time, slot.who - {a.observer})]);
        (true, if a.observer in slot.who then t.(removed := s.removed + multiset{a}) else t)
      else
        var rest := s.slots[..i] + s.slots[i + 1..];
        (true, s.(slots := rest, timer := if i == 0 then Earliest(rest) else s.timer,
                  removed := s.removed + multiset(AlarmsOf(slot))))
  }

  /** The timer does nothing while its time is the invalid one. */
  predicate Armed(s: State) {
    s.timer != INVALID
  }

  /** One look at the clock: if the timer is armed and its time has passed, tell everybody waiting for it and set the
      next. */
  function Tick(s: State, now: Time): State {
    if Armed(s) && s.timer.ticks < now.ticks then
      var i := Find(s.slots, s.timer);
      if Has(s.slots, s.timer) then
        var rest := s.slots[..i] + s.slots[i + 1..];
        s.(slots := rest, timer := Earliest(rest), notified := s.notified + multiset(AlarmsOf(s.slots[i])))
      else s.(timer := Earliest(s.slots))
    else s
  }

  datatype Event = DoAdd(a: Alarm) | DoRemove(a: Alarm) | DoTick(now: Time)

  function Apply(s: State, e: Event): State {
    match e
    case DoAdd(a) => AddAlarm(s, a)
    case DoRemove(a) => RemoveAlarm(s, a).1
    case DoTick(now) => Tick(s, now)
  }

  function Run(s: State, events: seq<Event>): State
    decreases |events|
  {
    if events == [] then s else Run(Apply(s, events[0]), events[1..])
  }

  // ---------- Safety ----------

  predicate InOrder(s: State) {
    && Ordered(s.slots) && (forall i | 0 <= i < |s.slots| :: s.slots[i].who != {})
    && s.timer == Earliest(s.slots)
  }

  /** Every alarm set is waiting, told or removed, and counted once. */
  ghost predicate Accounted(s: State) {
    forall a: Alarm :: Counted(s, a)
  }

  predicate Counted(s: State, a: Alarm) {
    s.added[a] == (if Waiting(s.slots, a) then 1 else 0) + s.notified[a] + s.removed[a]
  }

  ghost predicate Inv(s: State) {
    InOrder(s) && Accounted(s)
  }

  lemma {:induction false} FindSplits(slots: seq<Slot>, time: Time)
    requires Ordered(slots)
    ensures var i := Find(slots, time);
            && (forall j | 0 <= j < i :: slots[j].time.ticks < time.ticks)
            && (forall j | i <= j < |slots| :: slots[j].time.ticks >= time.ticks)
            && (forall j | i < j < |slots| :: slots[j].time.ticks > time.ticks)
  {
    if slots != [] && slots[0].time.ticks < time.ticks {
      FindSplits(slots[1..], time);
      assert forall j | 1 <= j < |slots| :: slots[j] == slots[1..][j - 1];
    }
  }

  /** Who waits at a time is who is in its slot. */
  lemma WaitingAt(slots: seq<Slot>, i: nat, a: Alarm)
    requires Ordered(slots) && i < |slots| && slots[i].time == a.time
    ensures Waiting(slots, a) <==> a.observer in slots[i].who
  {
    if Waiting(slots, a) {
      var j :| 0 <= j < |slots| && slots[j].time == a.time && a.observer in slots[j].who;
      assert j == i;
    }
  }

  lemma NobodyWaiting(slots: seq<Slot>, a: Alarm)
    requires Ordered(slots) && !Has(slots, a.time)
    ensures !Waiting(slots, a)
  {
    FindSplits(slots, a.time);
  }

  /** Changing one slot changes who waits at its time only. */
  lemma SlotChanged(slots: seq<Slot>, i: nat, who: set<Observer>, a: Alarm)
    requires Ordered(slots) && i < |slots|
    ensures var changed := slots[i := Slot(slots[i].time, who)];
            && Ordered(changed)
            && (Waiting(changed, a) <==> if a.time == slots[i].time then a.observer in who else Waiting(slots, a))
  {
    var changed := slots[i := Slot(slots[i].time, who)];
    if a.time == slots[i].time {
      WaitingAt(changed, i, a);
    } else {
      if Waiting(slots, a) {
        var j :| 0 <= j < |slots| && slots[j].time == a.time && a.observer in slots[j].who;
        assert changed[j] == slots[j];
      }
      if Waiting(changed, a) {
        var j :| 0 <= j < |changed| && changed[j].time == a.time && a.observer in changed[j].who;
        assert changed[j] == slots[j];
      }
    }
  }

  lemma SlotGone(slots: seq<Slot>, i: nat, a: Alarm)
    requires Ordered(slots) && i < |slots|
    ensures var rest := slots[..i] + slots[i + 1..];
            && Ordered(rest) && (Waiting(rest, a) <==> a.time != slots[i].time && Waiting(slots, a))
  {
    var rest := slots[..i] + slots[i + 1..];
    if a.time != slots[i].time && Waiting(slots, a) {
      var j :| 0 <= j < |slots| && slots[j].time == a.time && a.observer in slots[j].who;
      assert j < i ==> rest[j] == slots[j];
      assert j > i ==> rest[j - 1] == slots[j];
    }
    if Waiting(rest, a) {
      var j :| 0 <= j < |rest| && rest[j].time == a.time && a.observer in rest[j].who;
      assert rest[j] == slots[if j < i then j else j + 1];
    }
  }

  lemma InsertedOrder(slots: seq<Slot>, slot: Slot)
    requires Ordered(slots) && !Has(slots, slot.time)
    ensures var i := Find(slots, slot.time); Ordered(slots[..i] + [slot] + slots[i..])
  {
    FindSplits(slots, slot.time);
  }

  lemma SlotAdded(slots: seq<Slot>, i: nat, slot: Slot, more: seq<Slot>, a: Alarm)
    requires i <= |slots| && more == slots[..i] + [slot] + slots[i..] && Ordered(more)
    ensures Waiting(more, a) <==> if a.time == slot.time then a.observer in slot.who else Waiting(slots, a)
  {
    assert more[i] == slot;
    if a.time == slot.time {
      WaitingAt(more, i, a);
    } else {
      if Waiting(slots, a) {
        var j :| 0 <= j < |slots| && slots[j].time == a.time && a.observer in slots[j].who;
        assert more[if j < i then j else j + 1] == slots[j];
      }
      if Waiting(more, a) {
        var j :| 0 <= j < |more| && more[j].time == a.time && a.observer in more[j].who;
        assert more[j] == slots[if j < i then j else j - 1];
      }
    }
  }

  /** Who is waiting after an alarm is added. */
  lemma AddedWaits(s: State, a: Alarm, b: Alarm)
    requires InOrder(s)
    ensures Waiting(AddAlarm(s, a).slots, b) <==> b == a || Waiting(s.slots, b)
    ensures Ordered(AddAlarm(s, a).slots)
    ensures Has(s.slots, a.time) ==> (Waiting(s.slots, a) <==> a.observer in s.slots[Find(s.slots, a.time)].who)
    ensures !Has(s.slots, a.time) ==> !Waiting(s.slots, a)
  {
    var i := Find(s.slots, a.time);
    if Has(s.slots, a.time) {
      SlotChanged(s.slots, i, s.slots[i].who + {a.observer}, b);
      WaitingAt(s.slots, i, a);
      if b.time == a.time {
        WaitingAt(s.slots, i, b);
      }
    } else {
      InsertedOrder(s.slots, Slot(a.time, {a.observer}));
      SlotAdded(s.slots, i, Slot(a.time, {a.observer}), AddAlarm(s, a).slots, b);
      NobodyWaiting(s.slots, a);
      if b.time == a.time {
        NobodyWaiting(s.slots, b);
      }
    }
  }

  lemma AddOrder(s: State, a: Alarm)
    requires InOrder(s)
    ensures InOrder(AddAlarm(s, a))
  {
    AddedWaits(s, a, a);
  }

  /** After an alarm is added the timer holds the earliest time, and the alarm waits with the others. */
  lemma AddKeeps(s: State, a: Alarm)
    requires Inv(s)
    ensures Inv(AddAlarm(s, a)) && forall b: Alarm :: Waiting(AddAlarm(s, a).slots, b) <==> b == a || Waiting(s.slots, b)
  {
    AddOrder(s, a);
    var t := AddAlarm(s, a);
    forall b: Alarm
      ensures Counted(t, b)
      ensures Waiting(t.slots, b) <==> b == a || Waiting(s.slots, b)
    {
      assert Counted(s, b);
      AddedWaits(s, a, b);
    }
  }

  lemma GoneOrder(s: State, i: nat)
    requires InOrder(s) && i < |s.slots|
    ensures var rest := s.slots[..i] + s.slots[i + 1..];
            && Ordered(rest) && (forall j | 0 <= j < |rest| :: rest[j].who != {})
            && (i > 0 ==> Earliest(rest) == s.timer)
  {
    SlotGone(s.slots, i, Alarm(s.slots[i].time, Observer(0)));
  }

  /** The first slot's alarms told, and the timer set on. */
  function FirstSlotTold(s: State): State
    requires s.slots != []
  {
    s.(slots := s.slots[1..], timer := Earliest(s.slots[1..]), notified := s.notified + multiset(AlarmsOf(s.slots[0])))
  }

  lemma FirstTold(s: State, b: Alarm)
    requires Inv(s) && s.slots != []
    ensures var t := FirstSlotTold(s);
            && (Waiting(t.slots, b) <==> Waiting(s.slots, b) && b.time != s.timer)
            && t.notified[b] == s.notified[b] + (if Waiting(s.slots, b) && b.time == s.timer then 1 else 0)
            && Counted(t, b)
  {
    assert Counted(s, b);
    assert s.slots[..0] + s.slots[1..] == s.slots[1..];
    SlotGone(s.slots, 0, b);
    if b.time == s.timer {
      WaitingAt(s.slots, 0, b);
    }
  }

  lemma TickIs(s: State, now: Time)
    requires InOrder(s) && Armed(s) && s.timer.ticks < now.ticks
    ensures s.slots != [] && Tick(s, now) == FirstSlotTold(s)
  {
    FindSplits(s.slots, s.timer);
    assert s.slots[..0] + s.slots[1..] == s.slots[1..];
  }

  lemma FirstGoneOrder(s: State)
    requires InOrder(s) && s.slots != []
    ensures InOrder(FirstSlotTold(s))
  {
    var rest := FirstSlotTold(s).slots;
    assert forall j | 0 <= j < |rest| :: rest[j] == s.slots[j + 1];
  }

  lemma TickKeeps(s: State, now: Time)
    requires Inv(s)
    ensures Inv(Tick(s, now))
  {
    if Armed(s) && s.timer.ticks < now.ticks {
      TickIs(s, now);
      FirstGoneOrder(s);
      forall b: Alarm ensures Counted(FirstSlotTold(s), b) {
        FirstTold(s, b);
      }
    }
  }

  lemma RemoveKeeps(s: State, a: Alarm)
    requires Inv(s)
    ensures Inv(RemoveAlarm(s, a).1)
  {
    RemoveOrder(s, a);
    forall b: Alarm ensures Counted(RemoveAlarm(s, a).1, b) {
      RemoveCounts(s, a, b);
    }
  }

  lemma RemoveOrder(s: State, a: Alarm)
    requires InOrder(s)
    ensures InOrder(RemoveAlarm(s, a).1)
  {
    if Has(s.slots, a.time) {
      var i := Find(s.slots, a.time);
      var slot := s.slots[i];
      if |slot.who| > 1 {
        OneLess(slot.who, a.observer);
        SlotChanged(s.slots, i, slot.who - {a.observer}, a);
      } else {
        GoneOrder(s, i);
      }
    }
  }

  lemma RemoveCounts(s: State, a: Alarm, b: Alarm)
    requires Inv(s)
    ensures Counted(RemoveAlarm(s, a).1, b)
  {
    assert Counted(s, b);
    if Has(s.slots, a.time) {
      var i := Find(s.slots, a.time);
      var slot := s.slots[i];
      if b.time == a.time {
        WaitingAt(s.slots, i, b);
      }
      if |slot.who| > 1 {
        SlotChanged(s.slots, i, slot.who - {a.observer}, b);
      } else {
        SlotGone(s.slots, i, b);
      }
    }
  }

  lemma OneLess(s: set<Observer>, o: Observer)
    requires |s| > 1
    ensures s - {o} != {}
  {
    if o in s {
      assert |s - {o}| == |s| - 1;
    } else {
      assert s - {o} == s;
    }
  }

  lemma ApplyKeeps(s: State, e: Event)
    requires Inv(s)
    ensures Inv(Apply(s, e))
  {
    match e {
      case DoAdd(a) => AddKeeps(s, a);
      case DoRemove(a) => RemoveKeeps(s, a);
      case DoTick(now) => TickKeeps(s, now);
    }
  }

  /** Over every run the timer is set to the first time in the map, or to the invalid one when nobody waits, and every
      alarm that was set is waiting, told or removed, exactly once for each time it was set. */
  lemma {:induction false} RunsAreSafe(s: State, events: seq<Event>)
    requires Inv(s)
    ensures Inv(Run(s, events))
    decreases |events|
  {
    if events != [] {
      ApplyKeeps(s, events[0]);
      RunsAreSafe(Apply(s, events[0]), events[1..]);
    }
  }

  // ---------- Who is told ----------

  ghost predicate SomebodyWaits(s: State) {
    exists a: Alarm :: Waiting(s.slots, a)
  }

  ghost predicate WaitsForInvalid(s: State) {
    exists a: Alarm :: a.time == INVALID && Waiting(s.slots, a)
  }

  /** He waits, and nobody waits for an earlier time. */
  ghost predicate WaitsFirst(s: State, b: Alarm) {
    Waiting(s.slots, b) && forall a: Alarm :: Waiting(s.slots, a) ==> b.time.ticks <= a.time.ticks
  }

  lemma FirstSlot(s: State) returns (a: Alarm)
    requires InOrder(s) && s.slots != []
    ensures a.time == s.timer && WaitsFirst(s, a)
  {
    var o :| o in s.slots[0].who;
    a := Alarm(s.slots[0].time, o);
  }

  lemma WaitsFirstIff(s: State, b: Alarm)
    requires InOrder(s)
    ensures WaitsFirst(s, b) <==> Waiting(s.slots, b) && b.time == s.timer
  {
    if s.slots != [] {
      var a := FirstSlot(s);
    }
  }

  /** The timer is armed exactly if somebody waits and nobody waits for the invalid time. */
  lemma ArmedIff(s: State)
    requires InOrder(s)
    ensures Armed(s) <==> SomebodyWaits(s) && !WaitsForInvalid(s)
  {
    if s.slots != [] {
      var a := FirstSlot(s);
    }
  }

  /** On a tick he is told exactly who waits first, for a valid time that is over. */
  lemma ToldOnTickIff(s: State, now: Time, b: Alarm)
    requires Inv(s)
    ensures Tick(s, now).notified[b] == s.notified[b] +
            if WaitsFirst(s, b) && b.time != INVALID && b.time.ticks < now.ticks then 1 else 0
  {
    WaitsFirstIff(s, b);
    if Armed(s) && s.timer.ticks < now.ticks {
      TickIs(s, now);
      FirstTold(s, b);
    }
  }

  /** The clock works: it is armed whenever somebody waits, and who waits first is told once his time is over. */
  ghost predicate Works(s: State) {
    && (SomebodyWaits(s) ==> Armed(s))
    && forall b: Alarm, now: Time :: WaitsFirst(s, b) && b.time.ticks < now.ticks ==>
         Tick(s, now).notified[b] == s.notified[b] + 1
  }

  lemma WorksIff(s: State)
    requires Inv(s)
    ensures Works(s) <==> !WaitsForInvalid(s)
  {
    ArmedIff(s);
    if !WaitsForInvalid(s) {
      forall b: Alarm, now: Time | WaitsFirst(s, b) && b.time.ticks < now.ticks
        ensures Tick(s, now).notified[b] == s.notified[b] + 1
      {
        ToldOnTickIff(s, now, b);
      }
    }
  }

  /** Over a whole run the clock works in every state exactly if no alarm is ever set for the invalid time, which is
      for the caller to see to. */
  lemma WorksThroughoutIff(events: seq<Event>)
    ensures (forall n | 0 <= n <= |events| :: Works(Run(START, events[..n]))) <==>
            forall e <- events :: e.DoAdd? ==> e.a.time != INVALID
  {
    forall n | 0 <= n <= |events| ensures Inv(Run(START, events[..n])) {
      RunsAreSafe(START, events[..n]);
    }
    if forall e <- events :: e.DoAdd? ==> e.a.time != INVALID {
      forall n | 0 <= n <= |events| ensures Works(Run(START, events[..n])) {
        ValidStays(START, events[..n]);
        WorksIff(Run(START, events[..n]));
      }
    } else {
      var i :| 0 <= i < |events| && events[i].DoAdd? && events[i].a.time == INVALID;
      var s := Run(START, events[..i]);
      RunOn(START, events[..i], events[i]);
      assert events[..i] + [events[i]] == events[..i + 1];
      AddKeeps(s, events[i].a);
      WorksIff(Run(START, events[..i + 1]));
    }
  }

  lemma {:induction false} RunOn(s: State, events: seq<Event>, e: Event)
    ensures Run(s, events + [e]) == Apply(Run(s, events), e)
    decreases |events|
  {
    if events != [] {
      RunOn(Apply(s, events[0]), events[1..], e);
      assert (events + [e])[1..] == events[1..] + [e];
    } else {
      assert Run(Apply(s, e), []) == Apply(s, e);
    }
  }

  lemma {:induction false} ValidStays(s: State, events: seq<Event>)
    requires Inv(s) && !WaitsForInvalid(s) && forall e <- events :: e.DoAdd? ==> e.a.time != INVALID
    ensures !WaitsForInvalid(Run(s, events))
    decreases |events|
  {
    if events != [] {
      ApplyKeeps(s, events[0]);
      OnlyAddedWait(s, events[0]);
      ValidStays(Apply(s, events[0]), events[1..]);
    }
  }

  /** Nobody waits after a step who did not wait before, but the one who was added. */
  lemma OnlyAddedWait(s: State, e: Event)
    requires Inv(s)
    ensures forall a: Alarm :: Waiting(Apply(s, e).slots, a) ==> Waiting(s.slots, a) || e == DoAdd(a)
  {
    forall a: Alarm | Waiting(Apply(s, e).slots, a) ensures Waiting(s.slots, a) || e == DoAdd(a) {
      match e {
        case DoAdd(b) => AddedWaits(s, b, a);
        case DoRemove(b) => RemovedWaits(s, b, a);
        case DoTick(now) => TickedWaits(s, now, a);
      }
    }
  }

  lemma RemovedWaits(s: State, b: Alarm, a: Alarm)
    requires Inv(s)
    ensures Waiting(RemoveAlarm(s, b).1.slots, a) ==> Waiting(s.slots, a)
    ensures a.time != b.time ==> (Waiting(RemoveAlarm(s, b).1.slots, a) <==> Waiting(s.slots, a))
  {
    if Has(s.slots, b.time) {
      var i := Find(s.slots, b.time);
      if |s.slots[i].who| > 1 {
        SlotChanged(s.slots, i, s.slots[i].who - {b.observer}, a);
        if a.time == b.time {
          WaitingAt(s.slots, i, a);
        }
      } else {
        SlotGone(s.slots, i, a);
      }
    }
  }

  lemma TickedWaits(s: State, now: Time, a: Alarm)
    requires Inv(s)
    ensures Waiting(Tick(s, now).slots, a) ==> Waiting(s.slots, a)
  {
    if Armed(s) && s.timer.ticks < now.ticks {
      TickIs(s, now);
      FirstTold(s, a);
    }
  }

  /** While somebody waits for the invalid time, nobody at all is told, whatever the clock says: only removing an alarm
      of the invalid time ends it. */
  lemma {:induction false} NobodyIsTold(s: State, events: seq<Event>)
    requires Inv(s) && WaitsForInvalid(s) && forall e <- events :: e.DoRemove? ==> e.a.time != INVALID
    ensures Run(s, events).notified == s.notified && WaitsForInvalid(Run(s, events))
    decreases |events|
  {
    if events != [] {
      var t := Apply(s, events[0]);
      ApplyKeeps(s, events[0]);
      ArmedIff(s);
      var a: Alarm :| a.time == INVALID && Waiting(s.slots, a);
      if events[0].DoAdd? {
        AddedWaits(s, events[0].a, a);
      } else if events[0].DoRemove? {
        RemovedWaits(s, events[0].a, a);
      }
      assert Waiting(t.slots, a);
      NobodyIsTold(t, events[1..]);
    }
  }

  /** Two alarms, the first for the invalid time: however often the timer thread looks at the clock, the second
      observer waits for ever. */
  lemma SecondWaitsForEver(o: Observer, p: Observer, ticks: seq<Event>)
    requires forall e <- ticks :: e.DoTick?
    ensures var s := Run(START, [DoAdd(Alarm(INVALID, o)), DoAdd(Alarm(Time(5), p))]);
            s.notified == multiset{} && Waiting(s.slots, Alarm(Time(5), p)) && Run(s, ticks) == s
  {
    var first, second := Alarm(INVALID, o), Alarm(Time(5), p);
    var one := AddAlarm(START, first);
    assert one == State([Slot(INVALID, {o})], INVALID, multiset{first}, multiset{}, multiset{});
    var two := AddAlarm(one, second);
    AddedWaits(one, second, second);
    RunOn(START, [DoAdd(first)], DoAdd(second));
    assert [DoAdd(first), DoAdd(second)] == [DoAdd(first)] + [DoAdd(second)];
    assert Run(one, []) == one;
    TicksChangeNothing(two, ticks);
  }

  lemma {:induction false} TicksChangeNothing(s: State, ticks: seq<Event>)
    requires !Armed(s) && forall e <- ticks :: e.DoTick?
    ensures Run(s, ticks) == s
    decreases |ticks|
  {
    if ticks != [] {
      assert ticks[0] in ticks;
      TicksChangeNothing(s, ticks[1..]);
    }
  }

  /** As many looks at the clock as there are times, all of them after the last: everybody has been told, exactly if
      nobody waited for the invalid time. */
  lemma {:induction false} EverybodyToldIff(s: State, now: Time, n: nat)
    requires Inv(s) && |s.slots| <= n && forall a: Alarm :: Waiting(s.slots, a) ==> a.time.ticks < now.ticks
    ensures Run(s, Ticks(now, n)).slots == [] <==> !WaitsForInvalid(s)
    ensures !WaitsForInvalid(s) ==> forall a: Alarm ::
              Run(s, Ticks(now, n)).notified[a] == s.notified[a] + if Waiting(s.slots, a) then 1 else 0
    decreases n
  {
    if WaitsForInvalid(s) {
      ArmedIff(s);
      TicksChangeNothing(s, Ticks(now, n));
    } else if s.slots == [] {
      TicksChangeNothing(s, Ticks(now, n));
    } else {
      var t := Tick(s, now);
      FirstGoes(s, now);
      assert Ticks(now, n) == [DoTick(now)] + Ticks(now, n - 1);
      assert Ticks(now, n)[1..] == Ticks(now, n - 1);
      EverybodyToldIff(t, now, n - 1);
    }
  }

  lemma FirstGoes(s: State, now: Time)
    requires Inv(s) && s.slots != [] && !WaitsForInvalid(s)
    requires forall a: Alarm :: Waiting(s.slots, a) ==> a.time.ticks < now.ticks
    ensures var t := Tick(s, now);
            && Inv(t) && |t.slots| == |s.slots| - 1
            && forall b: Alarm ::
                 && (Waiting(t.slots, b) <==> Waiting(s.slots, b) && b.time != s.timer)
                 && t.notified[b] == s.notified[b] + (if Waiting(s.slots, b) && b.time == s.timer then 1 else 0)
  {
    var a := FirstSlot(s);
    TickKeeps(s, now);
    TickIs(s, now);
    forall b: Alarm
      ensures Waiting(Tick(s, now).slots, b) <==> Waiting(s.slots, b) && b.time != s.timer
      ensures Tick(s, now).notified[b] == s.notified[b] + if Waiting(s.slots, b) && b.time == s.timer then 1 else 0
    {
      FirstTold(s, b);
    }
  }

  function Ticks(now: Time, n: nat): (r: seq<Event>)
    ensures |r| == n && forall e <- r :: e == DoTick(now)
  {
    if n == 0 then [] else [DoTick(now)] + Ticks(now, n - 1)
  }

  /** Removing does what it is asked, nobody else's alarm is lost, exactly unless the only one waiting at that time
      is somebody else. */
  lemma RemovesOnlyNamedIff(s: State, a: Alarm)
    requires Inv(s)
    ensures (forall b: Alarm :: Waiting(RemoveAlarm(s, a).1.slots, b) <==> Waiting(s.slots, b) && b != a) <==>
            !(Has(s.slots, a.time) && |s.slots[Find(s.slots, a.time)].who| == 1 && !Waiting(s.slots, a))
  {
    var t := RemoveAlarm(s, a).1;
    var i := Find(s.slots, a.time);
    if !Has(s.slots, a.time) {
      NobodyWaiting(s.slots, a);
    } else {
      var slot := s.slots[i];
      WaitingAt(s.slots, i, a);
      if |slot.who| > 1 {
        forall b: Alarm ensures Waiting(t.slots, b) <==> Waiting(s.slots, b) && b != a {
          SlotChanged(s.slots, i, slot.who - {a.observer}, b);
          if b.time == a.time {
            WaitingAt(s.slots, i, b);
          }
        }
      } else {
        var o :| o in slot.who;
        OnlyOne(slot.who, o);
        WaitingAt(s.slots, i, Alarm(a.time, o));
        SlotGone(s.slots, i, Alarm(a.time, o));
        forall b: Alarm | a.observer == o ensures Waiting(t.slots, b) <==> Waiting(s.slots, b) && b != a {
          SlotGone(s.slots, i, b);
          if b.time == a.time {
            WaitingAt(s.slots, i, b);
          }
        }
      }
    }
  }

  /** Removing says that it did if and only if somebody waits at that time, whoever was named. */
  lemma RemoveSaysIff(s: State, a: Alarm)
    requires InOrder(s)
    ensures RemoveAlarm(s, a).0 <==> exists b: Alarm :: b.time == a.time && Waiting(s.slots, b)
  {
    FindSplits(s.slots, a.time);
    var i := Find(s.slots, a.time);
    if Has(s.slots, a.time) {
      var o :| o in s.slots[i].who;
      assert Waiting(s.slots, Alarm(a.time, o));
    }
  }

  lemma OnlyOne(s: set<Observer>, o: Observer)
    requires o in s && |s| <= 1
    ensures s == {o}
  {
    assert |s - {o}| == 0;
    assert s == {o} + (s - {o});
  }

  // ---------- The clock ----------

  /** The clock and its timer.  Each method is one section under the mutexes of both. */
  class Clock {
    var observers: seq<Slot>
    var alarmTime: Time
    // What was set, told and removed; the source keeps no record of it.
    ghost var added: multiset<Alarm>
    ghost var notified: multiset<Alarm>
    ghost var removed: multiset<Alarm>

    ghost function Now(): State
      reads this
    {
      State(observers, alarmTime, added, notified, removed)
    }

    ghost predicate Valid()
      reads this
    {
      Inv(Now())
    }

    constructor ()
      ensures Valid() && Now() == START
    {
      observers, alarmTime := [], INVALID;
      added, notified, removed := multiset{}, multiset{}, multiset{};
    }

    method Add(time: Time, observer: Observer) returns (ok: bool)
      requires Valid()
      modifies this
      ensures Valid() && ok && Now() == AddAlarm(old(Now()), Alarm(time, observer))
      ensures alarmTime == Earliest(observers)
    {
      AddKeeps(Now(), Alarm(time, observer));
      var i := Find(observers, time);
      if Has(observers, time) {
        added := if observer in observers[i].who then added else added + multiset{Alarm(time, observer)};
        observers := observers[i := Slot(time, observers[i].who + {observer})];
        return true;
      }
      observers := observers[..i] + [Slot(time, {observer})] + observers[i..];
      added := added + multiset{Alarm(time, observer)};
      if i == 0 {
        alarmTime := time;
      }
      return true;
    }

    method Remove(time: Time, observer: Observer) returns (found: bool)
      requires Valid()
      modifies this
      ensures Valid() && (found, Now()) == RemoveAlarm(old(Now()), Alarm(time, observer))
      ensures alarmTime == Earliest(observers)
    {
      RemoveKeeps(Now(), Alarm(time, observer));
      found := Erase(time, observer);
    }

    method Erase(time: Time, observer: Observer) returns (found: bool)
      modifies this`observers, this`removed, this`alarmTime
      ensures (found, Now()) == RemoveAlarm(old(Now()), Alarm(time, observer))
    {
      found := Has(observers, time);
      if found {
        var i := Find(observers, time);
        if |observers[i].who| > 1 {
          RemoveFrom(i, time, observer);
        } else {
          RemoveSlot(i);
        }
      }
    }

    method RemoveFrom(i: nat, time: Time, observer: Observer)
      requires i < |observers|
      modifies this`observers, this`removed
      ensures observers == old(observers)[i := Slot(time, old(observers)[i].who - {observer})]
      ensures removed == if observer in old(observers)[i].who then old(removed) + multiset{Alarm(time, observer)} else old(removed)
    {
      removed := if observer in observers[i].who then removed + multiset{Alarm(time, observer)} else removed;
      observers := observers[i := Slot(time, observers[i].who - {observer})];
    }

    method RemoveSlot(i: nat)
      requires i < |observers|
      modifies this`observers, this`removed, this`alarmTime
      ensures observers == old(observers)[..i] + old(observers)[i + 1..]
      ensures alarmTime == if i == 0 then Earliest(observers) else old(alarmTime)
      ensures removed == old(removed) + multiset(AlarmsOf(old(observers)[i]))
    {
      if i == 0 {
        alarmTime := if |observers| == 1 then INVALID else observers[1].time;
      }
      removed := removed + multiset(AlarmsOf(observers[i]));
      observers := observers[..i] + observers[i + 1..];
    }

    /** Tell everybody waiting at a time, and return the next one. */
    method Trigger(time: Time) returns (next: Time)
      modifies this`observers, this`notified
      ensures next == Earliest(observers)
      ensures observers == if Has(old(observers), time) then var i := Find(old(observers), time);
                             old(observers)[..i] + old(observers)[i + 1..] else old(observers)
      ensures notified == if Has(old(observers), time) then
                            old(notified) + multiset(AlarmsOf(old(observers)[Find(old(observers), time)])) else old(notified)
    {
      if Has(observers, time) {
        var i := Find(observers, time);
        var all := observers[i].who;
        var left := all;
        while left != {}
          invariant left <= all && observers == old(observers)
          invariant notified == old(notified) + multiset(set o | o in all - left :: Alarm(time, o))
          decreases |left|
        {
          var observer :| observer in left;
          ghost var told := set o | o in all - left :: Alarm(time, o);
          assert (set o | o in all - (left - {observer}) :: Alarm(time, o)) == told + {Alarm(time, observer)};
          notified := notified + multiset{Alarm(time, observer)};
          left := left - {observer};
        }
        assert (set o | o in all - left :: Alarm(time, o)) == AlarmsOf(observers[i]);
        observers := observers[..i] + observers[i + 1..];
      }
      next := if observers == [] then INVALID else observers[0].time;
    }

    /** The timer thread's look at the clock. */
    method Look(now: Time)
      requires Valid()
      modifies this
      ensures Valid() && Now() == Tick(old(Now()), now) && alarmTime == Earliest(observers)
    {
      TickKeeps(Now(), now);
      if alarmTime != INVALID && alarmTime.ticks < now.ticks {
        alarmTime := Trigger(alarmTime);
      }
    }
  }
}
