/**
 The write chain of a WebSocket connection (src/server/WebSocket.cpp:414-506): frames are posted, delivered to a
 queue and written by a pump. The coroutines are a state machine whose steps are what happens between two
 suspensions; the theorems are about every sequence of steps.
 */
module WsWriteChain {

  /** A frame to write; `gate`: whether its writer waits for its completion. */
  datatype Item = Item(id: nat, gate: bool)

  /** A pump coroutine: at the top of its loop, or waiting for a write. */
  datatype Pump = Ready | Writing(item: Item)

  /** `posted`: work handed to the executor. `history`: what was put in the queue, in order. `started`: writes
      begun, `sent`: writes that succeeded, `discarded`: taken from the queue without a write.
      `done`: the items the chain is through with, in order: written, failed or dropped; for those with a gate the
      completion was run then, the others have none. */
  datatype State = State(
    queue: seq<Item>, pumping: bool, enabled: bool, posted: seq<Item>, pumps: seq<Pump>, next: nat,
    history: seq<Item>, started: seq<Item>, sent: seq<Item>, discarded: seq<Item>, done: seq<Item>)

  /** What can happen: a frame is offered, posted work runs, pump i goes on, its write ends, writing is disabled. */
  datatype Event = Offer(gate: bool) | Deliver | Advance(i: nat) | Finish(i: nat, ok: bool) | Disable

  const Init := State([], false, true, [], [], 0, [], [], [], [], [])

  // ----- steps ----------------------------------------------------------------------------------

  function StartPumpIfNeeded(s: State): State
  {
    if s.pumping || s.queue == [] then s else s.(pumping := true, pumps := s.pumps + [Ready])
  }

  function Enqueue(s: State, item: Item): State
  {
    StartPumpIfNeeded(s.(queue := s.queue + [item], history := s.history + [item]))
  }

  function Without(pumps: seq<Pump>, i: nat): seq<Pump>
    requires i < |pumps|
  {
    pumps[..i] + pumps[i + 1..]
  }

  /** schedule and write: nothing happens once writing is disabled. */
  function OfferStep(s: State, gate: bool): State
  {
    if s.enabled then s.(posted := s.posted + [Item(s.next, gate)], next := s.next + 1) else s
  }

  function DeliverStep(s: State): State
    requires s.posted != []
  {
    var item := s.posted[0];
    var s1 := s.(posted := s.posted[1..]);
    if !s.enabled then s1.(done := s.done + [item]) else Enqueue(s1, item)
  }

  /** The pump at the top of its loop. */
  function AdvanceStep(s: State, i: nat): State
    requires i < |s.pumps| && s.pumps[i].Ready?
  {
    if s.queue == [] then s.(pumping := false, pumps := Without(s.pumps, i))
    else
      var item := s.queue[0];
      var s1 := s.(queue := s.queue[1..]);
      if !s.enabled then
        s1.(done := s.done + [item], discarded := s.discarded + [item], pumping := false, pumps := Without(s.pumps, i))
      else s1.(started := s.started + [item], pumps := s.pumps[i := Writing(item)])
  }

  function FinishStep(s: State, i: nat, ok: bool): State
    requires i < |s.pumps| && s.pumps[i].Writing?
  {
    var item := s.pumps[i].item;
    var s1 := s.(done := s.done + [item]);
    if ok then s1.(sent := s.sent + [item], pumps := s.pumps[i := Ready])
    else s1.(enabled := false, pumping := false, pumps := Without(s.pumps, i))
  }

  predicate Possible(s: State, e: Event)
  {
    match e
    case Offer(_) => true
    case Deliver => s.posted != []
    case Advance(i) => i < |s.pumps| && s.pumps[i].Ready?
    case Finish(i, _) => i < |s.pumps| && s.pumps[i].Writing?
    case Disable => true
  }

  function Step(s: State, e: Event): State
    requires Possible(s, e)
  {
    match e
    case Offer(gate) => OfferStep(s, gate)
    case Deliver => DeliverStep(s)
    case Advance(i) => AdvanceStep(s, i)
    case Finish(i, ok) => FinishStep(s, i, ok)
    case Disable => s.(enabled := false)
  }

  predicate IsRun(s: State, events: seq<Event>)
    decreases |events|
  {
    events == [] || (Possible(s, events[0]) && IsRun(Step(s, events[0]), events[1..]))
  }

  function Run(s: State, events: seq<Event>): State
    requires IsRun(s, events)
    decreases |events|
  {
    if events == [] then s else Run(Step(s, events[0]), events[1..])
  }

  // ----- safety ---------------------------------------------------------------------------------

  function Active(pumps: seq<Pump>): seq<Item>
  {
    if |pumps| == 1 && pumps[0].Writing? then [pumps[0].item] else []
  }

  /** Every item is in exactly one place. */
  function Places(s: State): multiset<Item>
  {
    multiset(s.done) + multiset(Active(s.pumps)) + multiset(s.queue) + multiset(s.posted)
  }

  ghost predicate OnePlace(s: State)
  {
    forall id: nat, gate: bool ::
      Places(s)[Item(id, gate)] + Places(s)[Item(id, !gate)] == (if id < s.next then 1 else 0)
  }

  ghost predicate Safe(s: State)
  {
    && OnePump(s)
    && s.history == s.started + s.discarded + s.queue
    && (s.discarded != [] ==> !s.enabled)
    && (s.enabled && s.queue != [] ==> s.pumping)
    && s.sent <= s.started
    && (s.enabled ==> s.started == s.sent + Active(s.pumps))
    && (Active(s.pumps) != [] ==> s.started == s.sent + Active(s.pumps))
    && OnePlace(s)
  }

  lemma HeadPlace(items: seq<Item>)
    requires items != []
    ensures multiset(items) == multiset{items[0]} + multiset(items[1..])
  {
    assert items == [items[0]] + items[1..];
  }

  lemma OfferPlaces(s: State, gate: bool)
    ensures Places(OfferStep(s, gate)) == Places(s) + if s.enabled then multiset{Item(s.next, gate)} else multiset{}
  {
    hide Active;
  }

  predicate OnePump(s: State) { |s.pumps| <= 1 && (s.pumping <==> |s.pumps| == 1) }

  /** Delivered work joins the queue; a new pump holds nothing yet. */
  lemma DeliverShape(s: State)
    requires OnePump(s) && s.posted != [] && s.enabled
    ensures var t := DeliverStep(s);
            && Active(t.pumps) == Active(s.pumps) && t.queue == s.queue + [s.posted[0]]
            && t.posted == s.posted[1..] && t.done == s.done && t.enabled && t.next == s.next
  {
  }

  lemma DeliverPlaces(s: State)
    requires OnePump(s) && s.posted != []
    ensures Places(DeliverStep(s)) == Places(s)
  {
    HeadPlace(s.posted);
    if s.enabled {
      DeliverShape(s);
      hide DeliverStep, Active;
    }
  }

  lemma AdvancePlaces(s: State, i: nat)
    requires |s.pumps| <= 1 && i < |s.pumps| && s.pumps[i].Ready?
    ensures Places(AdvanceStep(s, i)) == Places(s)
  {
    if s.queue != [] {
      HeadPlace(s.queue);
    }
    assert Active(s.pumps) == [];
    assert Without(s.pumps, i) == [];
  }

  lemma FinishPlaces(s: State, i: nat, ok: bool)
    requires |s.pumps| <= 1 && i < |s.pumps| && s.pumps[i].Writing?
    ensures Places(FinishStep(s, i, ok)) == Places(s)
  {
    assert Active(s.pumps) == [s.pumps[i].item];
    assert Without(s.pumps, i) == [];
  }

  lemma StepPlaces(s: State, e: Event)
    requires OnePump(s) && Possible(s, e)
    ensures Places(Step(s, e))
         == Places(s) + if e.Offer? && s.enabled then multiset{Item(s.next, e.gate)} else multiset{}
    ensures Step(s, e).next == if e.Offer? && s.enabled then s.next + 1 else s.next
  {
    match e
    case Offer(gate) => OfferPlaces(s, gate);
    case Deliver => DeliverPlaces(s);
    case Advance(i) => AdvancePlaces(s, i);
    case Finish(i, ok) => FinishPlaces(s, i, ok);
    case Disable =>
  }

  lemma StepOnePlace(s: State, e: Event)
    requires OnePump(s) && Possible(s, e) && OnePlace(s)
    ensures OnePlace(Step(s, e))
  {
    StepPlaces(s, e);
    hide Places, Step, Possible;
    var t := Step(s, e);
    forall id: nat, gate: bool
      ensures Places(t)[Item(id, gate)] + Places(t)[Item(id, !gate)] == (if id < t.next then 1 else 0)
    {
      assert Places(s)[Item(id, gate)] + Places(s)[Item(id, !gate)] == (if id < s.next then 1 else 0);
    }
  }

  lemma StepSafe(s: State, e: Event)
    requires Safe(s) && Possible(s, e)
    ensures Safe(Step(s, e))
  {
    StepOnePlace(s, e);
    hide OnePlace;
    match e
    case Deliver => assert s.history + [s.posted[0]] == s.started + s.discarded + (s.queue + [s.posted[0]]);
    case Advance(i) =>
      if s.queue != [] {
        assert s.queue == [s.queue[0]] + s.queue[1..];
        assert s.started + [s.queue[0]] + [] + s.queue[1..] == s.started + [] + s.queue;
        assert s.started + (s.discarded + [s.queue[0]]) + s.queue[1..] == s.started + s.discarded + s.queue;
      }
    case _ =>
  }

  /** In every interleaving, from the empty chain on. */
  lemma {:induction false} RunSafe(s: State, events: seq<Event>)
    requires Safe(s) && IsRun(s, events)
    ensures Safe(Run(s, events))
    decreases |events|
  {
    hide Safe;
    if events != [] {
      StepSafe(s, events[0]);
      RunSafe(Step(s, events[0]), events[1..]);
    }
  }

  lemma InitSafe()
    ensures Safe(Init)
  {
  }

  /** What every reachable state promises. */
  lemma ChainIsSafe(events: seq<Event>)
    requires IsRun(Init, events)
    ensures var s := Run(Init, events);
            && |s.pumps| <= 1
            && s.sent <= s.started <= s.history
            && (s.enabled && s.queue != [] ==> |s.pumps| == 1)
            && forall k, j :: 0 <= k < j < |s.done| ==> s.done[k].id != s.done[j].id
  {
    hide IsRun, Run;
    InitSafe();
    RunSafe(Init, events);
    var s := Run(Init, events);
    assert s.history == s.started + (s.discarded + s.queue);
    forall k, j | 0 <= k < j < |s.done| ensures s.done[k].id != s.done[j].id {
      TwoPlaces(s, k, j);
    }
  }

  lemma TwoPlaces(s: State, k: nat, j: nat)
    requires OnePlace(s) && k < j < |s.done|
    ensures s.done[k].id != s.done[j].id
  {
    var a := s.done[k];
    var b := s.done[j];
    assert s.done == s.done[..j] + [b] + s.done[j + 1..];
    assert multiset(s.done) == multiset(s.done[..j]) + multiset{b} + multiset(s.done[j + 1..]);
    assert a in s.done[..j];
    assert Places(s)[Item(a.id, a.gate)] + Places(s)[Item(a.id, !a.gate)] <= 1;
  }

  /** Once writing is disabled it stays disabled and no write starts. */
  lemma {:induction false} DisabledStartsNothing(s: State, events: seq<Event>)
    requires !s.enabled && IsRun(s, events)
    ensures Run(s, events).started == s.started && !Run(s, events).enabled && Run(s, events).history == s.history
    decreases |events|
  {
    if events != [] {
      DisabledStartsNothing(Step(s, events[0]), events[1..]);
    }
  }

  // ----- an undisturbed chain -------------------------------------------------------------------

  predicate Undisturbed(e: Event) { !e.Disable? && (e.Finish? ==> e.ok) }

  /** All items in the order they were offered. */
  function InOrder(s: State): seq<Item> { s.done + Active(s.pumps) + s.queue + s.posted }

  ghost predicate Orderly(s: State)
  {
    && s.enabled && |InOrder(s)| == s.next && forall k :: 0 <= k < s.next ==> InOrder(s)[k].id == k
  }

  /** A step keeps the order; an offer adds at the end. */
  lemma StepInOrder(s: State, e: Event)
    requires OnePump(s) && s.enabled && Possible(s, e) && Undisturbed(e)
    ensures InOrder(Step(s, e)) == InOrder(s) + if e.Offer? then [Item(s.next, e.gate)] else []
    ensures Step(s, e).enabled && Step(s, e).next == if e.Offer? then s.next + 1 else s.next
  {
    match e
    case Offer(gate) => OfferOrder(s, gate);
    case Deliver => DeliverOrder(s);
    case Advance(i) => AdvanceOrder(s, i);
    case Finish(i, ok) => FinishOrder(s, i);
  }

  lemma OfferOrder(s: State, gate: bool)
    requires s.enabled
    ensures InOrder(OfferStep(s, gate)) == InOrder(s) + [Item(s.next, gate)]
  {
    hide Active;
  }

  lemma DeliverOrder(s: State)
    requires OnePump(s) && s.enabled && s.posted != []
    ensures InOrder(DeliverStep(s)) == InOrder(s)
  {
    assert s.posted == [s.posted[0]] + s.posted[1..];
    DeliverShape(s);
    hide Active, DeliverStep;
  }

  lemma AdvanceOrder(s: State, i: nat)
    requires |s.pumps| <= 1 && s.enabled && i < |s.pumps| && s.pumps[i].Ready?
    ensures InOrder(AdvanceStep(s, i)) == InOrder(s)
  {
    AdvanceShape(s, i);
    if s.queue != [] {
      assert s.queue == [s.queue[0]] + s.queue[1..];
    }
    hide Active, AdvanceStep;
  }

  lemma AdvanceShape(s: State, i: nat)
    requires |s.pumps| <= 1 && s.enabled && i < |s.pumps| && s.pumps[i].Ready?
    ensures var t := AdvanceStep(s, i);
            && Active(s.pumps) == [] && t.done == s.done && t.posted == s.posted
            && (s.queue == [] ==> Active(t.pumps) == [] && t.queue == [])
            && (s.queue != [] ==> Active(t.pumps) == [s.queue[0]] && t.queue == s.queue[1..])
  {
  }

  lemma FinishOrder(s: State, i: nat)
    requires |s.pumps| <= 1 && s.enabled && i < |s.pumps| && s.pumps[i].Writing?
    ensures InOrder(FinishStep(s, i, true)) == InOrder(s)
  {
    assert Active(s.pumps) == [s.pumps[i].item];
    assert Active(FinishStep(s, i, true).pumps) == [];
    hide Active;
  }

  lemma StepOrderly(s: State, e: Event)
    requires Safe(s) && Orderly(s) && Possible(s, e) && Undisturbed(e)
    ensures Orderly(Step(s, e))
  {
    hide OnePlace, InOrder, Step, Possible;
    StepInOrder(s, e);
  }

  predicate IsUndisturbed(events: seq<Event>) { forall k :: 0 <= k < |events| ==> Undisturbed(events[k]) }

  lemma {:induction false} RunOrderly(s: State, events: seq<Event>)
    requires Safe(s) && Orderly(s) && IsRun(s, events) && IsUndisturbed(events)
    ensures Orderly(Run(s, events)) && Safe(Run(s, events))
    decreases |events|
  {
    hide Safe, Orderly;
    if events != [] {
      StepSafe(s, events[0]);
      StepOrderly(s, events[0]);
      RunOrderly(Step(s, events[0]), events[1..]);
    }
  }

  predicate Internal(e: Event) { e.Deliver? || e.Advance? || e.Finish? }

  /** Nothing more can happen by itself. */
  predicate Idle(s: State) { s.posted == [] && s.pumps == [] }

  function Work(p: Pump): nat { if p.Ready? then 1 else 2 }

  function PumpWork(pumps: seq<Pump>): nat { if |pumps| == 1 then Work(pumps[0]) else 0 }

  function Effort(s: State): nat { 4 * |s.posted| + 2 * |s.queue| + PumpWork(s.pumps) }

  lemma StepEffort(s: State, e: Event)
    requires Safe(s) && Possible(s, e) && Internal(e)
    ensures Effort(Step(s, e)) < Effort(s)
  {
    hide OnePlace;
  }

  /** Without new offers the chain comes to rest: a run is never longer than the work there was. */
  lemma {:induction false} RunsEnd(s: State, events: seq<Event>)
    requires Safe(s) && IsRun(s, events) && forall k :: 0 <= k < |events| ==> Internal(events[k])
    ensures |events| + Effort(Run(s, events)) <= Effort(s)
    decreases |events|
  {
    hide Safe;
    if events != [] {
      StepSafe(s, events[0]);
      StepEffort(s, events[0]);
      RunsEnd(Step(s, events[0]), events[1..]);
    }
  }

  /** A chain that is not idle can go on. */
  lemma NotStuck(s: State)
    requires !Idle(s)
    ensures Possible(s, Deliver) || Possible(s, Advance(0)) || Possible(s, Finish(0, true))
  {
  }

  /** An undisturbed chain that has come to rest has written and completed everything offered, in order. */
  lemma RestIsComplete(events: seq<Event>)
    requires IsRun(Init, events) && IsUndisturbed(events) && Idle(Run(Init, events))
    ensures var s := Run(Init, events);
            && s.queue == [] && |s.done| == s.next && (forall k :: 0 <= k < s.next ==> s.done[k].id == k)
            && s.sent == s.history
  {
    hide IsRun, Run, IsUndisturbed;
    InitSafe();
    assert Orderly(Init);
    RunOrderly(Init, events);
    var s := Run(Init, events);
    assert InOrder(s) == s.done;
    assert s.history == s.started;
  }

  // ----- a disabled chain -----------------------------------------------------------------------

  /** Every item ever offered is through, so that no writer waits. */
  ghost predicate AllDone(s: State) { forall id: nat :: id < s.next ==> Item(id, true) in s.done || Item(id, false) in s.done }

  /** An item is not both in the queue and done. */
  lemma QueuedIsNotDone(s: State, item: Item)
    requires OnePlace(s) && item in s.queue
    ensures item.id < s.next && Item(item.id, true) !in s.done && Item(item.id, false) !in s.done
  {
    assert Item(item.id, item.gate) == item && item in multiset(s.queue);
    assert Places(s)[Item(item.id, item.gate)] + Places(s)[Item(item.id, !item.gate)] <= 1;
    assert Item(item.id, true) in s.done ==> Item(item.id, true) in multiset(s.done);
    assert Item(item.id, false) in s.done ==> Item(item.id, false) in multiset(s.done);
  }

  /** At rest, everything offered is through exactly when the queue is empty. */
  lemma AllDoneAtRest(s: State)
    requires Safe(s) && Idle(s)
    ensures AllDone(s) <==> s.queue == []
  {
    if s.queue == [] {
      forall id: nat | id < s.next ensures Item(id, true) in s.done || Item(id, false) in s.done {
        assert Places(s) == multiset(s.done);
        assert Places(s)[Item(id, true)] + Places(s)[Item(id, !true)] == 1;
      }
    } else {
      QueuedIsNotDone(s, s.queue[0]);
    }
  }

  /** With writing disabled and no pump the queue never changes again. */
  lemma {:induction false} StaysStranded(s: State, events: seq<Event>)
    requires !s.enabled && s.pumps == [] && IsRun(s, events)
    ensures Run(s, events).queue == s.queue && !WriteSucceeds(events)
    decreases |events|
  {
    if events != [] {
      StaysStranded(Step(s, events[0]), events[1..]);
      SucceedsLater(events);
    }
  }

  /** So a writer whose frame is in it waits for ever. */
  lemma StrandedForever(s: State, item: Item, events: seq<Event>)
    requires Safe(s) && !s.enabled && s.pumps == [] && item in s.queue && IsRun(s, events)
    ensures item !in Run(s, events).done
  {
    hide IsRun, Run, OnePlace;
    StaysStranded(s, events);
    RunSafe(s, events);
    QueuedIsNotDone(Run(s, events), item);
  }

  /** Such states are reached: a write fails while a second writer's frame is queued. */
  lemma WriterStranded(events: seq<Event>)
    requires events == [Offer(true), Offer(true), Deliver, Deliver, Advance(0), Finish(0, false)]
    ensures IsRun(Init, events)
    ensures var s := Run(Init, events); Idle(s) && !s.enabled && s.queue == [Item(1, true)]
  {
    var a, b := Item(0, true), Item(1, true);
    var s1 := Step(Init, events[0]);
    var s2 := Step(s1, events[1]);
    var s3 := Step(s2, events[2]);
    var s4 := Step(s3, events[3]);
    assert s4.queue == [a, b] && s4.pumps == [Ready] && s4.enabled;
    var s5 := Step(s4, events[4]);
    var s6 := Step(s5, events[5]);
    assert s6.queue == [b] && s6.pumps == [] && s6.posted == [] && !s6.enabled;
    hide Step;
    assert events[5..][1..] == [] && events[4..][1..] == events[5..] && events[3..][1..] == events[4..];
    assert events[2..][1..] == events[3..] && events[1..][1..] == events[2..];
    assert IsRun(s5, events[5..]) && Run(s5, events[5..]) == s6;
    assert IsRun(s4, events[4..]) && Run(s4, events[4..]) == s6;
    assert IsRun(s3, events[3..]) && Run(s3, events[3..]) == s6;
    assert IsRun(s2, events[2..]) && Run(s2, events[2..]) == s6;
    assert IsRun(s1, events[1..]) && Run(s1, events[1..]) == s6;
  }

  predicate WriteSucceeds(events: seq<Event>) { exists k :: 0 <= k < |events| && events[k].Finish? && events[k].ok }

  lemma SucceedsLater(events: seq<Event>)
    requires events != []
    ensures WriteSucceeds(events) <==> (events[0].Finish? && events[0].ok) || WriteSucceeds(events[1..])
  {
    var tail := events[1..];
    if WriteSucceeds(tail) {
      var k :| 0 <= k < |tail| && tail[k].Finish? && tail[k].ok;
      assert events[k + 1] == tail[k];
    }
    if WriteSucceeds(events) && !(events[0].Finish? && events[0].ok) {
      var k :| 0 <= k < |events| && events[k].Finish? && events[k].ok;
      assert tail[k - 1] == events[k];
    }
  }

  function Tail(queue: seq<Item>): seq<Item> { if queue == [] then [] else queue[1..] }

  /** What a disabled chain leaves in its queue when it comes to rest: a pump that is not waiting for a write, or whose
      write succeeds, takes one more item; then it ends. */
  lemma {:induction false} DisabledLeaves(s: State, events: seq<Event>)
    requires Safe(s) && !s.enabled && IsRun(s, events) && Idle(Run(s, events))
    ensures Run(s, events).queue
         == if s.pumps != [] && (s.pumps[0].Ready? || WriteSucceeds(events)) then Tail(s.queue) else s.queue
    decreases |events|
  {
    if s.pumps == [] {
      StaysStranded(s, events);
    } else if events != [] {
      SucceedsLater(events);
      StepSafe(s, events[0]);
      DisabledStep(s, events[0]);
      hide Safe, Step, Possible, WriteSucceeds;
      var t := Step(s, events[0]);
      if t.pumps == [] {
        StaysStranded(t, events[1..]);
      } else {
        DisabledLeaves(t, events[1..]);
      }
    }
  }

  lemma DisabledStep(s: State, e: Event)
    requires Safe(s) && !s.enabled && Possible(s, e) && s.pumps != []
    ensures var t := Step(s, e);
            && !t.enabled
            && (e.Advance? ==> s.pumps[0].Ready? && t.pumps == [] && t.queue == Tail(s.queue))
            && (e.Finish? ==> s.pumps[0].Writing? && t.pumps == (if e.ok then [Ready] else []) && t.queue == s.queue)
            && (!e.Advance? && !e.Finish? ==> t.pumps == s.pumps && t.queue == s.queue)
  {
    hide OnePlace;
  }

  lemma {:induction false} RunConcat(s: State, a: seq<Event>, b: seq<Event>)
    requires IsRun(s, a + b)
    ensures IsRun(s, a) && IsRun(Run(s, a), b) && Run(s, a + b) == Run(Run(s, a), b)
    decreases |a|
  {
    hide Step, Possible;
    if a == [] {
      assert a + b == b;
    } else {
      assert (a + b)[1..] == a[1..] + b && (a + b)[0] == a[0];
      RunConcat(Step(s, a[0]), a[1..], b);
    }
  }

  /** Event e disables the chain that `before` leads to. */
  predicate Disables(before: seq<Event>, e: Event)
  {
    IsRun(Init, before) && Run(Init, before).enabled && Possible(Run(Init, before), e) && !Step(Run(Init, before), e).enabled
  }

  /** Of a chain that was disabled and has come to rest, everything offered is through exactly when the queue was empty
      when it was disabled, or held one item and was disabled from outside while no write was under way, or while one was
      that then succeeded. */
  lemma RestIsCompleteExactly(before: seq<Event>, e: Event, after: seq<Event>)
    requires Disables(before, e) && IsRun(Step(Run(Init, before), e), after)
    requires Idle(Run(Step(Run(Init, before), e), after))
    ensures var s := Run(Init, before);
            AllDone(Run(Step(s, e), after))
            <==> s.queue == [] || (|s.queue| == 1 && e.Disable? && (Active(s.pumps) == [] || WriteSucceeds(after)))
  {
    var s := Run(Init, before);
    InitSafe();
    RunSafe(Init, before);
    StepSafe(s, e);
    var t := Step(s, e);
    DisablingStep(s, e);
    RunSafe(t, after);
    DisabledLeaves(t, after);
    AllDoneAtRest(Run(t, after));
    hide Safe, Run, IsRun, Step, AllDone, WriteSucceeds;
  }

  lemma DisablingStep(s: State, e: Event)
    requires Safe(s) && s.enabled && Possible(s, e) && !Step(s, e).enabled
    ensures var t := Step(s, e);
            && t.queue == s.queue && (e.Disable? || (e.Finish? && t.pumps == []))
            && (e.Disable? ==> t.pumps == s.pumps && |s.pumps| <= 1 && (s.queue != [] ==> s.pumps != []))
            && (e.Disable? && s.pumps != [] ==> (s.pumps[0].Ready? <==> Active(s.pumps) == []))
  {
    hide OnePlace;
  }

  // ----- the object -----------------------------------------------------------------------------

  class WriteChain {
    var queue: seq<Item>
    var pumping: bool
    var writesEnabled: bool
    /** The executor's side, and what happened so far. */
    var posted: seq<Item>
    var pumps: seq<Pump>
    var next: nat
    var done: seq<Item>
    var history: seq<Item>
    var started: seq<Item>
    var sent: seq<Item>
    var discarded: seq<Item>

    constructor ()
      ensures AsState() == Init && Safe(AsState())
    {
      queue, pumping, writesEnabled, posted, pumps, next := [], false, true, [], [], 0;
      done, history, started, sent, discarded := [], [], [], [], [];
      new;
      InitSafe();
    }

    ghost function AsState(): State
      reads this
    {
      State(queue, pumping, writesEnabled, posted, pumps, next, history, started, sent, discarded, done)
    }

    method StartPump()
      modifies this
      ensures AsState() == StartPumpIfNeeded(old(AsState()))
    {
      if pumping || queue == [] {
        return;
      }
      pumping := true;
      pumps := pumps + [Ready];
    }

    method EnqueueOnExecutor(item: Item)
      modifies this
      ensures AsState() == Enqueue(old(AsState()), item)
    {
      queue := queue + [item];
      history := history + [item];
      StartPump();
    }

    /** schedule (no gate) and the first half of write (with one). */
    method Schedule(gate: bool)
      requires Safe(AsState())
      modifies this
      ensures AsState() == Step(old(AsState()), Offer(gate)) && Safe(AsState())
    {
      StepSafe(AsState(), Offer(gate));
      hide Safe;
      if !writesEnabled {
        return;
      }
      posted := posted + [Item(next, gate)];
      next := next + 1;
    }

    method RunPosted()
      requires Safe(AsState()) && posted != []
      modifies this
      ensures AsState() == Step(old(AsState()), Deliver) && Safe(AsState())
    {
      StepSafe(AsState(), Deliver);
      hide Safe;
      var item := posted[0];
      posted := posted[1..];
      if !writesEnabled {
        done := done + [item];
        return;
      }
      EnqueueOnExecutor(item);
    }

    /** The pump runs from the top of its loop until it waits for a write or returns. */
    method PumpFromTop(i: nat)
      requires Safe(AsState()) && i < |pumps| && pumps[i].Ready?
      modifies this
      ensures AsState() == Step(old(AsState()), Advance(i)) && Safe(AsState())
    {
      StepSafe(AsState(), Advance(i));
      hide Safe;
      if queue == [] {
        pumping := false;
        pumps := Without(pumps, i);
        return;
      }
      var item := queue[0];
      queue := queue[1..];
      if !writesEnabled {
        done := done + [item];
        discarded := discarded + [item];
        pumping := false;
        pumps := Without(pumps, i);
        return;
      }
      started := started + [item];
      pumps := pumps[i := Writing(item)];
    }

    /** The write the pump waits for ends. */
    method WriteEnds(i: nat, ok: bool)
      requires Safe(AsState()) && i < |pumps| && pumps[i].Writing?
      modifies this
      ensures AsState() == Step(old(AsState()), Finish(i, ok)) && Safe(AsState())
    {
      StepSafe(AsState(), Finish(i, ok));
      hide Safe;
      var item := pumps[i].item;
      if !ok {
        writesEnabled := false;
        done := done + [item];
        pumping := false;
        pumps := Without(pumps, i);
        return;
      }
      done := done + [item];
      sent := sent + [item];
      pumps := pumps[i := Ready];
    }

    method DisableWrites()
      requires Safe(AsState())
      modifies this
      ensures AsState() == Step(old(AsState()), Disable) && Safe(AsState())
    {
      StepSafe(AsState(), Disable);
      writesEnabled := false;
    }
  }
}
