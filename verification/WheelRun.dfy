/**
 Running the wheel.  `Run` is the loop of `run_until` without its fast-forward; the
 theorems say that it is a run of the simple queue, that the fast-forward changes
 nothing, and that stopping on the way changes nothing.
 */
module WheelRuns {
  import opened TimerTypes
  import opened WheelArithmetic
  import opened Wheels
  import TimerQueues

  // ------------------------------------------------------------ callbacks

  /**
   A right action: on a known timer, and never an add that is accepted for the low 32 bits
   of an interval that is itself out of range.
   */
  predicate ActionFits(w: Wheel, a: Action) {
    && a.timer in w.expiry
    && (a.AddTimer? && AddCode(w, a.timer) == 0 ==> InRange(w, a.timer))
  }

  lemma ApplyReady(w: Wheel, a: Action)
    requires Inv(w) && ActionFits(w, a)
    ensures Inv(Apply(w, a))
    ensures Apply(w, a).lowPos == w.lowPos
    ensures |Apply(w, a).slots[w.lowPos]| <= |w.slots[w.lowPos]|
  {
    hide Consistent, AllPlaced, Mod, Div, Add, Del, AddCode, InRange;
    match a {
      case SetExpiry(t, e) => SetExpiredKeepsInv(w, t, e);
      case AddTimer(t) => AddKeepsInv(w, t);
      case DelTimer(t) => DelKeepsInv(w, t);
    }
    ApplyFrame(w, a);
  }

  /** On a known timer, an action keeps the invariant exactly when it is right. */
  lemma ApplyReadyExactly(w: Wheel, a: Action)
    requires Inv(w) && a.timer in w.expiry
    ensures Inv(Apply(w, a)) <==> ActionFits(w, a)
  {
    if ActionFits(w, a) {
      ApplyReady(w, a);
    } else {
      FarTimerMisplaced(w, a.timer);
    }
    hide Inv;
  }

  lemma ApplyExpiry(w: Wheel, a: Action)
    requires Shape(w) && a.timer in w.expiry
    ensures Apply(w, a).expiry ==
            if a.SetExpiry? && a.timer !in w.loc then w.expiry[a.timer := a.at] else w.expiry
  {
  }

  /** Each action is right in the state that the ones before it lead to. */
  ghost predicate ActionsFit(w: Wheel, actions: seq<Action>)
    requires Inv(w)
    decreases |actions|
  {
    actions == [] ||
    (ActionFits(w, actions[0]) &&
     (ApplyReady(w, actions[0]);
      ActionsFit(Apply(w, actions[0]), actions[1..])))
  }

  function ApplyAll(w: Wheel, actions: seq<Action>): (r: Wheel)
    requires Inv(w) && ActionsFit(w, actions)
    ensures Inv(r)
    ensures r.lowPos == w.lowPos && |r.slots[w.lowPos]| <= |w.slots[w.lowPos]|
    ensures r.start == w.start && r.size == w.size && r.curr == w.curr
    ensures r.expiry.Keys == w.expiry.Keys
    ensures NextInv(w) ==> NextInv(r)
    decreases |actions|
  {
    if actions == [] then w
    else
      hide InvAt, Apply;
      ApplyReady(w, actions[0]);
      ApplyFrame(w, actions[0]);
      ApplyAll(Apply(w, actions[0]), actions[1..])
  }

  // ------------------------------------------------------------ the run

  /** A wheel, and everything that has been fired so far. */
  datatype Outcome = Outcome(wheel: Wheel, trace: seq<Firing>)

  /** The inner loop's first step: unlink the first timer of the current low slot. */
  function Pop(w: Wheel): Wheel
    requires Shape(w) && 0 <= w.lowPos < w.size && w.slots[w.lowPos] != []
  {
    assert w.slots[w.lowPos][0] in w.slots[w.lowPos];
    Unlink(w, w.slots[w.lowPos][0])
  }

  /** The first timer of the current low slot expires now, and taking it out keeps the invariant. */
  lemma PopReady(w: Wheel)
    requires Inv(w) && w.slots[w.lowPos] != []
    ensures var t := w.slots[w.lowPos][0];
            && t in w.loc && w.expiry[t] == w.curr
            && Pop(w) == w.(slots := Pop(w).slots, loc := w.loc - {t})
    ensures Inv(Pop(w))
    ensures |Pop(w).slots[w.lowPos]| == |w.slots[w.lowPos]| - 1
    ensures NextInv(w) ==> NextInv(Pop(w))
  {
    hide NoDuplicates, Mod, Div, Placed, Without;
    var t := w.slots[w.lowPos][0];
    assert t in w.slots[w.lowPos];
    CurrentSlotExpiresNow(w.start, w.size, w.curr, w.expiry[t], w.loc[t], w.Turn());
    UnlinkKeepsInv(w, t, w.Turn());
  }

  /** How many ticks the loop has left, and how many timers the current slot. */
  function TicksLeft(w: Wheel, now: int): nat {
    if w.curr < now then now - w.curr else 0
  }

  function Load(w: Wheel): nat {
    if 0 <= w.lowPos < |w.slots| then |w.slots[w.lowPos]| else 0
  }

  /** The callback of the head of the current slot performs right actions. */
  ghost predicate FireFits(w: Wheel, actions: seq<Action>)
    requires Inv(w) && w.slots[w.lowPos] != []
  {
    PopReady(w);
    ActionsFit(Pop(w), actions)
  }

  /** One round of the inner loop: take the first timer out of the current slot and call it back. */
  function Fire(w: Wheel, actions: seq<Action>): (r: Wheel)
    requires Inv(w) && w.slots[w.lowPos] != [] && FireFits(w, actions)
    ensures Inv(r)
    ensures Load(r) < Load(w)
    ensures r.start == w.start && r.size == w.size && r.curr == w.curr
    ensures r.expiry.Keys == w.expiry.Keys
    ensures NextInv(w) ==> NextInv(r)
  {
    hide InvAt, Pop, ActionsFit;
    PopReady(w);
    ApplyAll(Pop(w), actions)
  }

  /** One round of the outer loop's end, on a wheel that has drained its current slot. */
  function Tick(w: Wheel): (r: Wheel)
    requires Inv(w) && w.slots[w.lowPos] == []
    ensures Inv(r)
    ensures r.start == w.start && r.size == w.size && r.curr == w.curr + 1 && r.next == w.next
    ensures r.expiry == w.expiry && r.loc.Keys == w.loc.Keys
    ensures NextInv(w) ==> NextInv(r)
  {
    hide InvAt;
    AdvanceKeepsInv(w);
    AdvanceFrame(w);
    Advance(w)
  }

  /** Along the run until `now`, from the `k`-th firing on, every callback performs right actions. */
  ghost predicate RunFits(w: Wheel, now: int, plan: Plan, k: nat)
    requires Inv(w)
    decreases TicksLeft(w, now), Load(w)
  {
    if w.curr >= now then true
    else if w.slots[w.lowPos] == [] then
      hide InvAt, Tick;
      RunFits(Tick(w), now, plan, k)
    else
      hide InvAt, Fire, FireFits;
      FireFits(w, plan(k)) && RunFits(Fire(w, plan(k)), now, plan, k + 1)
  }

  /** The firing the head of the current low slot is about to make. */
  function HeadFiring(w: Wheel): Firing
    requires 0 <= w.lowPos < |w.slots| && w.slots[w.lowPos] != []
  {
    Firing(w.slots[w.lowPos][0], w.curr)
  }

  /** The loop of `run_until`, after the firings `done`. */
  function Run(w: Wheel, now: int, plan: Plan, done: seq<Firing>): (r: Outcome)
    requires Inv(w) && RunFits(w, now, plan, |done|)
    ensures Inv(r.wheel) && r.wheel.curr == TimerQueues.Max(w.curr, now)
    ensures r.wheel.start == w.start && r.wheel.size == w.size
    ensures r.wheel.expiry.Keys == w.expiry.Keys
    ensures NextInv(w) ==> NextInv(r.wheel)
    decreases TicksLeft(w, now), Load(w)
  {
    if w.curr >= now then Outcome(w, done)
    else if w.slots[w.lowPos] == [] then
      hide InvAt, Tick;
      Run(Tick(w), now, plan, done)
    else
      hide InvAt, Fire, FireFits;
      Run(Fire(w, plan(|done|)), now, plan, done + [HeadFiring(w)])
  }

  lemma Cursor(w: Wheel)
    requires Inv(w)
    ensures 0 <= w.lowPos < w.size < |w.slots| && 0 <= w.highPos < w.size
  {
  }

  lemma RunTick(w: Wheel, now: int, plan: Plan, done: seq<Firing>)
    requires Inv(w) && w.curr < now && w.slots[w.lowPos] == []
    ensures TicksLeft(Tick(w), now) < TicksLeft(w, now)
    ensures RunFits(w, now, plan, |done|) <==> RunFits(Tick(w), now, plan, |done|)
    ensures RunFits(w, now, plan, |done|) ==> Run(w, now, plan, done) == Run(Tick(w), now, plan, done)
  {
    hide Tick, Mod, Div, Consistent, AllPlaced;
  }

  lemma TickIsAdvance(w: Wheel)
    requires Inv(w) && w.slots[w.lowPos] == []
    ensures Shape(w) && 0 <= w.highPos < w.size && Tick(w) == Advance(w)
  {
    hide Mod, Div, Consistent, AllPlaced, Advance;
  }

  lemma RunFire(w: Wheel, now: int, plan: Plan, done: seq<Firing>)
    requires Inv(w) && w.curr < now && w.slots[w.lowPos] != []
    ensures RunFits(w, now, plan, |done|) <==>
              FireFits(w, plan(|done|)) && RunFits(Fire(w, plan(|done|)), now, plan, |done + [HeadFiring(w)]|)
    ensures FireFits(w, plan(|done|)) ==>
              TicksLeft(Fire(w, plan(|done|)), now) == TicksLeft(w, now) && Load(Fire(w, plan(|done|))) < Load(w)
    ensures RunFits(w, now, plan, |done|) ==>
              Run(w, now, plan, done) == Run(Fire(w, plan(|done|)), now, plan, done + [HeadFiring(w)])
  {
    hide Fire, FireFits, Mod, Div, Consistent, AllPlaced;
  }

  // ------------------------------------------------------------ refinement

  /** The queue a wheel stands for. */
  function Abstract(w: Wheel): TimerQueues.Queue {
    TimerQueues.Queue(w.curr, w.loc.Keys, w.expiry, w.size * w.size)
  }

  /** No pending timer is overdue, and one that expires now is in the current low slot. */
  lemma Overdue(w: Wheel, t: TimerId)
    requires Inv(w) && t in w.loc
    ensures w.curr <= w.expiry[t]
    ensures w.expiry[t] == w.curr <==> w.loc[t] == w.lowPos
    ensures w.loc[t] >= w.size ==> w.expiry[t] >= w.curr - w.lowPos + w.size
  {
    hide Consistent, Mod, Div;
    if w.loc[t] < w.size {
      CurrentSlotExpiresNow(w.start, w.size, w.curr, w.expiry[t], w.loc[t], w.Turn());
    } else {
      HighSlotExpiresLater(w.start, w.size, w.curr, w.expiry[t], w.loc[t]);
    }
  }

  lemma AbstractLive(w: Wheel)
    requires Inv(w)
    ensures TimerQueues.Live(Abstract(w))
  {
    hide Consistent, Placed, Mod, Div;
    forall t | t in w.loc
      ensures w.curr <= w.expiry[t]
    {
      Overdue(w, t);
    }
  }

  /** Each right operation of the wheel is the operation of the queue. */
  lemma ApplyRefines(w: Wheel, a: Action)
    requires Inv(w) && ActionFits(w, a)
    ensures Abstract(Apply(w, a)) == TimerQueues.Apply(Abstract(w), a)
  {
    hide Consistent, AllPlaced, Mod, Div, SlotFor, Without;
    ApplyKeys(w, a);
    hide Apply;
    ApplyFrame(w, a);
    ApplyExpiry(w, a);
  }

  lemma ApplyKeys(w: Wheel, a: Action)
    requires Shape(w) && ActionFits(w, a)
    ensures Apply(w, a).loc.Keys ==
            match a
            case SetExpiry(_, _) => w.loc.Keys
            case AddTimer(t) => if t !in w.loc && InRange(w, t) then w.loc.Keys + {t} else w.loc.Keys
            case DelTimer(t) => w.loc.Keys - {t}
  {
    hide Consistent, SlotFor, Without, Interval;
    if a.AddTimer? && InRange(w, a.timer) {
      IntervalInRange(w, a.timer);
    }
  }

  lemma {:induction false} ApplyAllRefines(w: Wheel, actions: seq<Action>)
    requires Inv(w) && ActionsFit(w, actions)
    ensures Abstract(ApplyAll(w, actions)) == TimerQueues.ApplyAll(Abstract(w), actions)
    decreases |actions|
  {
    if actions != [] {
      hide InvAt, Apply, Abstract, TimerQueues.Apply, ActionFits;
      ApplyReady(w, actions[0]);
      ApplyRefines(w, actions[0]);
      ApplyAllRefines(Apply(w, actions[0]), actions[1..]);
    }
  }

  /** The timer at the head of the current low slot is an earliest pending timer of the queue. */
  lemma PopRefines(w: Wheel)
    requires Inv(w) && w.slots[w.lowPos] != []
    ensures TimerQueues.Earliest(Abstract(w), w.slots[w.lowPos][0])
    ensures w.slots[w.lowPos][0] in w.expiry && w.expiry[w.slots[w.lowPos][0]] == w.curr
    ensures Inv(Pop(w)) && Pop(w).expiry == w.expiry
    ensures Abstract(Pop(w)) == TimerQueues.Fired(Abstract(w), HeadFiring(w))
  {
    hide Inv, Pop;
    PopReady(w);
    AbstractLive(w);
  }

  lemma FireRefines(w: Wheel, actions: seq<Action>)
    requires Inv(w) && w.slots[w.lowPos] != [] && FireFits(w, actions)
    ensures var f := HeadFiring(w);
            && TimerQueues.Earliest(Abstract(w), f.timer) && f.at == Abstract(w).expiry[f.timer]
            && Abstract(w).curr == w.curr
            && Abstract(Fire(w, actions)) == TimerQueues.AfterFiring(Abstract(w), f, actions)
  {
    hide Pop, ApplyAll, ActionsFit, Consistent, AllPlaced, Mod, Div, TimerQueues.Earliest;
    PopRefines(w);
    var p := Pop(w);
    ApplyAllRefines(p, actions);
    assert Fire(w, actions) == ApplyAll(p, actions);
  }

  /** The wheel refines the queue: what the loop adds to `done` is a run of the queue. */
  lemma {:induction false} RunRefines(w: Wheel, now: int, plan: Plan, done: seq<Firing>)
    requires Inv(w) && RunFits(w, now, plan, |done|)
    ensures var r := Run(w, now, plan, done);
            && done <= r.trace
            && TimerQueues.ValidRun(Abstract(w), now, plan, |done|, r.trace[|done|..], Abstract(r.wheel))
    decreases TicksLeft(w, now), Load(w)
  {
    Cursor(w);
    if w.curr >= now {
      RunEnds(w, now, plan, done);
    }
    hide Inv, Tick, Fire, FireFits, Run, RunFits, Load, TicksLeft, Abstract, HeadFiring, TimerQueues.ValidRun;
    if w.curr >= now {
    } else if w.slots[w.lowPos] == [] {
      RunTick(w, now, plan, done);
      RunRefines(Tick(w), now, plan, done);
      TickRefines(w, now, plan, done, Run(w, now, plan, done));
    } else {
      RunFire(w, now, plan, done);
      RunRefines(Fire(w, plan(|done|)), now, plan, done + [HeadFiring(w)]);
      FireExtends(w, now, plan, done, Run(w, now, plan, done));
    }
  }

  lemma RunEnds(w: Wheel, now: int, plan: Plan, done: seq<Firing>)
    requires Inv(w) && w.curr >= now
    ensures RunFits(w, now, plan, |done|) && Run(w, now, plan, done) == Outcome(w, done)
    ensures TimerQueues.ValidRun(Abstract(w), now, plan, |done|, done[|done|..], Abstract(w))
  {
    AbstractLive(w);
    hide InvAt;
  }

  lemma TickRefines(w: Wheel, now: int, plan: Plan, done: seq<Firing>, r: Outcome)
    requires Inv(w) && w.curr < now && w.slots[w.lowPos] == [] && done <= r.trace
    requires TimerQueues.ValidRun(Abstract(Tick(w)), now, plan, |done|, r.trace[|done|..], Abstract(r.wheel))
    ensures TimerQueues.ValidRun(Abstract(w), now, plan, |done|, r.trace[|done|..], Abstract(r.wheel))
  {
    hide Inv, TimerQueues.ValidRun;
    assert Abstract(Tick(w)) == Abstract(w).(curr := w.curr + 1);
    TimerQueues.RunFromEarlier(Abstract(w), w.curr + 1, now, plan, |done|, r.trace[|done|..], Abstract(r.wheel));
  }

  lemma FireExtends(w: Wheel, now: int, plan: Plan, done: seq<Firing>, r: Outcome)
    requires Inv(w) && w.curr < now && w.slots[w.lowPos] != []
    requires FireFits(w, plan(|done|)) && done + [HeadFiring(w)] <= r.trace
    requires TimerQueues.ValidRun(Abstract(Fire(w, plan(|done|))), now, plan, |done + [HeadFiring(w)]|,
               r.trace[|done + [HeadFiring(w)]|..], Abstract(r.wheel))
    ensures done <= r.trace
    ensures TimerQueues.ValidRun(Abstract(w), now, plan, |done|, r.trace[|done|..], Abstract(r.wheel))
  {
    Cursor(w);
    FireRefines(w, plan(|done|));
    hide Inv, Fire, FireFits, Abstract, TimerQueues.AfterFiring, TimerQueues.Earliest;
    var done' := done + [HeadFiring(w)];
    assert r.trace[|done|] == r.trace[..|done'|][|done|] == HeadFiring(w);
    assert r.trace[|done|..][1..] == r.trace[|done'|..];
  }

  // ------------------------------------------------------------ the fast-forward

  /** Move both cursors `n` ticks on without visiting the slots in between. */
  function SkipBy(w: Wheel, n: int): Wheel
    requires w.size > 0
  {
    w.(curr := w.curr + n,
       highPos := Mod(w.highPos + Div(w.lowPos + n, w.size), w.size),
       lowPos := Mod(w.lowPos + n, w.size))
  }

  /** The fast-forward of `run_until`, computed in a C++ `int`. */
  function SkipLength(w: Wheel, now: int): int {
    Int32((if now > w.next then w.next else now) - w.curr - 1)
  }

  function Skip(w: Wheel, now: int): Wheel
    requires w.size > 0
  {
    if SkipLength(w, now) > 0 then SkipBy(w, SkipLength(w, now)) else w
  }

  /** Before the tick at `next`, the current low slot is empty and a tick wraps no cursor. */
  lemma TickBeforeNext(w: Wheel)
    requires Inv(w) && NextInv(w) && w.curr + 1 < w.next
    ensures w.slots[w.lowPos] == [] && w.lowPos + 1 < w.size
    ensures Advance(w) == w.(curr := w.curr + 1, lowPos := w.lowPos + 1)
  {
    hide Placed, AllPlaced, Mod, Div;
    WithinTurn(w.lowPos, 1, w.highPos, w.size);
    if w.slots[w.lowPos] != [] {
      var t := w.slots[w.lowPos][0];
      assert t in w.slots[w.lowPos];
      Overdue(w, t);
    }
  }

  /** The wheel at time `c` of the same turn, with nothing moved but the clock and the low cursor. */
  function At(w: Wheel, c: int): Wheel {
    w.(curr := c, lowPos := w.lowPos + c - w.curr)
  }

  lemma SkipByStaysInTurn(w: Wheel, n: nat)
    requires Inv(w) && NextInv(w) && w.curr + n < w.next
    ensures w.lowPos + n < w.size
    ensures SkipBy(w, n) == At(w, w.curr + n)
  {
    hide Placed, AllPlaced, Consistent, Mod, Div;
    WithinTurn(w.lowPos, n, w.highPos, w.size);
  }

  lemma TickTowards(w: Wheel, c: int)
    requires Inv(w) && NextInv(w) && w.curr < c < w.next
    ensures w.slots[w.lowPos] == []
    ensures At(Tick(w), c) == At(w, c)
    ensures Tick(w).curr == w.curr + 1 && Tick(w).expiry == w.expiry
  {
    TickBeforeNext(w);
  }

  /** Jumping to a time short of `next` does what ticking there does: no timer passed, no turn crossed. */
  lemma {:induction false} JumpIsTicks(w: Wheel, c: int, now: int, plan: Plan, done: seq<Firing>)
    requires Inv(w) && NextInv(w) && w.curr <= c < w.next && c < now
    ensures Inv(At(w, c)) && NextInv(At(w, c))
    ensures RunFits(At(w, c), now, plan, |done|) <==> RunFits(w, now, plan, |done|)
    ensures RunFits(w, now, plan, |done|) ==> Run(At(w, c), now, plan, done) == Run(w, now, plan, done)
    decreases c - w.curr
  {
    hide Inv, NextInv, Run, RunFits, Load, TicksLeft;
    if w.curr == c {
      assert At(w, c) == w;
    } else {
      TickTowards(w, c);
      RunTick(w, now, plan, done);
      hide Tick, At;
      JumpIsTicks(Tick(w), c, now, plan, done);
    }
  }

  // ------------------------------------------------------------ the cached next expiry

  /** The first non-empty low slot from `i` on, or `size`. */
  function FirstBusy(w: Wheel, i: int): (r: int)
    requires 0 <= i <= w.size <= |w.slots|
    ensures i <= r <= w.size
    ensures forall j :: i <= j < r ==> w.slots[j] == []
    ensures r < w.size ==> w.slots[r] != []
    decreases w.size - i
  {
    if i == w.size || w.slots[i] != [] then i else FirstBusy(w, i + 1)
  }

  function UpdateNext(w: Wheel): Wheel
    requires 0 <= w.lowPos <= w.size <= |w.slots|
  {
    if w.next < w.curr then w.(next := w.curr + FirstBusy(w, w.lowPos) - w.lowPos) else w
  }

  /** A wheel between calls of the manager: `next` is a lower bound, and not in the past. */
  ghost predicate AtRest(w: Wheel) {
    Inv(w) && NextInv(w) && w.curr <= w.next
  }

  /** `n` is the earliest expiry of the current turn, or the start of the next one. */
  ghost predicate EarliestOfTurn(w: Wheel, n: int)
    requires w.loc.Keys <= w.expiry.Keys
  {
    && w.curr <= n <= w.curr - w.lowPos + w.size
    && (forall t :: t in w.loc ==> n <= w.expiry[t])
    && (n < w.curr - w.lowPos + w.size ==> exists t :: t in w.loc && w.expiry[t] == n)
  }

  /** A recomputed `next` is the earliest expiry of the current turn, or the start of the next one. */
  lemma UpdateNextExact(w: Wheel)
    requires Inv(w) && w.next < w.curr
    ensures EarliestOfTurn(w, UpdateNext(w).next)
  {
    hide Placed, Mod, Div, NoDuplicates;
    var i := FirstBusy(w, w.lowPos);
    forall t | t in w.loc
      ensures UpdateNext(w).next <= w.expiry[t]
    {
      assert t in w.slots[w.loc[t]];
      Overdue(w, t);
      if w.loc[t] < w.size {
        LowSlotDelay(w.start, w.size, w.curr, w.expiry[t], w.loc[t], w.Turn());
      }
    }
    if i < w.size {
      var t := w.slots[i][0];
      assert t in w.slots[i];
      LowSlotDelay(w.start, w.size, w.curr, w.expiry[t], i, w.Turn());
    }
  }

  lemma UpdateNextRests(w: Wheel)
    requires Inv(w) && NextInv(w)
    ensures AtRest(UpdateNext(w)) && UpdateNext(w) == w.(next := UpdateNext(w).next)
  {
    hide Placed, Mod, Div, Consistent;
    if w.next < w.curr {
      UpdateNextExact(w);
    }
    LinkNext(w, UpdateNext(w).next);
  }

  // ------------------------------------------------------------ how a run changes the next expiry

  /** An add lowers `next` to the expiry it adds; nothing else touches it. */
  lemma ApplyLowers(w: Wheel, a: Action)
    requires Inv(w) && ActionFits(w, a)
    ensures TimerQueues.IsLowest(Apply(w, a).next, w.next, TimerQueues.Added(Abstract(w), [a]))
  {
    hide Consistent, AllPlaced, Mod, Div, SlotFor, Without, Interval;
    if a.AddTimer? && InRange(w, a.timer) {
      IntervalInRange(w, a.timer);
    }
  }

  lemma {:induction false} ApplyAllLowers(w: Wheel, actions: seq<Action>)
    requires Inv(w) && ActionsFit(w, actions)
    ensures TimerQueues.IsLowest(ApplyAll(w, actions).next, w.next, TimerQueues.Added(Abstract(w), actions))
    decreases |actions|
  {
    if actions != [] {
      hide InvAt, Apply, Abstract, TimerQueues.Apply, ActionFits;
      ApplyReady(w, actions[0]);
      ApplyRefines(w, actions[0]);
      ApplyLowers(w, actions[0]);
      AddedFirst(Abstract(w), actions);
      ApplyAllLowers(Apply(w, actions[0]), actions[1..]);
    }
  }

  lemma AddedFirst(q: TimerQueues.Queue, actions: seq<Action>)
    requires actions != []
    ensures TimerQueues.Added(q, actions) ==
            TimerQueues.Added(q, [actions[0]]) + TimerQueues.Added(TimerQueues.Apply(q, actions[0]), actions[1..])
  {
  }

  lemma FireLowers(w: Wheel, actions: seq<Action>)
    requires Inv(w) && w.slots[w.lowPos] != [] && FireFits(w, actions)
    ensures var f := HeadFiring(w);
            && Abstract(Fire(w, actions)) == TimerQueues.AfterFiring(Abstract(w), f, actions)
            && TimerQueues.IsLowest(Fire(w, actions).next, w.next,
                 TimerQueues.Added(TimerQueues.Fired(Abstract(w), f), actions))
  {
    FireRefines(w, actions);
    hide Pop, ApplyAll, ActionsFit, Consistent, AllPlaced, Mod, Div, TimerQueues.Earliest, TimerQueues.AfterFiring;
    PopReady(w);
    PopRefines(w);
    var p := Pop(w);
    ApplyAllLowers(p, actions);
    assert Fire(w, actions) == ApplyAll(p, actions);
  }

  /** Over the loop, `next` becomes the least of what it was and of the expiries that callbacks add. */
  lemma {:induction false} RunLowers(w: Wheel, now: int, plan: Plan, done: seq<Firing>)
    requires Inv(w) && RunFits(w, now, plan, |done|)
    ensures var r := Run(w, now, plan, done);
            && done <= r.trace
            && TimerQueues.IsLowest(r.wheel.next, w.next,
                 TimerQueues.RunAdded(Abstract(w), plan, |done|, r.trace[|done|..]))
    decreases TicksLeft(w, now), Load(w)
  {
    Cursor(w);
    RunRefines(w, now, plan, done);
    if w.curr >= now {
      RunEnds(w, now, plan, done);
    }
    hide Inv, Tick, Fire, FireFits, Run, RunFits, Load, TicksLeft, Abstract, HeadFiring, TimerQueues.ValidRun;
    if w.curr >= now {
    } else if w.slots[w.lowPos] == [] {
      RunTick(w, now, plan, done);
      RunLowers(Tick(w), now, plan, done);
      TickAdds(w, plan, |done|, Run(w, now, plan, done).trace[|done|..]);
    } else {
      RunFire(w, now, plan, done);
      RunLowers(Fire(w, plan(|done|)), now, plan, done + [HeadFiring(w)]);
      FireLowers(w, plan(|done|));
      hide TimerQueues.IsLowest, TimerQueues.RunAdded, TimerQueues.Added, TimerQueues.AfterFiring, TimerQueues.Fired;
      FireAdds(w, plan, done, Run(w, now, plan, done).trace);
      LowestChains(Run(w, now, plan, done).wheel.next, Fire(w, plan(|done|)).next, w.next,
        TimerQueues.Added(TimerQueues.Fired(Abstract(w), HeadFiring(w)), plan(|done|)),
        TimerQueues.RunAdded(Abstract(Fire(w, plan(|done|))), plan, |done| + 1,
          Run(w, now, plan, done).trace[|done| + 1..]));
    }
  }

  lemma LowestChains(l: int, m: int, n: int, a: set<int>, b: set<int>)
    requires TimerQueues.IsLowest(m, n, a) && TimerQueues.IsLowest(l, m, b)
    ensures TimerQueues.IsLowest(l, n, a + b)
  {
  }

  lemma TickAdds(w: Wheel, plan: Plan, k: nat, trace: seq<Firing>)
    requires Inv(w) && w.slots[w.lowPos] == []
    ensures TimerQueues.RunAdded(Abstract(Tick(w)), plan, k, trace) == TimerQueues.RunAdded(Abstract(w), plan, k, trace)
  {
    hide Inv, TimerQueues.RunAdded;
    assert Abstract(Tick(w)) == Abstract(w).(curr := w.curr + 1);
    TimerQueues.AddedFromEarlier(Abstract(w), w.curr + 1, plan, k, trace);
  }

  lemma FireAdds(w: Wheel, plan: Plan, done: seq<Firing>, trace: seq<Firing>)
    requires Inv(w) && w.slots[w.lowPos] != [] && FireFits(w, plan(|done|))
    requires done + [HeadFiring(w)] <= trace
    requires Abstract(Fire(w, plan(|done|))) == TimerQueues.AfterFiring(Abstract(w), HeadFiring(w), plan(|done|))
    ensures TimerQueues.RunAdded(Abstract(w), plan, |done|, trace[|done|..]) ==
            TimerQueues.Added(TimerQueues.Fired(Abstract(w), HeadFiring(w)), plan(|done|))
            + TimerQueues.RunAdded(Abstract(Fire(w, plan(|done|))), plan, |done| + 1, trace[|done| + 1..])
  {
    hide Inv, Fire, FireFits, Abstract, HeadFiring, TimerQueues.AfterFiring, TimerQueues.Fired, TimerQueues.Added;
    var done' := done + [HeadFiring(w)];
    assert trace[|done|] == trace[..|done'|][|done|] == HeadFiring(w);
    assert trace[|done|..][1..] == trace[|done| + 1..];
  }

  // ------------------------------------------------------------ run_until

  /** The 32-bit skip does not jump forward when the clock stands still or went back. */
  predicate ClockFits(w: Wheel, now: int) {
    now <= w.curr ==> SkipLength(w, now) <= 0
  }

  /** That is the case exactly when the fast-forward does not overshoot, so in particular for any recent time. */
  lemma ClockFitsExactly(w: Wheel, now: int)
    requires AtRest(w)
    ensures ClockFits(w, now) <==> Skip(w, now).curr <= TimerQueues.Max(w.curr, now)
    ensures w.curr - now < 0x8000_0000 ==> ClockFits(w, now)
  {
    hide InvAt, Mod, Div;
    RestIsNear(w);
  }

  lemma RestIsNear(w: Wheel)
    requires AtRest(w)
    ensures w.curr <= w.next <= w.curr + w.size <= w.curr + MAX_SLOTS
  {
  }

  /** What a call of `run_until` needs: a wheel at rest, and callbacks that perform right actions. */
  ghost predicate RunsFit(w: Wheel, now: int, plan: Plan, k: nat) {
    AtRest(w) && RunFits(w, now, plan, k) && ClockFits(w, now)
  }

  /** `run_until`: fast-forward, loop, and recompute the cached next expiry. */
  function RunUntil(w: Wheel, now: int, plan: Plan, done: seq<Firing>): Outcome
    requires RunsFit(w, now, plan, |done|)
  {
    SkipFits(w, now, plan, done);
    var r := Run(Skip(w, now), now, plan, done);
    Outcome(UpdateNext(r.wheel), r.trace)
  }

  /** The 32-bit skip is the true one when the clock moves forward, and stays within the turn. */
  lemma SkipIsExact(w: Wheel, now: int)
    requires AtRest(w) && ClockFits(w, now)
    ensures var n := SkipLength(w, now);
            && n < w.size
            && (now > w.curr ==> n == (if now > w.next then w.next else now) - w.curr - 1)
            && (n > 0 ==> w.curr + n < w.next && w.curr + n < now)
  {
    RestIsNear(w);
  }

  /** The fast-forward crosses no turn of the wheel, passes no timer, and changes nothing that is fired. */
  lemma SkipFits(w: Wheel, now: int, plan: Plan, done: seq<Firing>)
    requires RunsFit(w, now, plan, |done|)
    ensures Skip(w, now).expiry == w.expiry && Inv(Skip(w, now)) && NextInv(Skip(w, now))
    ensures Skip(w, now).highPos == w.highPos && Skip(w, now).slots == w.slots
    ensures now > w.curr ==>
              Skip(w, now).curr == TimerQueues.Max(w.curr, (if now < w.next then now else w.next) - 1)
    ensures RunFits(Skip(w, now), now, plan, |done|)
    ensures Run(Skip(w, now), now, plan, done) == Run(w, now, plan, done)
  {
    hide SkipBy, SkipLength, Run, RunFits, AllPlaced, Consistent, Mod, Div;
    SkipIsExact(w, now);
    var n := SkipLength(w, now);
    if n > 0 {
      SkipByStaysInTurn(w, n);
      JumpIsTicks(w, w.curr + n, now, plan, done);
    }
  }

  /**
   The whole of `run_until`: it leaves a wheel at rest, at the later of its time and
   `now`; what it fires is a run of the queue; and the fast-forward made no difference.
   */
  lemma RunUntilCorrect(w: Wheel, now: int, plan: Plan, done: seq<Firing>)
    requires RunsFit(w, now, plan, |done|)
    ensures var r, loop := RunUntil(w, now, plan, done), Run(w, now, plan, done);
            && AtRest(r.wheel) && r.wheel.curr == TimerQueues.Max(w.curr, now)
            && r.trace == loop.trace && r.wheel == loop.wheel.(next := r.wheel.next)
            && done <= r.trace
            && TimerQueues.ValidRun(Abstract(w), now, plan, |done|, r.trace[|done|..], Abstract(r.wheel))
  {
    hide Skip, InvAt, RunFits, ClockFits;
    SkipFits(w, now, plan, done);
    RunRefines(w, now, plan, done);
    hide Run;
    UpdateNextRests(Run(w, now, plan, done).wheel);
  }

  /**
   The cached next expiry of `v` after a run that started with `before` and whose
   callbacks added the expiries `added`: while the least of them is not in the past it is
   kept; otherwise the next expiry has been looked up.
   */
  ghost predicate NextIsExact(v: Wheel, before: int, added: set<int>)
    requires v.loc.Keys <= v.expiry.Keys
  {
    if before >= v.curr && (forall e :: e in added ==> e >= v.curr) then
      TimerQueues.IsLowest(v.next, before, added)
    else
      EarliestOfTurn(v, v.next)
  }

  lemma UpdateNextMeans(v: Wheel, before: int, added: set<int>)
    requires Inv(v) && TimerQueues.IsLowest(v.next, before, added)
    ensures UpdateNext(v).loc.Keys <= UpdateNext(v).expiry.Keys && NextIsExact(UpdateNext(v), before, added)
  {
    hide Consistent, AllPlaced, Mod, Div;
    if v.next < v.curr {
      UpdateNextExact(v);
    }
  }

  /** `run_until` keeps a next expiry that is still ahead, and looks up any other. */
  lemma RunUntilNext(w: Wheel, now: int, plan: Plan, done: seq<Firing>)
    requires RunsFit(w, now, plan, |done|)
    ensures var r := RunUntil(w, now, plan, done);
            && done <= r.trace && r.wheel.loc.Keys <= r.wheel.expiry.Keys
            && NextIsExact(r.wheel, w.next, TimerQueues.RunAdded(Abstract(w), plan, |done|, r.trace[|done|..]))
  {
    hide Skip, InvAt, RunFits, ClockFits, NextIsExact, UpdateNext, TimerQueues.IsLowest;
    SkipFits(w, now, plan, done);
    RunLowers(w, now, plan, done);
    var r := Run(w, now, plan, done);
    hide Run, TimerQueues.RunAdded;
    UpdateNextMeans(r.wheel, w.next, TimerQueues.RunAdded(Abstract(w), plan, |done|, r.trace[|done|..]));
  }

  /** A run lowers the next expiry only to the expiry of a timer that a callback added. */
  lemma NextNotLowered(w: Wheel, now: int, plan: Plan, done: seq<Firing>, low: int)
    requires RunsFit(w, now, plan, |done|)
    ensures var r := RunUntil(w, now, plan, done);
            && done <= r.trace
            && (TimerQueues.IsLowest(low, w.next, TimerQueues.RunAdded(Abstract(w), plan, |done|, r.trace[|done|..])) ==>
                  low <= r.wheel.next)
            && ((forall t :: TimerQueues.RunAdds(Abstract(w), plan, |done|, r.trace[|done|..], t) == 0) ==>
                  w.next <= r.wheel.next)
  {
    hide RunsFit, RunUntil, TimerQueues.RunAdds, TimerQueues.RunAdded;
    RunUntilNext(w, now, plan, done);
    var trace := RunUntil(w, now, plan, done).trace[|done|..];
    if forall t :: TimerQueues.RunAdds(Abstract(w), plan, |done|, trace, t) == 0 {
      TimerQueues.RunAddedNothing(Abstract(w), plan, |done|, trace);
    }
  }

  /** Called before the next expiry, `run_until` fires nothing and moves only the clock. */
  lemma RunBeforeNext(w: Wheel, now: int, plan: Plan, done: seq<Firing>)
    requires RunsFit(w, now, plan, |done|) && w.curr <= now <= w.next
    ensures var r := RunUntil(w, now, plan, done);
            && r.trace == done && r.wheel.next == w.next && r.wheel.curr == now
            && r.wheel.expiry == w.expiry && r.wheel.loc.Keys == w.loc.Keys
  {
    hide Skip, Run, RunFits, ClockFits, UpdateNext, Consistent, AllPlaced, Mod, Div, RunUntil;
    RunUntilNext(w, now, plan, done);
    RunUntilCorrect(w, now, plan, done);
    var r := RunUntil(w, now, plan, done);
    var trace := r.trace[|done|..];
    assert r.trace == r.trace[..|done|] + trace;
  }

  /** After `run_until`, the cached next expiry is at most one turn away and no later than any pending timer. */
  lemma NextAfterRun(w: Wheel, now: int, plan: Plan, done: seq<Firing>)
    requires RunsFit(w, now, plan, |done|) && w.curr <= now
    ensures var r := RunUntil(w, now, plan, done).wheel;
            && now <= r.next <= now + w.size
            && forall t :: t in r.loc ==> r.next <= r.expiry[t]
  {
    hide Skip, Run, RunFits, UpdateNext, Consistent, AllPlaced, Mod, Div;
    RunUntilCorrect(w, now, plan, done);
  }

  /** A pending timer that is due fires, at its expiry, unless a callback deletes it. */
  lemma DueFires(w: Wheel, now: int, plan: Plan, done: seq<Firing>, t: TimerId)
    requires RunsFit(w, now, plan, |done|) && t in w.loc && t in w.expiry && w.expiry[t] < now
    requires forall j: nat :: j >= |done| ==> DelTimer(t) !in plan(j)
    ensures Firing(t, w.expiry[t]) in RunUntil(w, now, plan, done).trace
  {
    hide RunsFit, RunUntil, AtRest, Run;
    RunUntilCorrect(w, now, plan, done);
    var r := RunUntil(w, now, plan, done);
    TimerQueues.DueTimerFires(Abstract(w), now, plan, |done|, r.trace[|done|..], Abstract(r.wheel), t);
  }

  // ------------------------------------------------------------ polling granularity

  /** Stopping the loop at an earlier time and resuming is the same as not stopping. */
  lemma {:induction false} RunSplits(w: Wheel, mid: int, now: int, plan: Plan, done: seq<Firing>)
    requires Inv(w) && RunFits(w, now, plan, |done|) && mid <= now
    ensures RunFits(w, mid, plan, |done|)
    ensures var r := Run(w, mid, plan, done);
            && RunFits(r.wheel, now, plan, |r.trace|)
            && Run(w, now, plan, done) == Run(r.wheel, now, plan, r.trace)
    decreases TicksLeft(w, mid), Load(w)
  {
    Cursor(w);
    if w.curr >= mid {
      RunEnds(w, mid, plan, done);
    }
    hide Inv, Tick, Fire, FireFits, Run, RunFits, Load, TicksLeft;
    if w.curr >= mid {
    } else if w.slots[w.lowPos] == [] {
      RunTick(w, mid, plan, done);
      RunTick(w, now, plan, done);
      RunSplits(Tick(w), mid, now, plan, done);
    } else {
      RunFire(w, mid, plan, done);
      RunFire(w, now, plan, done);
      RunSplits(Fire(w, plan(|done|)), mid, now, plan, done + [HeadFiring(w)]);
    }
  }

  /** The two wheels differ at most in the cached next expiry. */
  ghost predicate SameTimers(w: Wheel, v: Wheel) {
    v == w.(next := v.next)
  }

  lemma ApplyIgnoresNext(w: Wheel, v: Wheel, a: Action)
    requires Shape(w) && SameTimers(w, v) && a.timer in w.expiry
    ensures SameTimers(Apply(w, a), Apply(v, a)) && (ActionFits(w, a) <==> ActionFits(v, a))
  {
    hide Consistent, Without, SlotFor;
  }

  lemma {:induction false} ApplyAllIgnoresNext(w: Wheel, v: Wheel, actions: seq<Action>)
    requires Inv(w) && ActionsFit(w, actions)
    requires Inv(v) && SameTimers(w, v)
    ensures ActionsFit(v, actions) && SameTimers(ApplyAll(w, actions), ApplyAll(v, actions))
    decreases |actions|
  {
    if actions != [] {
      hide InvAt, Apply;
      ApplyIgnoresNext(w, v, actions[0]);
      hide ActionFits, SameTimers;
      ApplyReady(w, actions[0]);
      ApplyReady(v, actions[0]);
      ApplyAllIgnoresNext(Apply(w, actions[0]), Apply(v, actions[0]), actions[1..]);
    }
  }

  lemma FireIgnoresNext(w: Wheel, v: Wheel, actions: seq<Action>)
    requires Inv(w) && w.slots[w.lowPos] != [] && FireFits(w, actions)
    requires Inv(v) && SameTimers(w, v)
    ensures FireFits(v, actions) && SameTimers(Fire(w, actions), Fire(v, actions))
  {
    hide ApplyAll, Consistent, AllPlaced, Mod, Div, Without, ActionsFit;
    PopReady(w);
    PopReady(v);
    ApplyAllIgnoresNext(Pop(w), Pop(v), actions);
  }

  lemma MoveDownIgnoresNext(w: Wheel, v: Wheel)
    requires Shape(w) && Shape(v) && 0 <= w.highPos < w.size && SameTimers(w, v)
    requires w.slots[w.size + w.highPos] != []
    ensures SameTimers(MoveDown(w), MoveDown(v))
  {
    hide Consistent, Without, Mod;
  }

  lemma {:induction false} CascadeIgnoresNext(w: Wheel, v: Wheel)
    requires Shape(w) && Shape(v) && 0 <= w.highPos < w.size && SameTimers(w, v)
    ensures SameTimers(Cascade(w), Cascade(v))
    decreases |w.slots[w.size + w.highPos]|
  {
    hide Consistent, MoveDown, Mod, Cascade;
    if w.slots[w.size + w.highPos] != [] {
      CascadeStep(w);
      CascadeStep(v);
      MoveDownIgnoresNext(w, v);
      CascadeIgnoresNext(MoveDown(w), MoveDown(v));
    } else {
      CascadeDone(w);
      CascadeDone(v);
    }
  }

  lemma TickIgnoresNext(w: Wheel, v: Wheel)
    requires Inv(w) && w.slots[w.lowPos] == []
    requires Inv(v) && SameTimers(w, v)
    ensures SameTimers(Tick(w), Tick(v))
  {
    hide Consistent, AllPlaced, Mod, Div, Cascade;
    var w1 := w.(curr := w.curr + 1, lowPos := Mod(w.lowPos + 1, w.size));
    if w1.lowPos == 0 {
      CascadeIgnoresNext(w1, w1.(next := v.next));
    }
  }

  /** What is fired does not depend on the cached next expiry. */
  lemma {:induction false} RunIgnoresNext(
    w: Wheel, v: Wheel, now: int, plan: Plan, done: seq<Firing>)
    requires Inv(w) && RunFits(w, now, plan, |done|) && Inv(v) && SameTimers(w, v)
    ensures RunFits(v, now, plan, |done|)
    ensures var r, s := Run(w, now, plan, done), Run(v, now, plan, done);
            r.trace == s.trace && SameTimers(r.wheel, s.wheel)
    decreases TicksLeft(w, now), Load(w)
  {
    Cursor(w);
    assert w.slots[w.lowPos] == v.slots[v.lowPos] && w.curr == v.curr && HeadsAgree(w, v);
    hide Inv;
    if w.curr >= now {
      RunEnds(w, now, plan, done);
      RunEnds(v, now, plan, done);
    } else {
      hide Inv, Tick, Fire, FireFits, Run, RunFits, Load, TicksLeft, SameTimers, HeadFiring;
      if w.slots[w.lowPos] == [] {
        RunTick(w, now, plan, done);
        RunTick(v, now, plan, done);
        TickIgnoresNext(w, v);
        RunIgnoresNext(Tick(w), Tick(v), now, plan, done);
      } else {
        RunFire(w, now, plan, done);
        RunFire(v, now, plan, done);
        FireIgnoresNext(w, v, plan(|done|));
        RunIgnoresNext(Fire(w, plan(|done|)), Fire(v, plan(|done|)), now, plan, done + [HeadFiring(w)]);
      }
    }
  }

  ghost predicate HeadsAgree(w: Wheel, v: Wheel)
    requires 0 <= w.lowPos < |w.slots| && 0 <= v.lowPos < |v.slots|
  {
    w.slots[w.lowPos] != [] && v.slots[v.lowPos] != [] ==> HeadFiring(w) == HeadFiring(v)
  }

  /**
   How often `run_until` is called makes no difference to what is fired and when:
   calling it at `mid` and then at `now` is calling it at `now`.
   */
  lemma RunUntilSplits(w: Wheel, mid: int, now: int, plan: Plan, done: seq<Firing>)
    requires RunsFit(w, now, plan, |done|) && w.curr <= mid <= now
    ensures RunsFit(w, mid, plan, |done|)
    ensures var r := RunUntil(w, mid, plan, done);
            && RunsFit(r.wheel, now, plan, |r.trace|)
            && var s, direct := RunUntil(r.wheel, now, plan, r.trace), RunUntil(w, now, plan, done);
               s.trace == direct.trace && SameTimers(s.wheel, direct.wheel)
  {
    hide Inv, RunFits, Skip, SkipLength, RunUntil, Run, NextInv;
    RunSplits(w, mid, now, plan, done);
    ClockFitsExactly(w, mid);
    RunUntilCorrect(w, mid, plan, done);
    RunUntilCorrect(w, now, plan, done);
    var r, l := RunUntil(w, mid, plan, done), Run(w, mid, plan, done);
    ClockFitsExactly(r.wheel, now);
    RunIgnoresNext(l.wheel, r.wheel, now, plan, r.trace);
    RunUntilCorrect(r.wheel, now, plan, r.trace);
  }

  /** Right operations between runs leave a wheel at rest. */
  lemma ApplyRests(w: Wheel, a: Action)
    requires AtRest(w) && ActionFits(w, a)
    ensures AtRest(Apply(w, a))
  {
    ApplyFrame(w, a);
    ApplyReady(w, a);
    ApplyNext(w, a);
    hide Inv, Apply;
  }

  lemma ApplyNext(w: Wheel, a: Action)
    requires Shape(w) && ActionFits(w, a) && w.curr <= w.next
    ensures w.curr <= Apply(w, a).next
  {
    hide Consistent, SlotFor, Without, Interval;
  }
}
