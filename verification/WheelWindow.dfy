/**
 A condition on callbacks that can be read off their actions, and that makes every run
 right: a timer is added only after its expiry was set, to a time near the run.
 */
module WheelWindows {
  import opened TimerTypes
  import opened WheelArithmetic
  import opened Wheels
  import opened WheelRuns

  /** The longest stretch of time, in ticks, that one window spans. */
  const MAX_SPAN := 0x4000_0000

  /** The distance of `e` from every clock value in `lo ..= hi` fits in 32 bits. */
  predicate InWindow(e: int, lo: int, hi: int) {
    hi - 0x8000_0000 <= e < lo + 0x8000_0000
  }

  /**
   Every timer that is added is one of `good`, or has been set before, and times are set
   within the window.  Timers that are not added may hold any expiry.
   */
  predicate SetsBeforeAdds(actions: seq<Action>, known: set<TimerId>, good: set<TimerId>, lo: int, hi: int)
    decreases |actions|
  {
    actions == [] ||
    (actions[0].timer in known &&
     match actions[0]
     case SetExpiry(t, e) => InWindow(e, lo, hi) && SetsBeforeAdds(actions[1..], known, good + {t}, lo, hi)
     case AddTimer(t) => t in good && SetsBeforeAdds(actions[1..], known, good, lo, hi)
     case DelTimer(_) => SetsBeforeAdds(actions[1..], known, good, lo, hi))
  }

  /** Every callback does so. */
  ghost predicate PlanSets(plan: Plan, known: set<TimerId>, good: set<TimerId>, lo: int, hi: int) {
    forall k: nat :: SetsBeforeAdds(plan(k), known, good, lo, hi)
  }

  /** The good timers hold expiries within the window. */
  ghost predicate Windowed(w: Wheel, good: set<TimerId>, lo: int, hi: int) {
    && lo <= w.curr <= hi && hi - lo <= MAX_SPAN
    && forall t :: t in good && t in w.expiry ==> InWindow(w.expiry[t], lo, hi)
  }

  /** A pending timer is near enough in any case. */
  lemma PendingInWindow(w: Wheel, t: TimerId, lo: int, hi: int)
    requires Inv(w) && t in w.loc && lo <= w.curr <= hi && hi - lo <= MAX_SPAN
    ensures InWindow(w.expiry[t], lo, hi)
  {
    hide Consistent, Mod, Div, Placed;
    SquareBound(w.size);
    PlacedIsNear(w.start, w.size, w.curr, w.expiry[t], w.loc[t]);
  }

  lemma WindowedAdd(w: Wheel, t: TimerId, lo: int, hi: int)
    requires Inv(w) && t in w.expiry && InWindow(w.expiry[t], lo, hi) && lo <= w.curr <= hi
    ensures AddCode(w, t) == 0 ==> InRange(w, t)
  {
    hide InvAt;
  }

  /** Such a list of actions is right, whatever state it starts in. */
  lemma {:induction false} ActionsInWindow(w: Wheel, actions: seq<Action>, good: set<TimerId>, lo: int, hi: int)
    requires Inv(w) && Windowed(w, good, lo, hi) && SetsBeforeAdds(actions, w.expiry.Keys, good, lo, hi)
    ensures ActionsFit(w, actions) && Windowed(ApplyAll(w, actions), good, lo, hi)
    decreases |actions|
  {
    if actions != [] {
      var a := actions[0];
      var good' := if a.SetExpiry? then good + {a.timer} else good;
      if a.AddTimer? {
        WindowedAdd(w, a.timer, lo, hi);
      }
      SetKeepsWindow(w, a, good, lo, hi);
      hide InvAt, Apply, InWindow;
      ApplyReady(w, a);
      ApplyFrame(w, a);
      ActionsInWindow(Apply(w, a), actions[1..], good', lo, hi);
    }
  }

  /** After it is set, or refused because it is pending, a timer's expiry is in the window. */
  lemma SetKeepsWindow(w: Wheel, a: Action, good: set<TimerId>, lo: int, hi: int)
    requires Inv(w) && Windowed(w, good, lo, hi) && a.timer in w.expiry
    requires a.SetExpiry? ==> InWindow(a.at, lo, hi)
    ensures Windowed(Apply(w, a), if a.SetExpiry? then good + {a.timer} else good, lo, hi)
  {
    ApplyExpiry(w, a);
    ApplyFrame(w, a);
    if a.timer in w.loc {
      PendingInWindow(w, a.timer, lo, hi);
    }
    hide InvAt, Apply, InWindow;
  }

  /** Such callbacks make a run right, however far in the past or the future other timers are. */
  lemma {:induction false} RunInWindow(w: Wheel, now: int, plan: Plan, k: nat, good: set<TimerId>, lo: int, hi: int)
    requires Inv(w) && Windowed(w, good, lo, hi) && PlanSets(plan, w.expiry.Keys, good, lo, hi) && now <= hi
    ensures RunFits(w, now, plan, k)
    decreases TicksLeft(w, now), Load(w)
  {
    Cursor(w);
    if w.curr >= now {
    } else if w.slots[w.lowPos] == [] {
      hide InvAt, Tick, InWindow, PlanSets, Load;
      RunInWindow(Tick(w), now, plan, k, good, lo, hi);
    } else {
      hide InvAt, InWindow, Pop, ActionsFit, ApplyAll, SetsBeforeAdds, Load;
      PopReady(w);
      ActionsInWindow(Pop(w), plan(k), good, lo, hi);
      assert FireFits(w, plan(k)) && Fire(w, plan(k)) == ApplyAll(Pop(w), plan(k));
      hide Fire, FireFits, PlanSets;
      RunInWindow(Fire(w, plan(k)), now, plan, k + 1, good, lo, hi);
    }
  }

  /** What `run_until` needs, from a wheel at rest and callbacks that set timers before they add them. */
  lemma RunUntilInWindow(w: Wheel, now: int, plan: Plan, k: nat, good: set<TimerId>)
    requires AtRest(w) && w.curr <= now <= w.curr + MAX_SPAN
    requires Windowed(w, good, w.curr, now) && PlanSets(plan, w.expiry.Keys, good, w.curr, now)
    ensures RunsFit(w, now, plan, k)
  {
    hide InvAt, RunFits, Windowed, PlanSets;
    ClockFitsExactly(w, now);
    RunInWindow(w, now, plan, k, good, w.curr, now);
  }
}
