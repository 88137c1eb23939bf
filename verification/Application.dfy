/** The timer part of the main loop (framework/application.cpp). */
module Applications {
  import opened TimerTypes
  import opened Wheels
  import opened WheelRuns
  import opened TimerManagers

  /** The time the loop may sleep after running the timers at `now`. */
  function Sleep(w: Wheel, now: int): int {
    w.next - now + 2
  }

  /** The sleep is positive and at most one turn and two ticks: it never means "wait for ever". */
  lemma SleepIsBounded(w: Wheel, now: int, plan: Plan, done: seq<Firing>)
    requires RunsFit(w, now, plan, |done|) && w.curr <= now
    ensures 2 <= Sleep(RunUntil(w, now, plan, done).wheel, now) <= w.size + 2
  {
    hide RunUntil, RunsFit;
    NextAfterRun(w, now, plan, done);
  }

  /**
   No timer is slept through: from a wheel at rest at `now`, nothing is due before
   `next`, and the run at the end of the sleep fires every timer that was waiting for
   `next`, unless a callback deletes it first.
   */
  lemma WakeUpFires(w: Wheel, now: int, plan: Plan, done: seq<Firing>, t: TimerId)
    requires RunsFit(w, now + Sleep(w, now), plan, |done|) && t in w.loc
    ensures w.next <= w.expiry[t]
    ensures w.expiry[t] == w.next && (forall j: nat :: j >= |done| ==> DelTimer(t) !in plan(j)) ==>
              Firing(t, w.next) in RunUntil(w, now + Sleep(w, now), plan, done).trace
  {
    hide RunFits, ClockFits, RunUntil, NextInv, Inv;
    NothingBeforeNext(w, t);
    hide RunsFit;
    if w.expiry[t] == w.next && (forall j: nat :: j >= |done| ==> DelTimer(t) !in plan(j)) {
      DueFires(w, now + Sleep(w, now), plan, done, t);
    }
  }

  lemma NothingBeforeNext(w: Wheel, t: TimerId)
    requires AtRest(w) && t in w.loc
    ensures t in w.expiry && w.next <= w.expiry[t]
  {
  }

  class Application {
    const timerEngine: TimerManager

    constructor (timerEngine: TimerManager)
      ensures this.timerEngine == timerEngine
    {
      this.timerEngine := timerEngine;
    }

    /** One iteration of the main loop up to the wait: run the timers, and decide how long to sleep. */
    method RunTimers(now: int, plan: Plan, done: seq<Firing>)
      returns (trace: seq<Firing>, timeout: int)
      requires timerEngine.Valid() && RunsFit(timerEngine.State(), now, plan, |done|)
      requires timerEngine.currExpired <= now
      modifies timerEngine, timerEngine.nodes.Values
      ensures timerEngine.Valid()
      ensures Outcome(timerEngine.State(), trace) == RunUntil(old(timerEngine.State()), now, plan, done)
      ensures done <= trace && timerEngine.ring.loc.Keys <= timerEngine.expiry.Keys
      ensures NextIsExact(timerEngine.State(), old(timerEngine.nextExpired),
                TimerQueues.RunAdded(old(Abstract(timerEngine.State())), plan, |done|, trace[|done|..]))
      ensures now + timeout == timerEngine.nextExpired + 2 && 2 <= timeout <= timerEngine.stepSlotSize + 2
    {
      hide RunsFit, RunUntil, Abstract, NextIsExact, TimerQueues.RunAdded;
      NextAfterRun(timerEngine.State(), now, plan, done);
      ghost var w := timerEngine.State();
      trace := timerEngine.RunUntil(now, plan, done);
      assert Outcome(timerEngine.State(), trace) == RunUntil(w, now, plan, done);
      var next := timerEngine.GetNextExpired();
      timeout := next - now + 2;
    }
  }
}
