/**
 The simple thing a timer manager must agree with: a set of pending timers, always
 fired in order of expiry.  A run is described by its trace, and the callback of the
 `k`-th firing performs the actions `plan(k)`.  Since every callback is finite and may
 depend on anything, "for all plans" covers every behaviour callbacks can show.
 */
module TimerQueues {

  import opened TimerTypes

  datatype Queue = Queue(curr: int, pending: set<TimerId>, expiry: map<TimerId, int>, limit: int)

  function Max(a: int, b: int): int { if a < b then b else a }

  // ------------------------------------------------------------ the machine

  /** Whether `add_timer` should accept: an idle timer due in `1 ..= limit` from now. */
  predicate Addable(q: Queue, t: TimerId) {
    t !in q.pending && t in q.expiry && 1 <= q.expiry[t] - q.curr <= q.limit
  }

  function Apply(q: Queue, a: Action): Queue {
    match a
    case SetExpiry(t, e) => if t in q.pending then q else q.(expiry := q.expiry[t := e])
    case AddTimer(t) => if Addable(q, t) then q.(pending := q.pending + {t}) else q
    case DelTimer(t) => q.(pending := q.pending - {t})
  }

  function ApplyAll(q: Queue, actions: seq<Action>): Queue
    decreases |actions|
  {
    if actions == [] then q else ApplyAll(Apply(q, actions[0]), actions[1..])
  }

  ghost predicate Earliest(q: Queue, t: TimerId) {
    && t in q.pending && t in q.expiry
    && forall u :: u in q.pending && u in q.expiry ==> q.expiry[t] <= q.expiry[u]
  }

  /** The state in which the callback of a firing starts. */
  function Fired(q: Queue, f: Firing): Queue {
    q.(curr := f.at, pending := q.pending - {f.timer})
  }

  /** The state after a firing and the actions of its callback. */
  function AfterFiring(q: Queue, f: Firing, actions: seq<Action>): Queue {
    ApplyAll(Fired(q, f), actions)
  }

  /** Nothing is left that was due before `now`. */
  ghost predicate Settled(q: Queue, now: int) {
    forall t :: t in q.pending && t in q.expiry ==> q.expiry[t] >= now
  }

  /**
   `trace` is what running from `q` until `now` fires, ending in `final`: each firing is
   of an earliest pending timer due before `now`, at its own expiry.
   */
  ghost predicate ValidRun(q: Queue, now: int, plan: Plan, k: nat, trace: seq<Firing>, final: Queue)
    decreases |trace|
  {
    if trace == [] then
      Settled(q, now) && final == q.(curr := Max(q.curr, now))
    else
      var f := trace[0];
      && Earliest(q, f.timer) && f.at == q.expiry[f.timer] && q.curr <= f.at < now
      && ValidRun(AfterFiring(q, f, plan(k)), now, plan, k + 1, trace[1..], final)
  }

  // ------------------------------------------------------------ invariants of runs

  /** Pending timers have an expiry, and it has not passed. */
  ghost predicate Live(q: Queue) {
    forall t :: t in q.pending ==> t in q.expiry && q.curr <= q.expiry[t]
  }

  lemma {:induction false} ApplyAllLive(q: Queue, actions: seq<Action>)
    requires Live(q)
    ensures Live(ApplyAll(q, actions)) && ApplyAll(q, actions).curr == q.curr
    decreases |actions|
  {
    if actions != [] {
      ApplyAllLive(Apply(q, actions[0]), actions[1..]);
    }
  }

  lemma FiringLive(q: Queue, f: Firing, actions: seq<Action>)
    requires Live(q) && Earliest(q, f.timer) && f.at == q.expiry[f.timer]
    ensures Live(AfterFiring(q, f, actions)) && AfterFiring(q, f, actions).curr == f.at
  {
    ApplyAllLive(Fired(q, f), actions);
  }

  /** A run ends at the later of its start and `now`, with nothing due before `now` left. */
  lemma {:induction false} RunSettles(q: Queue, now: int, plan: Plan, k: nat, trace: seq<Firing>, final: Queue)
    requires Live(q) && ValidRun(q, now, plan, k, trace, final)
    ensures Live(final) && Settled(final, now) && final.curr == Max(q.curr, now)
    decreases |trace|
  {
    if trace != [] {
      FiringLive(q, trace[0], plan(k));
      RunSettles(AfterFiring(q, trace[0], plan(k)), now, plan, k + 1, trace[1..], final);
    }
  }

  ghost predicate Ordered(trace: seq<Firing>) {
    forall i, j :: 0 <= i < j < |trace| ==> trace[i].at <= trace[j].at
  }

  /** Firings come in order of expiry, none before the start of the run and all before `now`. */
  lemma {:induction false} RunOrdered(q: Queue, now: int, plan: Plan, k: nat, trace: seq<Firing>, final: Queue)
    requires Live(q) && ValidRun(q, now, plan, k, trace, final)
    ensures Ordered(trace)
    ensures forall i :: 0 <= i < |trace| ==> q.curr <= trace[i].at < now
    decreases |trace|
  {
    if trace != [] {
      var q' := AfterFiring(q, trace[0], plan(k));
      FiringLive(q, trace[0], plan(k));
      RunOrdered(q', now, plan, k + 1, trace[1..], final);
      forall i | 0 < i < |trace|
        ensures trace[0].at <= trace[i].at < now
      {
        assert trace[i] == trace[1..][i - 1];
      }
      forall i, j | 0 <= i < j < |trace|
        ensures trace[i].at <= trace[j].at
      {
        if i > 0 {
          assert trace[i] == trace[1..][i - 1] && trace[j] == trace[1..][j - 1];
        }
      }
    }
  }

  // ------------------------------------------------------------ conservation

  function Bit(b: bool): nat { if b then 1 else 0 }

  /** How often `t` goes from idle to pending in a list of actions. */
  function Adds(q: Queue, actions: seq<Action>, t: TimerId): nat
    decreases |actions|
  {
    if actions == [] then 0
    else Bit(actions[0] == AddTimer(t) && Addable(q, t)) + Adds(Apply(q, actions[0]), actions[1..], t)
  }

  /** How often `t` goes from pending to idle by a deletion in a list of actions. */
  function Dels(q: Queue, actions: seq<Action>, t: TimerId): nat
    decreases |actions|
  {
    if actions == [] then 0
    else Bit(actions[0] == DelTimer(t) && t in q.pending) + Dels(Apply(q, actions[0]), actions[1..], t)
  }

  function RunAdds(q: Queue, plan: Plan, k: nat, trace: seq<Firing>, t: TimerId): nat
    decreases |trace|
  {
    if trace == [] then 0
    else Adds(Fired(q, trace[0]), plan(k), t)
         + RunAdds(AfterFiring(q, trace[0], plan(k)), plan, k + 1, trace[1..], t)
  }

  function RunDels(q: Queue, plan: Plan, k: nat, trace: seq<Firing>, t: TimerId): nat
    decreases |trace|
  {
    if trace == [] then 0
    else Dels(Fired(q, trace[0]), plan(k), t)
         + RunDels(AfterFiring(q, trace[0], plan(k)), plan, k + 1, trace[1..], t)
  }

  function Firings(trace: seq<Firing>, t: TimerId): nat {
    if trace == [] then 0 else Bit(trace[0].timer == t) + Firings(trace[1..], t)
  }

  lemma {:induction false} ApplyAllConserves(q: Queue, actions: seq<Action>, t: TimerId)
    ensures Bit(t in q.pending) + Adds(q, actions, t)
         == Bit(t in ApplyAll(q, actions).pending) + Dels(q, actions, t)
    decreases |actions|
  {
    if actions != [] {
      ApplyAllConserves(Apply(q, actions[0]), actions[1..], t);
    }
  }

  /**
   Each firing pays for exactly one add: over a whole run, what was pending or added is
   what fired, was deleted or is still pending.
   */
  lemma {:induction false} RunConserves(
    q: Queue, now: int, plan: Plan, k: nat, trace: seq<Firing>, final: Queue, t: TimerId)
    requires ValidRun(q, now, plan, k, trace, final)
    ensures Bit(t in q.pending) + RunAdds(q, plan, k, trace, t)
         == Firings(trace, t) + RunDels(q, plan, k, trace, t) + Bit(t in final.pending)
    decreases |trace|
  {
    if trace != [] {
      ApplyAllConserves(Fired(q, trace[0]), plan(k), t);
      RunConserves(AfterFiring(q, trace[0], plan(k)), now, plan, k + 1, trace[1..], final, t);
    }
  }

  /** A pending timer stays pending, and its expiry frozen, until it is deleted. */
  lemma {:induction false} PendingStays(q: Queue, actions: seq<Action>, t: TimerId)
    requires t in q.pending && t in q.expiry && DelTimer(t) !in actions
    ensures var q' := ApplyAll(q, actions); t in q'.pending && t in q'.expiry && q'.expiry[t] == q.expiry[t]
    decreases |actions|
  {
    if actions != [] {
      PendingStays(Apply(q, actions[0]), actions[1..], t);
    }
  }

  /** Completeness: a pending timer due before `now` fires, at its expiry, unless a callback deletes it. */
  lemma {:induction false} DueTimerFires(
    q: Queue, now: int, plan: Plan, k: nat, trace: seq<Firing>, final: Queue, t: TimerId)
    requires ValidRun(q, now, plan, k, trace, final)
    requires t in q.pending && t in q.expiry && q.expiry[t] < now
    requires forall j: nat :: k <= j < k + |trace| ==> DelTimer(t) !in plan(j)
    ensures Firing(t, q.expiry[t]) in trace
    decreases |trace|
  {
    if trace[0].timer != t {
      PendingStays(Fired(q, trace[0]), plan(k), t);
      DueTimerFires(AfterFiring(q, trace[0], plan(k)), now, plan, k + 1, trace[1..], final, t);
    }
  }

  /** A timer that no callback adds and that is not due fires not at all. */
  lemma {:induction false} OnlyPendingFires(
    q: Queue, now: int, plan: Plan, k: nat, trace: seq<Firing>, final: Queue, t: TimerId)
    requires Live(q) && ValidRun(q, now, plan, k, trace, final)
    requires forall j: nat :: k <= j < k + |trace| ==> AddTimer(t) !in plan(j)
    ensures Firings(trace, t) <= Bit(t in q.pending && t in q.expiry && q.expiry[t] < now)
    decreases |trace|
  {
    if trace != [] {
      var q' := AfterFiring(q, trace[0], plan(k));
      FiringLive(q, trace[0], plan(k));
      NotAddedStaysIdle(Fired(q, trace[0]), plan(k), t);
      OnlyPendingFires(q', now, plan, k + 1, trace[1..], final, t);
    }
  }

  lemma {:induction false} NotAddedStaysIdle(q: Queue, actions: seq<Action>, t: TimerId)
    requires AddTimer(t) !in actions
    ensures var q' := ApplyAll(q, actions);
            t in q'.pending ==> t in q.pending && (t in q.expiry <==> t in q'.expiry)
                                && (t in q.expiry ==> q'.expiry[t] == q.expiry[t])
    decreases |actions|
  {
    if actions != [] {
      NotAddedStaysIdle(Apply(q, actions[0]), actions[1..], t);
    }
  }

  /**
   With callbacks that neither add nor delete, a run fires exactly the timers that are
   due before `now`, each once and at its expiry, and keeps the others.
   */
  lemma QuietRun(q: Queue, now: int, plan: Plan, k: nat, trace: seq<Firing>, final: Queue, t: TimerId)
    requires Live(q) && ValidRun(q, now, plan, k, trace, final)
    requires forall j: nat :: plan(j) == []
    ensures t in q.pending && q.expiry[t] < now ==> Firings(trace, t) == 1 && Firing(t, q.expiry[t]) in trace
    ensures !(t in q.pending && q.expiry[t] < now) ==> Firings(trace, t) == 0
    ensures t in final.pending <==> t in q.pending && q.expiry[t] >= now
  {
    OnlyPendingFires(q, now, plan, k, trace, final, t);
    RunConserves(q, now, plan, k, trace, final, t);
    RunAddsNothing(q, plan, k, trace, t);
    if t in q.pending && q.expiry[t] < now {
      DueTimerFires(q, now, plan, k, trace, final, t);
      FiringsPositive(trace, Firing(t, q.expiry[t]));
    }
  }

  lemma {:induction false} RunAddsNothing(q: Queue, plan: Plan, k: nat, trace: seq<Firing>, t: TimerId)
    requires forall j: nat :: plan(j) == []
    ensures RunAdds(q, plan, k, trace, t) == 0 && RunDels(q, plan, k, trace, t) == 0
    decreases |trace|
  {
    if trace != [] {
      RunAddsNothing(AfterFiring(q, trace[0], plan(k)), plan, k + 1, trace[1..], t);
    }
  }

  lemma {:induction false} FiringsPositive(trace: seq<Firing>, f: Firing)
    requires f in trace
    ensures Firings(trace, f.timer) >= 1
  {
    if trace[0] != f {
      FiringsPositive(trace[1..], f);
    }
  }

  // ------------------------------------------------------------ expiries added

  /** The expiries of the timers that a list of actions adds. */
  function Added(q: Queue, actions: seq<Action>): set<int>
    decreases |actions|
  {
    if actions == [] then {}
    else
      var t := actions[0].timer;
      (if actions[0].AddTimer? && Addable(q, t) then {q.expiry[t]} else {})
      + Added(Apply(q, actions[0]), actions[1..])
  }

  /** The expiries of the timers that the callbacks of a run add. */
  function RunAdded(q: Queue, plan: Plan, k: nat, trace: seq<Firing>): set<int>
    decreases |trace|
  {
    if trace == [] then {}
    else Added(Fired(q, trace[0]), plan(k)) + RunAdded(AfterFiring(q, trace[0], plan(k)), plan, k + 1, trace[1..])
  }

  /** `m` is the least of `low` and `more`. */
  predicate IsLowest(m: int, low: int, more: set<int>) {
    && m <= low && (forall e :: e in more ==> m <= e)
    && (m == low || m in more)
  }

  lemma {:induction false} AddedNothing(q: Queue, actions: seq<Action>)
    requires forall t :: Adds(q, actions, t) == 0
    ensures Added(q, actions) == {}
    decreases |actions|
  {
    if actions != [] {
      AddsParts(q, actions);
      hide Adds;
      AddedNothing(Apply(q, actions[0]), actions[1..]);
    }
  }

  lemma AddsParts(q: Queue, actions: seq<Action>)
    requires actions != [] && forall t :: Adds(q, actions, t) == 0
    ensures forall t :: Adds(Apply(q, actions[0]), actions[1..], t) == 0
    ensures actions[0].AddTimer? ==> !Addable(q, actions[0].timer)
  {
    assert Adds(q, actions, actions[0].timer) == 0;
    forall t
      ensures Adds(Apply(q, actions[0]), actions[1..], t) == 0
    {
      assert Adds(q, actions, t) == 0;
    }
  }

  /** A run in which no timer goes from idle to pending adds no expiry. */
  lemma {:induction false} RunAddedNothing(q: Queue, plan: Plan, k: nat, trace: seq<Firing>)
    requires forall t :: RunAdds(q, plan, k, trace, t) == 0
    ensures RunAdded(q, plan, k, trace) == {}
    decreases |trace|
  {
    if trace != [] {
      RunAddsParts(q, plan, k, trace, k + 1);
      hide RunAdds, AfterFiring;
      AddedNothing(Fired(q, trace[0]), plan(k));
      RunAddedNothing(AfterFiring(q, trace[0], plan(k)), plan, k + 1, trace[1..]);
    }
  }

  lemma RunAddsParts(q: Queue, plan: Plan, k: nat, trace: seq<Firing>, k': nat)
    requires trace != [] && k' == k + 1 && forall t :: RunAdds(q, plan, k, trace, t) == 0
    ensures forall t :: Adds(Fired(q, trace[0]), plan(k), t) == 0
    ensures forall t :: RunAdds(AfterFiring(q, trace[0], plan(k)), plan, k', trace[1..], t) == 0
  {
    hide Adds, AfterFiring, Fired;
    forall t
      ensures Adds(Fired(q, trace[0]), plan(k), t) == 0
      ensures RunAdds(AfterFiring(q, trace[0], plan(k)), plan, k', trace[1..], t) == 0
    {
      assert RunAdds(q, plan, k, trace, t) == 0;
    }
  }

  /** Starting the same run from an earlier instant changes nothing, if nothing is due in between. */
  lemma RunFromEarlier(q: Queue, c: int, now: int, plan: Plan, k: nat, trace: seq<Firing>, final: Queue)
    requires ValidRun(q.(curr := c), now, plan, k, trace, final)
    requires q.curr <= c <= now
    ensures ValidRun(q, now, plan, k, trace, final)
  {
    if trace != [] {
      assert Fired(q.(curr := c), trace[0]) == Fired(q, trace[0]);
    }
  }

  lemma AddedFromEarlier(q: Queue, c: int, plan: Plan, k: nat, trace: seq<Firing>)
    ensures RunAdded(q.(curr := c), plan, k, trace) == RunAdded(q, plan, k, trace)
  {
    if trace != [] {
      assert Fired(q.(curr := c), trace[0]) == Fired(q, trace[0]);
    }
  }
}
