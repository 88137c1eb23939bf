/** The timer manager over intrusive circular lists (framework/timer_manager.cpp). */
module TimerManagers {
  import opened BaseTimers
  import opened Rings
  import opened TimerTypes
  import opened WheelArithmetic
  import opened Wheels
  import opened WheelRuns
  import TimerQueues

  const STEP_SLOT_MIN_BITS := 3
  const STEP_SLOT_MAX_BITS := 20

  // ------------------------------------------------------------ lists and slots

  /** Slot `i` of the wheel is the ring around head `i`. */
  ghost predicate AllRings(next: Links, prev: Links, slots: seq<seq<TimerId>>) {
    forall i :: 0 <= i < |slots| ==> Ring(next, prev, Head(i), slots[i])
  }

  /** Linked cells are the heads and the timers that have a slot. */
  ghost predicate Cells(links: Links, slots: seq<seq<TimerId>>, loc: map<TimerId, int>) {
    && (forall x :: x in loc ==> x >= 0)
    && (forall x :: x in links <==> x in loc || (-|slots| <= x < 0))
  }

  ghost predicate Lists(next: Links, prev: Links, slots: seq<seq<TimerId>>, loc: map<TimerId, int>) {
    Consistent(slots, loc) && AllRings(next, prev, slots) && Cells(next, slots, loc) && Cells(prev, slots, loc)
  }

  lemma SlotMembers(slots: seq<seq<TimerId>>, loc: map<TimerId, int>, i: int)
    requires Consistent(slots, loc) && 0 <= i < |slots| && (forall x :: x in loc ==> x >= 0)
    ensures Members(Head(i), slots[i]) && forall x :: x in slots[i] ==> x >= 0
  {
    assert NoDuplicates(slots[i]);
    forall x | x in slots[i]
      ensures x >= 0
    {
      assert x in loc;
    }
  }

  /** Two tables agree on every cell but `t` and those of slot `i`. */
  ghost predicate AgreeOutside(old': Links, new': Links, slot: seq<TimerId>, i: int, t: TimerId) {
    forall x :: x in old' && x !in slot && x != Head(i) && x != t ==> x in new' && new'[x] == old'[x]
  }

  /** A change confined to slot `i` leaves every other ring alone. */
  lemma OtherRing(next: Links, prev: Links, next': Links, prev': Links,
                  slots: seq<seq<TimerId>>, loc: map<TimerId, int>, t: TimerId, i: int, k: int)
    requires Lists(next, prev, slots, loc) && 0 <= i < |slots| && 0 <= k < |slots| && k != i
    requires t !in slots[k] && t >= 0
    requires AgreeOutside(next, next', slots[i], i, t) && AgreeOutside(prev, prev', slots[i], i, t)
    ensures Ring(next', prev', Head(k), slots[k])
  {
    hide Ring, NoDuplicates;
    forall x | x == Head(k) || x in slots[k]
      ensures x in next' && x in next && next'[x] == next[x] && x in prev' && x in prev && prev'[x] == prev[x]
    {
      assert (forall y :: y in slots[i] ==> y in loc && loc[y] == i && y >= 0) by {
        SlotMembers(slots, loc, i);
      }
      if x in slots[k] {
        assert x in loc && loc[x] == k;
      }
      assert x !in slots[i];
    }
    SameRing(next, prev, next', prev', Head(k), slots[k]);
  }

  /** Linking `t` before the head of slot `i` changes that ring only. */
  lemma LinkLists(next: Links, prev: Links, slots: seq<seq<TimerId>>, loc: map<TimerId, int>, t: TimerId, i: int)
    requires Lists(next, prev, slots, loc) && t !in loc && t >= 0 && 0 <= i < |slots|
    ensures Head(i) in prev && Head(i) in next && prev[Head(i)] != t
    ensures Lists(InsertNext(next, prev[Head(i)], t, Head(i)), InsertPrev(prev, prev[Head(i)], t, Head(i)),
              slots[i := slots[i] + [t]], loc[t := i])
  {
    SlotMembers(slots, loc, i);
    LinkConsistent(slots, loc, t, i);
    AppendRing(next, prev, Head(i), slots[i], t);
    HeadPrev(next, prev, Head(i), slots[i]);
    var a := prev[Head(i)];
    var next', prev', slots' := InsertNext(next, a, t, Head(i)), InsertPrev(prev, a, t, Head(i)), slots[i := slots[i] + [t]];
    LinkOtherRings(next, prev, slots, loc, t, i, a);
    LinkCells(next, slots, loc, t, i, a);
    LinkCells(prev, slots, loc, t, i, a);
    hide Consistent, Ring;
  }

  lemma LinkCells(links: Links, slots: seq<seq<TimerId>>, loc: map<TimerId, int>, t: TimerId, i: int, a: int)
    requires Consistent(slots, loc) && Cells(links, slots, loc) && t >= 0 && 0 <= i < |slots|
    requires a == Head(i) || a in slots[i]
    ensures Cells(InsertNext(links, a, t, Head(i)), slots[i := slots[i] + [t]], loc[t := i])
    ensures Cells(InsertPrev(links, a, t, Head(i)), slots[i := slots[i] + [t]], loc[t := i])
  {
    hide NoDuplicates;
    assert a in links;
  }

  lemma LinkOtherRings(next: Links, prev: Links, slots: seq<seq<TimerId>>, loc: map<TimerId, int>, t: TimerId, i: int, a: int)
    requires Lists(next, prev, slots, loc) && t !in loc && t >= 0 && 0 <= i < |slots|
    requires a == Head(i) || a in slots[i]
    ensures forall k :: 0 <= k < |slots| && k != i ==>
              Ring(InsertNext(next, a, t, Head(i)), InsertPrev(prev, a, t, Head(i)), Head(k), slots[k])
  {
    hide Ring, NoDuplicates;
    forall k | 0 <= k < |slots| && k != i
      ensures Ring(InsertNext(next, a, t, Head(i)), InsertPrev(prev, a, t, Head(i)), Head(k), slots[k])
    {
      assert t !in slots[k];
      OtherRing(next, prev, InsertNext(next, a, t, Head(i)), InsertPrev(prev, a, t, Head(i)), slots, loc, t, i, k);
    }
  }

  /** Unlinking `t` changes the ring of its own slot only. */
  lemma UnlinkLists(next: Links, prev: Links, slots: seq<seq<TimerId>>, loc: map<TimerId, int>, t: TimerId)
    requires Lists(next, prev, slots, loc) && t in loc
    ensures t in next && t in prev && next[t] != t && prev[t] != t
    ensures Lists(RemoveNext(next, prev[t], t, next[t]), RemovePrev(prev, prev[t], t, next[t]),
              slots[loc[t] := Without(slots[loc[t]], t)], loc - {t})
  {
    var i := loc[t];
    var j := SlotIndex(slots, loc, t);
    SlotMembers(slots, loc, i);
    UnlinkConsistent(slots, loc, t);
    MemberLinks(next, prev, Head(i), slots[i], j);
    RemoveRing(next, prev, Head(i), slots[i], j);
    var a, b := prev[t], next[t];
    assert j > 0 ==> slots[i][j - 1] in slots[i];
    assert j + 1 < |slots[i]| ==> slots[i][j + 1] in slots[i];
    hide Consistent, Ring, Without;
    UnlinkOtherRings(next, prev, slots, loc, t, a, b);
    UnlinkCells(next, slots, loc, t, a, b);
    UnlinkCells(prev, slots, loc, t, b, a);
  }

  lemma SlotIndex(slots: seq<seq<TimerId>>, loc: map<TimerId, int>, t: TimerId) returns (j: int)
    requires Consistent(slots, loc) && t in loc
    ensures 0 <= loc[t] < |slots| && 0 <= j < |slots[loc[t]]| && slots[loc[t]][j] == t
    ensures Without(slots[loc[t]], t) == slots[loc[t]][..j] + slots[loc[t]][j + 1..]
  {
    j :| 0 <= j < |slots[loc[t]]| && slots[loc[t]][j] == t;
    WithoutAt(slots[loc[t]], j);
  }

  lemma UnlinkCells(links: Links, slots: seq<seq<TimerId>>, loc: map<TimerId, int>, t: TimerId, a: int, b: int)
    requires Consistent(slots, loc) && Cells(links, slots, loc) && t in loc
    requires (a == Head(loc[t]) || a in slots[loc[t]]) && a != t
    ensures Cells(RemoveNext(links, a, t, b), slots[loc[t] := Without(slots[loc[t]], t)], loc - {t})
    ensures Cells(RemovePrev(links, b, t, a), slots[loc[t] := Without(slots[loc[t]], t)], loc - {t})
  {
    hide NoDuplicates, Without;
    assert a in links;
  }

  lemma UnlinkOtherRings(next: Links, prev: Links, slots: seq<seq<TimerId>>, loc: map<TimerId, int>, t: TimerId, a: int, b: int)
    requires Lists(next, prev, slots, loc) && t in loc
    requires (a == Head(loc[t]) || a in slots[loc[t]]) && (b == Head(loc[t]) || b in slots[loc[t]])
    ensures forall k :: 0 <= k < |slots| && k != loc[t] ==>
              Ring(RemoveNext(next, a, t, b), RemovePrev(prev, a, t, b), Head(k), slots[k])
  {
    hide Ring, NoDuplicates;
    forall k | 0 <= k < |slots| && k != loc[t]
      ensures Ring(RemoveNext(next, a, t, b), RemovePrev(prev, a, t, b), Head(k), slots[k])
    {
      assert t !in slots[k];
      OtherRing(next, prev, RemoveNext(next, a, t, b), RemovePrev(prev, a, t, b), slots, loc, t, loc[t], k);
    }
  }

  // ------------------------------------------------------------ the manager

  /** The links of all rings and what the rings hold. */
  datatype RingState = RingState(next: Links, prev: Links, slots: seq<seq<TimerId>>, loc: map<TimerId, int>)

  ghost predicate Ringed(r: RingState) {
    Lists(r.next, r.prev, r.slots, r.loc)
  }

  function LinkRing(r: RingState, t: TimerId, i: int): RingState
    requires 0 <= i < |r.slots| && Head(i) in r.prev
  {
    RingState(InsertNext(r.next, r.prev[Head(i)], t, Head(i)), InsertPrev(r.prev, r.prev[Head(i)], t, Head(i)),
      r.slots[i := r.slots[i] + [t]], r.loc[t := i])
  }

  function UnlinkRing(r: RingState, t: TimerId): RingState
    requires t in r.next && t in r.prev && t in r.loc && 0 <= r.loc[t] < |r.slots|
  {
    RingState(RemoveNext(r.next, r.prev[t], t, r.next[t]), RemovePrev(r.prev, r.prev[t], t, r.next[t]),
      r.slots[r.loc[t] := Without(r.slots[r.loc[t]], t)], r.loc - {t})
  }

  ghost predicate Geometry(slots: nat, bits: int, size: int, mask: int, maxExpired: int, lowPos: int, highPos: int) {
    && STEP_SLOT_MIN_BITS <= bits && size == Pow2(bits) <= MAX_SLOTS && slots == 2 * size
    && mask == size - 1 && maxExpired == size * size
    && 0 <= lowPos < size && 0 <= highPos < size
  }

  /** The objects behind the numbers: heads below zero, timers from zero up. */
  ghost predicate Objects(heads: seq<BaseTimer>, nodes: map<int, BaseTimer>, timers: map<TimerId, BaseTimer>,
                          expiry: map<TimerId, int>) {
    && (forall i :: 0 <= i < |heads| ==> Head(i) in nodes && heads[i] == nodes[Head(i)])
    && (forall t :: t in timers ==> t >= 0 && t in nodes && nodes[t] == timers[t])
    && timers.Keys == expiry.Keys
  }

  /** The program's timers before the manager starts: told apart by their numbers, and unlinked. */
  ghost predicate IdleTimers(timers: map<TimerId, BaseTimer>)
    reads timers.Values
  {
    forall t :: t in timers ==> t >= 0 && timers[t].id == t && timers[t].next == null && timers[t].prev == null
  }

  /** The heads of `n` empty slots: each its own successor and predecessor. */
  method NewHeads(n: nat) returns (heads: seq<BaseTimer>)
    ensures |heads| == n && fresh(set i | 0 <= i < n :: heads[i])
    ensures forall i :: 0 <= i < n ==> heads[i].id == Head(i) && heads[i].next == heads[i] == heads[i].prev
  {
    heads := [];
    while |heads| < n
      invariant |heads| <= n
      invariant forall i :: 0 <= i < |heads| ==> fresh(heads[i])
      invariant forall i :: 0 <= i < |heads| ==> heads[i].id == Head(i) && heads[i].next == heads[i] == heads[i].prev
    {
      var head := new BaseTimer(Head(|heads|));
      head.next, head.prev := head, head;
      heads := heads + [head];
    }
  }

  /** The numbers of the heads of `n` slots. */
  function HeadIds(n: nat): (ids: set<int>)
    ensures forall x: int :: x in ids <==> Head(n - 1) <= x < 0
  {
    if n == 0 then {} else HeadIds(n - 1) + {Head(n - 1)}
  }

  function HeadMap(heads: seq<BaseTimer>): map<int, BaseTimer> {
    map x | x in HeadIds(|heads|) :: heads[-1 - x]
  }

  function EmptyRing(n: nat): RingState {
    var self := map x | x in HeadIds(n) :: x;
    RingState(self, self, EmptySlots(n), map[])
  }

  function EmptySlots(n: nat): (slots: seq<seq<TimerId>>)
    ensures |slots| == n && forall i :: 0 <= i < n ==> slots[i] == []
  {
    seq(n, _ => [])
  }

  function ExpiryMap(timers: map<TimerId, BaseTimer>): map<TimerId, int>
    reads timers.Values
  {
    map t | t in timers :: timers[t].expired
  }

  lemma HeadMapAt(heads: seq<BaseTimer>, i: nat)
    requires i < |heads|
    ensures Head(i) in HeadMap(heads) && HeadMap(heads)[Head(i)] == heads[i]
  {
  }

  /** The heap of a manager that has just made its heads. */
  lemma FreshMirror(timers: map<TimerId, BaseTimer>, heads: seq<BaseTimer>)
    requires IdleTimers(timers)
    requires forall i :: 0 <= i < |heads| ==> heads[i].id == Head(i) && heads[i].next == heads[i] == heads[i].prev
    ensures var r := EmptyRing(|heads|);
            Mirror(timers + HeadMap(heads), r.next, r.prev, ExpiryMap(timers))
  {
  }

  lemma FreshObjects(timers: map<TimerId, BaseTimer>, heads: seq<BaseTimer>)
    requires IdleTimers(timers)
    ensures Objects(heads, timers + HeadMap(heads), timers, ExpiryMap(timers))
  {
    forall i | 0 <= i < |heads|
      ensures Head(i) in HeadMap(heads) && HeadMap(heads)[Head(i)] == heads[i]
    {
      HeadMapAt(heads, i);
    }
    assert forall t :: t in timers ==> t !in HeadMap(heads);
    hide HeadMap;
  }

  lemma EmptyRinged(n: nat)
    ensures Ringed(EmptyRing(n)) && EmptyRing(n).slots == EmptySlots(n) && EmptyRing(n).loc == map[]
  {
    var r := EmptyRing(n);
    forall i | 0 <= i < n
      ensures Ring(r.next, r.prev, Head(i), r.slots[i])
    {
      assert Walk(Head(i), []) == [Head(i), Head(i)];
    }
  }

  /** A wheel at its start time, with nothing pending. */
  function EmptyWheel(start: int, size: nat, expiry: map<TimerId, int>): Wheel {
    Wheel(start, size, start, start + size, 0, 0, EmptySlots(2 * size), map[], expiry)
  }

  /** The wheel that `init` sets up is at rest. */
  lemma EmptyWheelRests(start: int, size: nat, expiry: map<TimerId, int>)
    requires 0 < size <= MAX_SLOTS
    ensures AtRest(EmptyWheel(start, size, expiry))
  {
    WithinTurn(0, 0, 0, size);
  }

  class TimerManager {
    var slotArray: seq<BaseTimer>  // the heads: m_low_array, then m_high_array; empty when NULL
    var currExpired: int
    var nextExpired: int
    var stepSlotBits: int
    var stepSlotSize: int
    var stepSlotMask: int
    var maxExpired: int
    var lowPos: int
    var highPos: int
    var timers: map<TimerId, BaseTimer>  // the timers that callers and callbacks can reach

    ghost var start: int
    ghost var nodes: map<int, BaseTimer>  // slot heads and timers
    ghost var ring: RingState
    ghost var expiry: map<TimerId, int>

    /** The wheel this manager represents. */
    ghost function State(): Wheel
      reads this
    {
      Wheel(start, stepSlotSize, currExpired, nextExpired, lowPos, highPos, ring.slots, ring.loc, expiry)
    }

    ghost predicate Valid()
      reads this, nodes.Values
    {
      && Geometry(|slotArray|, stepSlotBits, stepSlotSize, stepSlotMask, maxExpired, lowPos, highPos)
      && Objects(slotArray, nodes, timers, expiry)
      && Mirror(nodes, ring.next, ring.prev, expiry)
      && Ringed(ring) && |ring.slots| == |slotArray| && ring.loc.Keys <= expiry.Keys
    }

    // ---------------------------------------------------------- life cycle

    /** A manager with no slots yet, for a program with the given timers. */
    constructor (timers: map<TimerId, BaseTimer>)
      ensures slotArray == [] && this.timers == timers
    {
      slotArray := [];
      this.timers := timers;
      nodes, ring, expiry := map[], RingState(map[], map[], [], map[]), map[];
    }

    /**
     Set up the slots.  For 15 to 20 bits the source accepts a slot count that does not
     fit its 16-bit field; that range is outside this method (see `SlotSizeFits`).
     */
    method Init(startTime: int, slotBits: int) returns (code: int)
      requires slotBits <= 14 || slotBits > 20
      requires IdleTimers(timers)
      modifies this
      ensures timers == old(timers)
      ensures slotBits < 3 || slotBits > 20 ==> code == -1
      ensures 3 <= slotBits <= 14 && old(slotArray) != [] ==> code == -2
      ensures code != 0 ==> slotArray == old(slotArray) && State() == old(State())
      ensures 3 <= slotBits <= 14 && old(slotArray) == [] ==>
                && code == 0 && Valid() && fresh(set i | 0 <= i < |slotArray| :: slotArray[i])
                && State() == EmptyWheel(startTime, Pow2(slotBits), ExpiryMap(timers))
                && currExpired == startTime && nextExpired == startTime + Pow2(slotBits)
                && (forall i :: 0 <= i < |ring.slots| ==> ring.slots[i] == [])
    {
      if slotBits < STEP_SLOT_MIN_BITS || slotBits > STEP_SLOT_MAX_BITS {
        return -1;
      }
      if slotArray != [] {
        return -2;
      }
      Setup(startTime, slotBits);
      return 0;
    }

    method Setup(startTime: int, slotBits: nat)
      requires STEP_SLOT_MIN_BITS <= slotBits <= 14 && IdleTimers(timers)
      modifies this
      ensures timers == old(timers) && fresh(set i | 0 <= i < |slotArray| :: slotArray[i])
      ensures Valid() && State() == EmptyWheel(startTime, Pow2(slotBits), ExpiryMap(timers))
    {
      hide Pow2, Ringed, Mirror, IdleTimers, Geometry, Objects, EmptyRing, EmptySlots, HeadMap, ExpiryMap;
      SetGeometry(startTime, slotBits);
      var heads := NewHeads(2 * stepSlotSize);
      slotArray := heads;
      nodes, ring, expiry := timers + HeadMap(heads), EmptyRing(|heads|), ExpiryMap(timers);
      FreshMirror(timers, heads);
      FreshObjects(timers, heads);
      EmptyRinged(|heads|);
    }

    method SetGeometry(startTime: int, slotBits: nat)
      requires STEP_SLOT_MIN_BITS <= slotBits <= 14
      modifies `stepSlotBits, `stepSlotSize, `stepSlotMask, `maxExpired, `currExpired, `nextExpired, `lowPos, `highPos, `start
      ensures stepSlotSize == Pow2(slotBits)
      ensures Geometry(2 * stepSlotSize, stepSlotBits, stepSlotSize, stepSlotMask, maxExpired, lowPos, highPos)
      ensures start == currExpired == startTime
      ensures nextExpired == startTime + stepSlotSize && lowPos == 0 && highPos == 0
    {
      SlotSizeFits(slotBits);
      hide Pow2, Int16;
      stepSlotBits := slotBits;
      stepSlotSize := Int16(Pow2(slotBits));
      stepSlotMask := stepSlotSize - 1;
      maxExpired := stepSlotSize * Pow2(slotBits);
      currExpired := startTime;
      nextExpired := currExpired + stepSlotSize;
      lowPos, highPos := 0, 0;
      start := startTime;
    }

    /** Release the slots. */
    method Fini()
      modifies this`slotArray
      ensures slotArray == []
    {
      slotArray := [];
    }

    method GetCurrExpired() returns (t: int)
      ensures t == currExpired
    {
      t := currExpired;
    }

    method GetNextExpired() returns (t: int)
      ensures t == nextExpired
    {
      t := nextExpired;
    }

    // ---------------------------------------------------------- one cell

    /** Link an idle timer before the head of slot `i`. */
    method LinkTimer(t: BaseTimer, i: int)
      requires Valid() && t.id in timers && timers[t.id] == t && t.id !in ring.loc && 0 <= i < |slotArray|
      modifies this`ring, nodes.Values
      ensures Valid() && State() == Link(old(State()), t.id, i)
    {
      hide Geometry, Lists, Mirror, InsertNext, InsertPrev;
      var head := slotArray[i];
      LinkLists(ring.next, ring.prev, ring.slots, ring.loc, t.id, i);
      MirrorAt(nodes, ring.next, ring.prev, expiry, Head(i));
      MirrorAt(nodes, ring.next, ring.prev, expiry, t.id);
      ghost var r := ring;
      ring := LinkRing(r, t.id, i);
      InsertCell(nodes, r.next, r.prev, expiry, head.prev, t, head);
    }

    /** Unlink a linked timer. */
    method UnlinkTimer(t: BaseTimer)
      requires Valid() && t.id in timers && timers[t.id] == t && t.id in ring.loc
      modifies this`ring, nodes.Values
      ensures 0 <= old(ring).loc[t.id] < |slotArray|
      ensures Valid() && State() == Unlink(old(State()), t.id)
    {
      hide Geometry, Lists, Mirror;
      SlotBounds(ring, t.id);
      UnlinkLists(ring.next, ring.prev, ring.slots, ring.loc, t.id);
      MirrorAt(nodes, ring.next, ring.prev, expiry, t.id);
      ghost var r := ring;
      ring := UnlinkRing(r, t.id);
      RemoveCell(nodes, r.next, r.prev, expiry, t);
    }

    /** `head->m_next`, or null when it is the head itself. */
    method First(i: int) returns (t: BaseTimer?)
      requires Valid() && 0 <= i < |slotArray|
      ensures t == null <==> ring.slots[i] == []
      ensures t != null ==> t.id == ring.slots[i][0] && t.id in ring.loc && t.id in timers && timers[t.id] == t
    {
      hide Geometry, Mirror;
      var head := slotArray[i];
      MirrorAt(nodes, ring.next, ring.prev, expiry, Head(i));
      HeadPrev(ring.next, ring.prev, Head(i), ring.slots[i]);
      assert ring.slots[i] != [] ==> ring.slots[i][0] in ring.slots[i];
      t := if head.next == head then null else head.next;
    }

    // ---------------------------------------------------------- the interface

    /** A timer's own `set_expired`, in the presence of its manager. */
    method SetExpired(t: BaseTimer, at: int) returns (code: int)
      requires Valid() && t.id in timers && timers[t.id] == t
      modifies this`expiry, nodes.Values
      ensures code == -1
      ensures Valid() && State() == Wheels.SetExpired(old(State()), t.id, at)
    {
      hide Geometry, Mirror, Consistent, AllRings;
      ghost var e := expiry;
      expiry := if t.id in ring.loc then e else e[t.id := at];
      code := SetCellExpiry(nodes, ring.next, ring.prev, e, t, at);
    }

    method AddTimer(t: BaseTimer?) returns (code: int)
      requires slotArray != [] && t != null ==> Valid() && t.id in timers && timers[t.id] == t
      modifies this`ring, this`nextExpired, nodes.Values
      ensures slotArray == [] || t == null ==> code == -1 && State() == old(State())
      ensures code in {0, -1, -2}
      ensures slotArray != [] && t != null ==>
                && Dims(old(State())) && t.id in expiry
                && code == AddCode(old(State()), t.id)
                && (code == -1 <==> t.id in old(ring).loc)
                && Valid() && State() == Add(old(State()), t.id)
                && nextExpired == (if code == 0 && expiry[t.id] < old(nextExpired) then expiry[t.id] else old(nextExpired))
    {
      hide Mirror, Ringed, Geometry;
      if slotArray == [] || t == null || t.next != null {
        if slotArray != [] && t != null {
          KnownTimer(t);
        }
        return NOT_ADDABLE;
      }
      code := AddIdle(t);
    }

    /** The rest of `add_timer`, for an idle timer. */
    method AddIdle(t: BaseTimer) returns (code: int)
      requires Valid() && t.id in timers && timers[t.id] == t && t.next == null
      modifies this`ring, this`nextExpired, nodes.Values
      ensures Dims(old(State())) && t.id in expiry && code == AddCode(old(State()), t.id)
      ensures Valid() && State() == Add(old(State()), t.id)
    {
      hide Mirror, Ringed, Geometry, SlotFor, Int32;
      KnownTimer(t);
      var interval := Int32(t.expired - currExpired);
      if interval < 1 || interval > maxExpired {
        return OUT_OF_RANGE;
      }
      LinkTimer(t, SlotFor(stepSlotSize, lowPos, highPos, interval));
      KnownTimer(t);
      if nextExpired > t.expired {
        nextExpired := t.expired;
      }
      return 0;
    }

    lemma KnownTimer(t: BaseTimer)
      requires Valid() && t.id in timers && timers[t.id] == t
      ensures Dims(State()) && maxExpired == stepSlotSize * stepSlotSize && |slotArray| == 2 * stepSlotSize
      ensures t.id in expiry && t.expired == expiry[t.id]
      ensures t.next == null <==> t.id !in ring.loc
      ensures t.prev == null <==> t.id !in ring.loc
    {
      hide Mirror, Lists, Pow2;
      MirrorAt(nodes, ring.next, ring.prev, expiry, t.id);
      CellLinked(ring, t.id);
    }

    method DelTimer(t: BaseTimer)
      requires Valid() && t.id in timers && timers[t.id] == t
      modifies this`ring, nodes.Values
      ensures t.id in old(ring).loc ==> 0 <= old(ring).loc[t.id] < |slotArray|
      ensures Valid() && State() == Del(old(State()), t.id)
    {
      KnownTimer(t);
      hide Mirror, Ringed, Geometry;
      if t.next != null && t.prev != null {
        UnlinkTimer(t);
      }
    }

    // ---------------------------------------------------------- run_until

    method Perform(a: Action)
      requires Valid() && a.timer in timers
      modifies this`ring, this`expiry, this`nextExpired, nodes.Values
      ensures Shape(old(State())) && a.timer in old(expiry)
      ensures Valid() && State() == Apply(old(State()), a)
    {
      ValidShape();
      hide Geometry, Mirror, Ringed, Shape, Add, Del, Wheels.SetExpired;
      MirrorAt(nodes, ring.next, ring.prev, expiry, a.timer);
      match a {
        case SetExpiry(t, at) => var _ := SetExpired(timers[t], at);
        case AddTimer(t) => var _ := AddTimer(timers[t]);
        case DelTimer(t) => DelTimer(timers[t]);
      }
    }

    lemma ValidShape()
      requires Valid()
      ensures Shape(State()) && 0 <= lowPos < stepSlotSize && 0 <= highPos < stepSlotSize && 2 * stepSlotSize == |slotArray|
    {
      hide Mirror, Consistent, AllRings, Pow2;
    }

    /** What a callback does: a list of actions on the program's timers. */
    method OnTimeout(actions: seq<Action>)
      requires Valid() && Inv(State()) && ActionsFit(State(), actions)
      modifies this`ring, this`expiry, this`nextExpired, nodes.Values
      ensures Valid() && State() == ApplyAll(old(State()), actions)
    {
      hide Geometry, Mirror, Ringed, Inv, Apply, ApplyAll, ActionsFit;
      ghost var w0 := State();
      var i := 0;
      while i < |actions|
        invariant 0 <= i <= |actions|
        invariant Valid() && Inv(State()) && ActionsFit(State(), actions[i..])
        invariant ApplyAll(State(), actions[i..]) == ApplyAll(w0, actions)
      {
        ApplyAllStep(State(), actions[i..]);
        assert actions[i..][1..] == actions[i + 1..];
        Perform(actions[i]);
        i := i + 1;
      }
      ApplyAllDone(State(), actions[i..]);
    }

    /** The body of the inner loop: unlink the first timer of the current slot and call it back. */
    method FireFirst(t: BaseTimer, actions: seq<Action>)
      requires Valid() && Inv(State()) && ring.slots[lowPos] != [] && FireFits(State(), actions)
      requires t.id == ring.slots[lowPos][0] && t.id in timers && timers[t.id] == t
      modifies this`ring, this`expiry, this`nextExpired, nodes.Values
      ensures Valid() && State() == Fire(old(State()), actions)
    {
      hide Geometry, Mirror, Ringed, Consistent, AllPlaced, Mod, Div, Unlink, ActionsFit;
      ghost var w := State();
      PopReady(w);
      UnlinkTimer(t);
      assert State() == Pop(w);
      hide Pop;
      OnTimeout(actions);
    }

    /** Move a linked timer to the end of slot `i`. */
    method MoveTimer(t: BaseTimer, i: int)
      requires Valid() && t.id in timers && timers[t.id] == t && t.id in ring.loc && 0 <= i < |slotArray|
      modifies this`ring, nodes.Values
      ensures 0 <= old(ring).loc[t.id] < |old(ring).slots|
      ensures Valid() && State() == Link(Unlink(old(State()), t.id), t.id, i)
    {
      hide Geometry, Mirror, Ringed, Without;
      UnlinkTimer(t);
      LinkTimer(t, i);
    }

    /** The body of the cascade loop: move the first timer of the high slot to its low slot. */
    method MoveFirstDown(t: BaseTimer)
      requires Valid() && Shape(State()) && 0 <= highPos < stepSlotSize && ring.slots[stepSlotSize + highPos] != []
      requires t.id == ring.slots[stepSlotSize + highPos][0] && t.id in timers && timers[t.id] == t
      modifies this`ring, nodes.Values
      ensures Valid() && State() == MoveDown(old(State()))
    {
      hide Geometry, Mirror, Ringed, Consistent, Mod, Unlink, Link, MoveDown;
      KnownTimer(t);
      MoveDownSteps(State());
      MoveTimer(t, Mod(t.expired - currExpired + lowPos, stepSlotSize));
    }

    /** The cascade loop: move every timer of the high slot under the cursor down. */
    method CascadeHighSlot()
      requires Valid() && Shape(State()) && 0 <= highPos < stepSlotSize
      modifies this`ring, nodes.Values
      ensures Valid() && State() == Cascade(old(State()))
    {
      hide Geometry, Mirror, Ringed, Consistent, MoveDown, Cascade;
      ghost var w0 := State();
      var curr := First(stepSlotSize + highPos);
      while curr != null
        invariant Valid() && Shape(State()) && Cascade(State()) == Cascade(w0)
        invariant curr == null <==> ring.slots[stepSlotSize + highPos] == []
        invariant curr != null ==> curr.id == ring.slots[stepSlotSize + highPos][0]
                                   && curr.id in timers && timers[curr.id] == curr
        decreases |ring.slots[stepSlotSize + highPos]|
      {
        MoveOneDown(curr);
        curr := First(stepSlotSize + highPos);
      }
      CascadeDone(State());
    }

    /** One round of the cascade loop leads to the same end. */
    method MoveOneDown(t: BaseTimer)
      requires Valid() && Shape(State()) && 0 <= highPos < stepSlotSize && ring.slots[stepSlotSize + highPos] != []
      requires t.id == ring.slots[stepSlotSize + highPos][0] && t.id in timers && timers[t.id] == t
      modifies this`ring, nodes.Values
      ensures Valid() && Shape(State()) && Cascade(State()) == Cascade(old(State()))
      ensures |ring.slots[stepSlotSize + highPos]| < old(|ring.slots[stepSlotSize + highPos]|)
    {
      hide Geometry, Mirror, Ringed, Consistent, MoveDown, Cascade;
      CascadeStep(State());
      MoveFirstDown(t);
    }

    /** The end of a round of the outer loop. */
    method EndTick()
      requires Valid() && Shape(State()) && 0 <= highPos < stepSlotSize
      modifies this`currExpired, this`lowPos, this`highPos, this`ring, nodes.Values
      ensures Valid() && State() == Advance(old(State()))
    {
      hide Mirror, Ringed, Consistent, Mod, Pow2, Cascade;
      currExpired := currExpired + 1;
      lowPos := Mod(lowPos + 1, stepSlotSize);
      if lowPos == 0 {
        CascadeHighSlot();
        highPos := Mod(highPos + 1, stepSlotSize);
      }
    }

    /** Recompute the cached next expiry when it has fallen behind. */
    method UpdateNextExpired()
      requires Valid()
      modifies this`nextExpired
      ensures 0 <= lowPos <= stepSlotSize <= |ring.slots|
      ensures Valid() && State() == UpdateNext(old(State()))
    {
      hide Mirror, Ringed, Consistent, Geometry;
      ValidShape();
      if nextExpired < currExpired {
        var i := FindBusy();
        nextExpired := currExpired + i - lowPos;
      }
    }

    /** The search for the first low slot from the cursor on that holds a timer. */
    method FindBusy() returns (i: int)
      requires Valid() && 0 <= lowPos <= stepSlotSize && 2 * stepSlotSize == |slotArray|
      ensures i == FirstBusy(State(), lowPos)
    {
      hide Mirror, Ringed, Geometry, FirstBusy;
      ghost var w := State();
      i := lowPos;
      while i < stepSlotSize
        invariant lowPos <= i <= stepSlotSize
        invariant FirstBusy(w, i) == FirstBusy(w, lowPos)
      {
        BusyStep(w, i);
        var first := First(i);
        if first != null {
          return;
        }
        i := i + 1;
      }
      BusyStep(w, i);
    }

    /** Run every timer due before `now`; the callback of the `k`-th firing performs `plan(k)`. */
    method RunUntil(now: int, plan: Plan, done: seq<Firing>) returns (trace: seq<Firing>)
      requires Valid() && RunsFit(State(), now, plan, |done|)
      modifies this`currExpired, this`nextExpired, this`lowPos, this`highPos, this`ring, this`expiry, nodes.Values
      ensures Valid() && ring.loc.Keys <= expiry.Keys && done <= trace
      ensures Outcome(State(), trace) == WheelRuns.RunUntil(old(State()), now, plan, done)
      ensures NextIsExact(State(), old(nextExpired), TimerQueues.RunAdded(old(Abstract(State())), plan, |done|, trace[|done|..]))
    {
      ghost var w0 := State();
      hide Mirror, Ringed, Geometry, Inv, Run, RunFits, ClockFits, Tick, Fire, Skip, UpdateNext, TicksLeft, NextInv, Advance, Shape;
      SkipFits(w0, now, plan, done);
      RunUntilNext(w0, now, plan, done);
      hide NextIsExact, Abstract, TimerQueues.RunAdded;
      ValidShape();
      FastForward(now);
      trace := done;
      while currExpired < now
        invariant Valid() && Inv(State()) && RunFits(State(), now, plan, |trace|)
        invariant Run(State(), now, plan, trace) == Run(Skip(w0, now), now, plan, done)
        decreases now - currExpired
      {
        trace := DrainSlot(now, plan, trace);
        RunTick(State(), now, plan, trace);
        TickIsAdvance(State());
        EndTick();
      }
      RunEnds(State(), now, plan, trace);
      UpdateNextExpired();
    }

    /** The fast-forward. */
    method FastForward(now: int)
      requires Valid() && Shape(State())
      modifies this`currExpired, this`lowPos, this`highPos
      ensures Valid() && State() == Skip(old(State()), now)
    {
      hide Mirror, Ringed, Consistent, Mod, Div, Pow2, Int32;
      var skip := Int32((if now > nextExpired then nextExpired else now) - currExpired - 1);
      if skip > 0 {
        currExpired := currExpired + skip;
        highPos := Mod(highPos + Div(lowPos + skip, stepSlotSize), stepSlotSize);
        lowPos := Mod(lowPos + skip, stepSlotSize);
      }
    }

    /** The inner loop: fire the timers of the current slot until it is empty. */
    method DrainSlot(now: int, plan: Plan, done: seq<Firing>) returns (trace: seq<Firing>)
      requires Valid() && Inv(State()) && RunFits(State(), now, plan, |done|) && currExpired < now
      modifies this`nextExpired, this`ring, this`expiry, nodes.Values
      ensures Valid() && Inv(State()) && RunFits(State(), now, plan, |trace|) && 0 <= lowPos < |ring.slots| && ring.slots[lowPos] == []
      ensures Run(State(), now, plan, trace) == Run(old(State()), now, plan, done)
    {
      ghost var w0 := State();
      hide Mirror, Ringed, Geometry, Inv, Run, Fire, TicksLeft, Load;
      Cursor(w0);
      trace := done;
      var curr := First(lowPos);
      while curr != null
        invariant Valid() && Inv(State()) && RunFits(State(), now, plan, |trace|)
        invariant 0 <= lowPos < |ring.slots| == |slotArray|
        invariant curr == null <==> ring.slots[lowPos] == []
        invariant curr != null ==> curr.id == ring.slots[lowPos][0] && curr.id in timers && timers[curr.id] == curr
        invariant Run(State(), now, plan, trace) == Run(w0, now, plan, done)
        decreases Load(State())
      {
        RunFire(State(), now, plan, trace);
        var firing := Firing(curr.id, currExpired);
        FireFirst(curr, plan(|trace|));
        trace := trace + [firing];
        Cursor(State());
        curr := First(lowPos);
      }
    }
  }

  lemma ApplyAllStep(w: Wheel, actions: seq<Action>)
    requires Inv(w) && actions != [] && ActionsFit(w, actions)
    ensures ActionFits(w, actions[0]) && Inv(Apply(w, actions[0])) && ActionsFit(Apply(w, actions[0]), actions[1..])
    ensures ApplyAll(w, actions) == ApplyAll(Apply(w, actions[0]), actions[1..])
    ensures Apply(w, actions[0]).expiry.Keys == w.expiry.Keys
  {
    hide InvAt, Apply;
    ApplyReady(w, actions[0]);
    ApplyFrame(w, actions[0]);
  }

  lemma ApplyAllDone(w: Wheel, actions: seq<Action>)
    requires Inv(w) && actions == []
    ensures ActionsFit(w, actions) && ApplyAll(w, actions) == w
  {
  }

  lemma BusyStep(w: Wheel, i: int)
    requires 0 <= i <= w.size <= |w.slots|
    ensures FirstBusy(w, i) == if i == w.size || w.slots[i] != [] then i else FirstBusy(w, i + 1)
  {
  }

  lemma MoveDownSteps(w: Wheel)
    requires Shape(w) && 0 <= w.highPos < w.size && w.slots[w.size + w.highPos] != []
    ensures var t, i := HighHead(w), Mod(w.expiry[HighHead(w)] - w.curr + w.lowPos, w.size);
            && t in w.loc && 0 <= w.loc[t] < |w.slots| && t !in Unlink(w, t).loc
            && 0 <= i < w.size && MoveDown(w) == Link(Unlink(w, t), t, i)
  {
    hide NoDuplicates, Without, Mod;
    assert HighHead(w) in w.slots[w.size + w.highPos];
  }

  /** A timer is linked in both directions or in none. */
  lemma CellLinked(r: RingState, t: TimerId)
    requires Ringed(r) && t >= 0
    ensures t in r.loc <==> t in r.next
    ensures t in r.loc <==> t in r.prev
  {
  }

  lemma SlotBounds(r: RingState, t: TimerId)
    requires Ringed(r) && t in r.loc
    ensures 0 <= r.loc[t] < |r.slots|
  {
  }
}
