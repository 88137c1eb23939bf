/**
 The two-level timer wheel as a value: a cursor pair, `size` low slots, `size` high
 slots, and the expiry of every timer.  Slots `0 .. size` are the low array and slots
 `size .. 2 * size` the high array, which is how the program lays out its single allocation.
 */
module Wheels {
  import opened TimerTypes
  import opened Division
  import opened WheelArithmetic

  /** The largest slot count the 16-bit `m_step_slot_size` holds: 2 to the 14. */
  const MAX_SLOTS := 0x4000

  datatype Wheel = Wheel(
    start: int,                      // the time the manager was initialised with
    size: int,                       // slots per level
    curr: int,                       // m_curr_expired
    next: int,                       // m_next_expired
    lowPos: int,
    highPos: int,
    slots: seq<seq<TimerId>>,
    loc: map<TimerId, int>,        // the slot of every linked timer
    expiry: map<TimerId, int>)     // the expiry of every timer, linked or not
  {
    /** The number of whole turns of the low array so far. */
    function Turn(): int
      requires size > 0
    {
      Div(curr - start, size)
    }
  }

  // ------------------------------------------------------------ invariant

  predicate NoDuplicates(s: seq<TimerId>) {
    forall i, j :: 0 <= i < j < |s| ==> s[i] != s[j]
  }

  ghost predicate Dims(w: Wheel) {
    0 < w.size <= MAX_SLOTS && |w.slots| == 2 * w.size && w.loc.Keys <= w.expiry.Keys
  }

  /** `loc` and `slots` tell the same story. */
  ghost predicate Consistent(slots: seq<seq<TimerId>>, loc: map<TimerId, int>) {
    && (forall t :: t in loc ==> 0 <= loc[t] < |slots| && t in slots[loc[t]])
    && (forall i, t :: 0 <= i < |slots| && t in slots[i] ==> t in loc && loc[t] == i)
    && (forall i :: 0 <= i < |slots| ==> NoDuplicates(slots[i]))
  }

  ghost predicate Shape(w: Wheel) {
    Dims(w) && Consistent(w.slots, w.loc)
  }

  ghost predicate AllPlaced(w: Wheel, cascaded: int)
    requires Dims(w)
  {
    forall t :: t in w.loc ==> Placed(w.start, w.size, w.curr, w.expiry[t], w.loc[t], cascaded)
  }

  /** The wheel invariant with an explicit count of cascaded turns. */
  ghost predicate InvAt(w: Wheel, cascaded: int) {
    && Shape(w)
    && w.start <= w.curr
    && w.lowPos == Mod(w.curr - w.start, w.size)
    && w.highPos == Mod(cascaded, w.size)
    && AllPlaced(w, cascaded)
  }

  /** The wheel invariant between steps: exactly the turns begun so far are cascaded. */
  ghost predicate Inv(w: Wheel) {
    w.size > 0 && InvAt(w, w.Turn())
  }

  /** `next` is a lower bound on every pending expiry and on the next turn of the wheel. */
  ghost predicate NextInv(w: Wheel)
    requires w.loc.Keys <= w.expiry.Keys
  {
    && (forall t :: t in w.loc ==> w.next <= w.expiry[t])
    && w.next <= w.curr - w.lowPos + w.size
  }

  // ------------------------------------------------------------ list primitives

  /** `s` with its first occurrence of `x` taken out. */
  function Without(s: seq<TimerId>, x: TimerId): seq<TimerId> {
    if s == [] then [] else if s[0] == x then s[1..] else [s[0]] + Without(s[1..], x)
  }

  lemma {:induction false} WithoutAt(s: seq<TimerId>, j: nat)
    requires NoDuplicates(s) && j < |s|
    ensures Without(s, s[j]) == s[..j] + s[j + 1..]
  {
    if j > 0 {
      assert s[0] != s[j] && s[1..][j - 1] == s[j];
      WithoutAt(s[1..], j - 1);
    }
  }

  lemma WithoutElements(s: seq<TimerId>, x: TimerId)
    requires NoDuplicates(s) && x in s
    ensures NoDuplicates(Without(s, x)) && |Without(s, x)| == |s| - 1
    ensures forall y :: y in Without(s, x) <==> y in s && y != x
  {
    var j :| 0 <= j < |s| && s[j] == x;
    WithoutAt(s, j);
    var r := s[..j] + s[j + 1..];
    forall y | y in s && y != x
      ensures y in r
    {
      var k :| 0 <= k < |s| && s[k] == y;
      assert r[if k < j then k else k - 1] == y;
    }
  }

  /** `base_timer_insert` before a slot's head: append `t` to slot `i`. */
  function Link(w: Wheel, t: TimerId, i: int): Wheel
    requires 0 <= i < |w.slots|
  {
    w.(slots := w.slots[i := w.slots[i] + [t]], loc := w.loc[t := i])
  }

  /** `base_timer_remove`. */
  function Unlink(w: Wheel, t: TimerId): Wheel
    requires t in w.loc && 0 <= w.loc[t] < |w.slots|
  {
    w.(slots := w.slots[w.loc[t] := Without(w.slots[w.loc[t]], t)], loc := w.loc - {t})
  }

  lemma LinkConsistent(slots: seq<seq<TimerId>>, loc: map<TimerId, int>, t: TimerId, i: int)
    requires Consistent(slots, loc) && t !in loc && 0 <= i < |slots|
    ensures Consistent(slots[i := slots[i] + [t]], loc[t := i])
  {
    var slots', loc' := slots[i := slots[i] + [t]], loc[t := i];
    forall x | x in loc'
      ensures 0 <= loc'[x] < |slots| && x in slots'[loc'[x]]
    {
      if x == t {
        assert slots'[i][|slots[i]|] == t;
      } else {
        assert x in loc;
      }
    }
  }

  lemma UnlinkConsistent(slots: seq<seq<TimerId>>, loc: map<TimerId, int>, t: TimerId)
    requires Consistent(slots, loc) && t in loc
    ensures Consistent(slots[loc[t] := Without(slots[loc[t]], t)], loc - {t})
    ensures |Without(slots[loc[t]], t)| == |slots[loc[t]]| - 1
  {
    WithoutElements(slots[loc[t]], t);
    hide Without, NoDuplicates;
    var slots', loc' := slots[loc[t] := Without(slots[loc[t]], t)], loc - {t};
    forall x | x in loc'
      ensures 0 <= loc'[x] < |slots| && x in slots'[loc'[x]]
    {
      assert x in loc && x != t;
    }
  }

  lemma LinkKeepsInv(w: Wheel, t: TimerId, i: int, cascaded: int)
    requires InvAt(w, cascaded) && t in w.expiry && t !in w.loc
    requires 0 <= i < 2 * w.size && Placed(w.start, w.size, w.curr, w.expiry[t], i, cascaded)
    ensures InvAt(Link(w, t, i), cascaded)
  {
    hide Placed, Mod, Consistent;
    LinkConsistent(w.slots, w.loc, t, i);
  }

  lemma UnlinkKeepsInv(w: Wheel, t: TimerId, cascaded: int)
    requires InvAt(w, cascaded) && t in w.loc
    ensures 0 <= w.loc[t] < |w.slots|
    ensures InvAt(Unlink(w, t), cascaded)
    ensures Unlink(w, t).loc == w.loc - {t}
    ensures |Unlink(w, t).slots[w.loc[t]]| == |w.slots[w.loc[t]]| - 1
  {
    hide Placed, Mod, NoDuplicates, Without;
    UnlinkConsistent(w.slots, w.loc, t);
    hide Consistent;
  }

  // ------------------------------------------------------------ operations

  const NOT_ADDABLE := -1
  const OUT_OF_RANGE := -2

  /** The interval `add_timer` computes, in a C++ `int`. */
  function Interval(w: Wheel, t: TimerId): int
    requires t in w.expiry
  {
    Int32(w.expiry[t] - w.curr)
  }

  function AddCode(w: Wheel, t: TimerId): int
    requires t in w.expiry
  {
    if t in w.loc then NOT_ADDABLE
    else if Interval(w, t) < 1 || Interval(w, t) > w.size * w.size then OUT_OF_RANGE
    else 0
  }

  function Add(w: Wheel, t: TimerId): Wheel
    requires Dims(w) && t in w.expiry
  {
    if AddCode(w, t) != 0 then w else
      Link(w, t, SlotFor(w.size, w.lowPos, w.highPos, Interval(w, t)))
        .(next := if w.next > w.expiry[t] then w.expiry[t] else w.next)
  }

  function Del(w: Wheel, t: TimerId): Wheel
    requires t in w.loc ==> 0 <= w.loc[t] < |w.slots|
  {
    if t in w.loc then Unlink(w, t) else w
  }

  /** A linked timer's expiry is frozen. */
  function SetExpired(w: Wheel, t: TimerId, e: int): Wheel {
    if t in w.loc then w else w.(expiry := w.expiry[t := e])
  }

  function Apply(w: Wheel, a: Action): Wheel
    requires Shape(w) && a.timer in w.expiry
  {
    match a
    case SetExpiry(t, e) => SetExpired(w, t, e)
    case AddTimer(t) => Add(w, t)
    case DelTimer(t) => Del(w, t)
  }

  /** The expiry of `t` is in range of the timers the wheel can hold. */
  predicate InRange(w: Wheel, t: TimerId)
    requires t in w.expiry
  {
    1 <= w.expiry[t] - w.curr <= w.size * w.size
  }

  // ------------------------------------------------------------ operations keep the invariant

  lemma SquareBound(s: int)
    requires 0 < s <= MAX_SLOTS
    ensures s <= s * s <= 0x1000_0000
  {
    assert MAX_SLOTS * MAX_SLOTS == 0x1000_0000;
    MulMonotone(s, MAX_SLOTS, s);
    MulMonotone(s, MAX_SLOTS, MAX_SLOTS);
  }

  /** A true interval in range survives the narrowing to 32 bits. */
  lemma IntervalInRange(w: Wheel, t: TimerId)
    requires Dims(w) && t in w.expiry && InRange(w, t)
    ensures Interval(w, t) == w.expiry[t] - w.curr
  {
    SquareBound(w.size);
  }

  /** An accepted timer whose true interval is in range goes where the invariant says. */
  lemma AddPlaces(w: Wheel, t: TimerId)
    requires Inv(w) && t in w.expiry && InRange(w, t)
    ensures var i := SlotFor(w.size, w.lowPos, w.highPos, Interval(w, t));
            && i != w.lowPos && 0 <= i < 2 * w.size
            && Placed(w.start, w.size, w.curr, w.expiry[t], i, w.Turn())
  {
    hide Consistent, AllPlaced, Placed, SlotFor, Mod, Div;
    IntervalInRange(w, t);
    hide Interval;
    SlotForPlaces(w.start, w.size, w.curr, w.expiry[t], w.lowPos, w.highPos);
  }

  lemma AddKeepsInv(w: Wheel, t: TimerId)
    requires Inv(w) && t in w.expiry
    requires AddCode(w, t) == 0 ==> InRange(w, t)
    ensures Inv(Add(w, t)) && Add(w, t).slots[w.lowPos] == w.slots[w.lowPos]
  {
    hide Consistent, AllPlaced, Placed, SlotFor, Mod, Div, Interval;
    if AddCode(w, t) == 0 {
      AddPlaces(w, t);
      LinkKeepsInv(w, t, SlotFor(w.size, w.lowPos, w.highPos, Interval(w, t)), w.Turn());
      LinkNext(Link(w, t, SlotFor(w.size, w.lowPos, w.highPos, Interval(w, t))), Add(w, t).next);
    }
  }

  /**
   `add_timer` accepts an idle timer exactly when the low 32 bits of its interval are in
   range; a linked one gives -1, and an interval out of range -2.
   */
  lemma AcceptedIntervals(w: Wheel, t: TimerId)
    requires Dims(w) && t in w.expiry
    ensures AddCode(w, t) == 0 <==> t !in w.loc && 1 <= (w.expiry[t] - w.curr) % 0x1_0000_0000 <= w.size * w.size
    ensures AddCode(w, t) == -1 <==> t in w.loc
    ensures AddCode(w, t) in {0, -1, -2}
  {
    hide Int32;
    SquareBound(w.size);
    Int32Range(w.expiry[t] - w.curr, w.size * w.size);
  }

  /**
   Exactly when adding an idle timer is right: unless the low 32 bits of its interval
   are in range while the interval itself is not.
   */
  lemma AddKeepsInvExactly(w: Wheel, t: TimerId)
    requires Inv(w) && t in w.expiry && t !in w.loc
    ensures Inv(Add(w, t)) <==>
              (1 <= (w.expiry[t] - w.curr) % 0x1_0000_0000 <= w.size * w.size ==> InRange(w, t))
  {
    AcceptedIntervals(w, t);
    if AddCode(w, t) == 0 && !InRange(w, t) {
      FarTimerMisplaced(w, t);
    } else {
      AddKeepsInv(w, t);
    }
  }

  /** A timer accepted out of range ends up in a slot the wheel visits at the wrong time. */
  lemma FarTimerMisplaced(w: Wheel, t: TimerId)
    requires Inv(w) && t in w.expiry && AddCode(w, t) == 0 && !InRange(w, t)
    ensures !Inv(Add(w, t))
  {
    hide Consistent, Placed, SlotFor, Mod, Div;
    var w' := Add(w, t);
    SquareBound(w.size);
    assert t in w'.loc;
    if Inv(w') {
      assert Placed(w.start, w.size, w.curr, w.expiry[t], w'.loc[t], w.Turn());
      PlacedIsNear(w.start, w.size, w.curr, w.expiry[t], w'.loc[t]);
      assert false;
    }
  }

  /** For instance a timer due in 2 to the 32 ticks and one: it is put in the slot of the next tick. */
  lemma AddTruncates(w: Wheel, t: TimerId)
    requires Inv(w) && t in w.expiry && t !in w.loc && w.size > 1
    requires w.expiry[t] == w.curr + 0x1_0000_0001
    ensures AddCode(w, t) == 0 && Add(w, t).loc[t] == Mod(1 + w.lowPos, w.size) && !Inv(Add(w, t))
  {
    hide Consistent, AllPlaced, Mod, Div;
    SquareBound(w.size);
    FarTimerMisplaced(w, t);
  }

  lemma LinkNext(w: Wheel, next: int)
    requires Inv(w)
    ensures Inv(w.(next := next))
  {
    hide Consistent, Placed, Mod, Div;
  }

  lemma DelKeepsInv(w: Wheel, t: TimerId)
    requires Inv(w)
    ensures t in w.loc ==> 0 <= w.loc[t] < |w.slots|
    ensures Inv(Del(w, t)) && |Del(w, t).slots[w.lowPos]| <= |w.slots[w.lowPos]|
  {
    hide Consistent, AllPlaced, Placed, Mod, Div;
    if t in w.loc {
      UnlinkKeepsInv(w, t, w.Turn());
    }
  }

  lemma SetExpiredKeepsInv(w: Wheel, t: TimerId, e: int)
    requires Inv(w)
    ensures Inv(SetExpired(w, t, e)) && SetExpired(w, t, e).slots == w.slots
  {
    hide Consistent, Placed, Mod, Div;
  }

  /** What every operation leaves alone, and that it keeps `next` a lower bound. */
  lemma ApplyFrame(w: Wheel, a: Action)
    requires Inv(w) && a.timer in w.expiry
    ensures var w' := Apply(w, a);
            && w'.start == w.start && w'.size == w.size && w'.curr == w.curr
            && w'.lowPos == w.lowPos && w'.highPos == w.highPos
            && w'.expiry.Keys == w.expiry.Keys
            && (w'.loc.Keys <= w'.expiry.Keys && NextInv(w) ==> NextInv(w'))
  {
    hide AllPlaced, Placed, SlotFor, Mod, Div, Interval, Without, NoDuplicates;
  }

  // ------------------------------------------------------------ cascade

  /** The timer the cascade loop moves next: the first of the high slot under the cursor. */
  function HighHead(w: Wheel): TimerId
    requires Dims(w) && 0 <= w.highPos < w.size && w.slots[w.size + w.highPos] != []
  {
    w.slots[w.size + w.highPos][0]
  }

  /** One round of the cascade loop: unlink the first timer, link it into its low slot. */
  function MoveDown(w: Wheel): Wheel
    requires Shape(w) && 0 <= w.highPos < w.size && w.slots[w.size + w.highPos] != []
  {
    var t := HighHead(w);
    assert t in w.slots[w.size + w.highPos];
    Link(Unlink(w, t), t, Mod(w.expiry[t] - w.curr + w.lowPos, w.size))
  }

  lemma MoveDownShape(w: Wheel)
    requires Shape(w) && 0 <= w.highPos < w.size && w.slots[w.size + w.highPos] != []
    ensures Shape(MoveDown(w))
    ensures MoveDown(w) == w.(slots := MoveDown(w).slots, loc := MoveDown(w).loc)
    ensures MoveDown(w).loc.Keys == w.loc.Keys
    ensures MoveDown(w).slots[w.size + w.highPos] == w.slots[w.size + w.highPos][1..]
  {
    hide NoDuplicates, Mod;
    var t, h := HighHead(w), w.size + w.highPos;
    assert t in w.slots[h] && w.loc[t] == h;
    assert Without(w.slots[h], t) == w.slots[h][1..];
    hide Without;
    UnlinkConsistent(w.slots, w.loc, t);
    hide Consistent;
    LinkConsistent(w.slots[h := Without(w.slots[h], t)], w.loc - {t}, t,
      Mod(w.expiry[t] - w.curr + w.lowPos, w.size));
  }

  /** The cascade loop: empty the high slot under the cursor. */
  function Cascade(w: Wheel): (r: Wheel)
    requires Shape(w) && 0 <= w.highPos < w.size
    ensures r == w.(slots := r.slots, loc := r.loc)
    ensures Shape(r) && r.slots[w.size + w.highPos] == []
    ensures r.loc.Keys == w.loc.Keys
    decreases |w.slots[w.size + w.highPos]|
  {
    if w.slots[w.size + w.highPos] == [] then w
    else
      hide Consistent, MoveDown;
      MoveDownShape(w);
      Cascade(MoveDown(w))
  }

  /** One round of the cascade, and its end. */
  lemma CascadeStep(w: Wheel)
    requires Shape(w) && 0 <= w.highPos < w.size && w.slots[w.size + w.highPos] != []
    ensures Shape(MoveDown(w)) && MoveDown(w).size == w.size && MoveDown(w).highPos == w.highPos
    ensures Cascade(w) == Cascade(MoveDown(w))
    ensures |MoveDown(w).slots[w.size + w.highPos]| < |w.slots[w.size + w.highPos]|
  {
    hide Consistent, MoveDown;
    MoveDownShape(w);
  }

  lemma CascadeDone(w: Wheel)
    requires Shape(w) && 0 <= w.highPos < w.size && w.slots[w.size + w.highPos] == []
    ensures Cascade(w) == w
  {
    hide Consistent;
  }

  /** The end of a tick: move the cursors on, and cascade when the low one wraps. */
  function Advance(w: Wheel): Wheel
    requires Shape(w) && 0 <= w.highPos < w.size
  {
    var w1 := w.(curr := w.curr + 1, lowPos := Mod(w.lowPos + 1, w.size));
    if w1.lowPos == 0 then
      var w2 := Cascade(w1);
      w2.(highPos := Mod(w2.highPos + 1, w2.size))
    else w1
  }

  /** A cascaded timer lands in the low slot of its expiry. */
  lemma HighHeadPlaced(w: Wheel, cascaded: int)
    requires InvAt(w, cascaded) && w.lowPos == 0 && cascaded + 1 == w.Turn()
    requires w.slots[w.size + w.highPos] != []
    ensures HighHead(w) in w.loc
    ensures var e := w.expiry[HighHead(w)];
            Placed(w.start, w.size, w.curr, e, Mod(e - w.curr, w.size), cascaded)
  {
    hide NoDuplicates, Mod, Div, Placed;
    var t := HighHead(w);
    assert t in w.slots[w.size + w.highPos];
    HighSlotRound(w.start, w.size, w.curr, w.expiry[t], cascaded);
    LowSlotOfTurn(w.start, w.size, w.curr, w.expiry[t], cascaded + 1, cascaded);
  }

  lemma MoveDownKeepsInv(w: Wheel, cascaded: int)
    requires InvAt(w, cascaded) && w.lowPos == 0 && cascaded + 1 == w.Turn()
    requires w.slots[w.size + w.highPos] != []
    ensures InvAt(MoveDown(w), cascaded)
  {
    hide NoDuplicates, Consistent, Mod, Div, Placed, AllPlaced, Without;
    HighHeadPlaced(w, cascaded);
    var t := HighHead(w);
    UnlinkKeepsInv(w, t, cascaded);
    LinkKeepsInv(Unlink(w, t), t, Mod(w.expiry[t] - w.curr, w.size), cascaded);
  }

  lemma {:induction false} CascadeKeepsInv(w: Wheel, cascaded: int)
    requires InvAt(w, cascaded) && w.lowPos == 0 && cascaded + 1 == w.Turn()
    ensures InvAt(Cascade(w), cascaded)
    decreases |w.slots[w.size + w.highPos]|
  {
    hide NoDuplicates, Consistent, Mod, Div, Placed, AllPlaced, MoveDown;
    if w.slots[w.size + w.highPos] != [] {
      MoveDownShape(w);
      MoveDownKeepsInv(w, cascaded);
      CascadeKeepsInv(MoveDown(w), cascaded);
    }
  }

  /** Once the high slot under the cursor is empty, one more turn counts as cascaded. */
  lemma EmptyHighSlot(w: Wheel, cascaded: int)
    requires InvAt(w, cascaded) && w.slots[w.size + w.highPos] == []
    ensures InvAt(w.(highPos := Mod(w.highPos + 1, w.size)), cascaded + 1)
  {
    hide NoDuplicates, Mod, Div, Placed;
    CursorStep(cascaded, w.size);
    forall t | t in w.loc
      ensures Placed(w.start, w.size, w.curr, w.expiry[t], w.loc[t], cascaded + 1)
    {
      assert t in w.slots[w.loc[t]];
      OtherHighSlot(w.start, w.size, w.curr, w.expiry[t], w.loc[t], cascaded);
    }
  }

  /** Moving the low cursor off an empty slot keeps every timer correctly placed. */
  lemma AdvanceCursor(w: Wheel)
    requires Inv(w) && w.slots[w.lowPos] == []
    ensures InvAt(w.(curr := w.curr + 1, lowPos := Mod(w.lowPos + 1, w.size)), w.Turn())
    ensures Mod(w.lowPos + 1, w.size) == 0 ==>
              w.(curr := w.curr + 1).Turn() == w.Turn() + 1 && w.lowPos + 1 == w.size
    ensures Mod(w.lowPos + 1, w.size) != 0 ==>
              w.(curr := w.curr + 1).Turn() == w.Turn() && Mod(w.lowPos + 1, w.size) == w.lowPos + 1
  {
    hide NoDuplicates, Mod, Div, Placed;
    CursorStep(w.curr - w.start, w.size);
    assert w.curr - w.start + 1 == w.curr + 1 - w.start;
    forall t | t in w.loc
      ensures Placed(w.start, w.size, w.curr + 1, w.expiry[t], w.loc[t], w.Turn())
    {
      assert t in w.slots[w.loc[t]];
      PlacedNextTick(w.start, w.size, w.curr, w.expiry[t], w.loc[t], w.Turn());
    }
  }

  lemma AdvanceKeepsInv(w: Wheel)
    requires Inv(w) && w.slots[w.lowPos] == []
    ensures Inv(Advance(w))
  {
    hide Placed, AllPlaced, NoDuplicates, Consistent, Mod, Div;
    AdvanceCursor(w);
    var w1 := w.(curr := w.curr + 1, lowPos := Mod(w.lowPos + 1, w.size));
    if w1.lowPos == 0 {
      CascadeKeepsInv(w1, w.Turn());
      EmptyHighSlot(Cascade(w1), w.Turn());
    }
  }

  lemma AdvanceFrame(w: Wheel)
    requires Inv(w) && w.slots[w.lowPos] == []
    ensures Advance(w).curr == w.curr + 1
    ensures Advance(w).expiry == w.expiry && Advance(w).loc.Keys == w.loc.Keys
    ensures Advance(w).next == w.next && Advance(w).size == w.size && Advance(w).start == w.start
    ensures NextInv(w) ==> NextInv(Advance(w))
  {
    hide Placed, AllPlaced, NoDuplicates, Consistent, Mod, Div;
    AdvanceCursor(w);
  }
}
