/** Division, remainder and machine-integer facts behind the timer wheel's cursors and slots. */
module WheelArithmetic {
  import opened Division

  /** The value a C++ `int` keeps of an unbounded integer: the low 32 bits, as a signed number. */
  function Int32(x: int): (r: int)
    ensures -0x8000_0000 <= r < 0x8000_0000
    ensures (x - r) % 0x1_0000_0000 == 0
    ensures -0x8000_0000 <= x < 0x8000_0000 ==> r == x
  {
    (x + 0x8000_0000) % 0x1_0000_0000 - 0x8000_0000
  }

  /** The narrowed value is in `1 ..= m` exactly when the low 32 bits are. */
  lemma Int32Range(x: int, m: int)
    requires m < 0x8000_0000
    ensures 1 <= Int32(x) <= m <==> 1 <= x % 0x1_0000_0000 <= m
  {
    var q, r := x / 0x1_0000_0000, x % 0x1_0000_0000;
    if r < 0x8000_0000 {
      DivModUnique(x + 0x8000_0000, 0x1_0000_0000, q, r + 0x8000_0000);
    } else {
      DivModUnique(x + 0x8000_0000, 0x1_0000_0000, q + 1, r - 0x8000_0000);
    }
  }

  /** The value an `int16_t` keeps of an unbounded integer. */
  function Int16(x: int): int {
    (x + 0x8000) % 0x1_0000 - 0x8000
  }

  function Pow2(n: nat): (r: nat)
    ensures r >= 1
  {
    if n == 0 then 1 else 2 * Pow2(n - 1)
  }

  lemma {:induction false} Pow2Monotone(m: nat, n: nat)
    requires m <= n
    ensures Pow2(m) <= Pow2(n)
    decreases n
  {
    if m < n {
      Pow2Monotone(m, n - 1);
    }
  }

  lemma Pow2Of14()
    ensures Pow2(14) == 0x4000 && Pow2(15) == 0x8000
  {
    assert Pow2(3) == 8;
    assert Pow2(6) == 64;
    assert Pow2(9) == 512;
    assert Pow2(12) == 4096;
  }

  /** A 16-bit slot count is the power of two it is meant to be for up to 14 bits, and for no more. */
  lemma SlotSizeFits(bits: nat)
    ensures Int16(Pow2(bits)) == Pow2(bits) <==> bits <= 14
    ensures bits <= 14 ==> Pow2(bits) <= 0x4000
  {
    Pow2Of14();
    if bits <= 14 {
      Pow2Monotone(bits, 14);
    } else {
      Pow2Monotone(15, bits);
    }
  }

  /** Two numbers less than a turn apart with the same remainder are equal. */
  lemma RemainderInjective(a: int, b: int, s: int)
    requires s > 0 && -s < a - b < s && a % s == b % s
    ensures a == b
  {
    var k := a / s - b / s;
    assert a == s * (a / s) + a % s && b == s * (b / s) + b % s;
    assert a - b == s * k;
    NonzeroMultiple(k, s);
  }

  /** One step of a cursor that counts modulo `s`, and when it wraps. */
  lemma Successor(x: int, s: int)
    requires s > 0
    ensures (x + 1) % s == (x % s + 1) % s
    ensures (x + 1) % s == 0 ==> (x + 1) / s == x / s + 1 && x + 1 == (x / s + 1) * s
    ensures (x + 1) % s != 0 ==> (x + 1) / s == x / s && (x + 1) % s == x % s + 1
  {
    var q, r := x / s, x % s;
    assert x == s * q + r;
    if r + 1 == s {
      assert x + 1 == (q + 1) * s + 0;
      DivModUnique(x + 1, s, q + 1, 0);
      DivModUnique(r + 1, s, 1, 0);
    } else {
      assert x + 1 == q * s + (r + 1);
      DivModUnique(x + 1, s, q, r + 1);
      DivModUnique(r + 1, s, 0, r + 1);
    }
  }

  /** A number in `[k * s, (k + 1) * s)` has quotient `k`; and conversely. */
  lemma QuotientBounds(x: int, s: int)
    requires s > 0
    ensures (x / s) * s <= x < (x / s + 1) * s
    ensures x == (x / s) * s + x % s
    ensures 0 <= x % s < s
  {
    assert x == s * (x / s) + x % s;
  }

  lemma QuotientMonotone(x: int, y: int, s: int)
    requires s > 0 && x <= y
    ensures x / s <= y / s
  {
    QuotientBounds(x, s);
    QuotientBounds(y, s);
    NonzeroMultiple(x / s - y / s, s);
    assert (x / s - y / s) * s == (x / s) * s - (y / s) * s;
  }

  // ------------------------------------------------------------ cursors

  /** `x >> bits`, for a slot count `s` of 2 to the `bits`. */
  function Div(x: int, s: int): int
    requires s > 0
  {
    x / s
  }

  /** `x & mask`. */
  function Mod(x: int, s: int): (r: int)
    requires s > 0
    ensures 0 <= r < s
  {
    x % s
  }

  /** A cursor that counts modulo `s`, one step on. */
  lemma CursorStep(x: int, s: int)
    requires s > 0
    ensures Mod(x + 1, s) == Mod(Mod(x, s) + 1, s)
    ensures Mod(Mod(x, s) + 1, s) == 0 ==> Div(x + 1, s) == Div(x, s) + 1 && Mod(x, s) + 1 == s
    ensures Mod(Mod(x, s) + 1, s) != 0 ==> Div(x + 1, s) == Div(x, s) && Mod(Mod(x, s) + 1, s) == Mod(x, s) + 1
  {
    Successor(x, s);
    Successor(x % s, s);
  }

  // ------------------------------------------------------------ slots

  /**
   Where a linked timer expiring at `e` may be, on a wheel of `size` slots per level that
   started at `start` and stands at `curr`.  `cascaded` is the number of turns whose
   timers have been moved down from the high array.
   */
  ghost predicate Placed(start: int, size: int, curr: int, e: int, slot: int, cascaded: int)
    requires size > 0
  {
    if slot < size then
      curr <= e < curr + size && slot == Mod(e - start, size)
    else
      && cascaded + 1 <= Div(e - start, size) <= cascaded + size
      && slot - size == Mod(Div(e - start, size) - 1, size)
  }

  /** The slot `add_timer` picks for an interval it has accepted. */
  function SlotFor(size: int, lowPos: int, highPos: int, interval: int): (slot: int)
    requires size > 0
    ensures 0 <= slot < 2 * size
  {
    if interval >= size then
      size + Mod(Div(interval + lowPos, size) - 1 + highPos, size)
    else
      Mod(interval + lowPos, size)
  }

  /** `add_timer` puts an interval in `1 ..= size * size` exactly where the invariant says. */
  lemma SlotForPlaces(start: int, size: int, curr: int, e: int, lowPos: int, highPos: int)
    requires size > 0
    requires lowPos == Mod(curr - start, size) && highPos == Mod(Div(curr - start, size), size)
    requires 1 <= e - curr <= size * size
    ensures Placed(start, size, curr, e, SlotFor(size, lowPos, highPos, e - curr), Div(curr - start, size))
    ensures SlotFor(size, lowPos, highPos, e - curr) != lowPos
  {
    if e - curr >= size {
      SlotForHigh(start, size, curr, e, lowPos, highPos);
    } else {
      SlotForLow(start, size, curr, e, lowPos);
    }
  }

  lemma SlotForLow(start: int, size: int, curr: int, e: int, lowPos: int)
    requires size > 0
    requires lowPos == Mod(curr - start, size)
    requires 1 <= e - curr < size
    ensures Mod(e - curr + lowPos, size) == Mod(e - start, size) != lowPos
  {
    var q := Div(curr - start, size);
    QuotientBounds(curr - start, size);
    AddTurns(e - start, size, -q);
    assert e - curr + lowPos == e - start + (-q) * size;
    if Mod(e - start, size) == lowPos {
      RemainderInjective(e - start, curr - start, size);
    }
  }

  /** The turn of a timer, counted from the current one. */
  lemma TurnsAhead(start: int, size: int, curr: int, e: int)
    requires size > 0 && size <= e - curr <= size * size
    ensures var ahead := Div(e - curr + Mod(curr - start, size), size);
            1 <= ahead <= size && ahead == Div(e - start, size) - Div(curr - start, size)
  {
    var q := Div(curr - start, size);
    QuotientBounds(curr - start, size);
    AddTurns(e - start, size, -q);
    assert e - curr + Mod(curr - start, size) == e - start + (-q) * size;
    HighTurns(e - curr, Mod(curr - start, size), size);
  }

  lemma SlotForHigh(start: int, size: int, curr: int, e: int, lowPos: int, highPos: int)
    requires size > 0
    requires lowPos == Mod(curr - start, size) && highPos == Mod(Div(curr - start, size), size)
    requires size <= e - curr <= size * size
    ensures Placed(start, size, curr, e, size + Mod(Div(e - curr + lowPos, size) - 1 + highPos, size), Div(curr - start, size))
  {
    var q, round := Div(curr - start, size), Div(e - start, size);
    TurnsAhead(start, size, curr, e);
    HighSlotOf(q, round, size);
  }

  lemma HighSlotOf(q: int, round: int, size: int)
    requires size > 0
    ensures Mod(round - q - 1 + Mod(q, size), size) == Mod(round - 1, size)
  {
    QuotientBounds(q, size);
    AddTurns(round - 1, size, -(q / size));
    assert round - q - 1 + Mod(q, size) == round - 1 + (-(q / size)) * size;
  }

  lemma HighTurns(interval: int, pos: int, s: int)
    requires s > 0 && 0 <= pos < s <= interval <= s * s
    ensures 1 <= (interval + pos) / s <= s
  {
    QuotientMonotone(s, interval + pos, s);
    DivModUnique(s, s, 1, 0);
    QuotientMonotone(interval + pos, s * s + (s - 1), s);
    DivModUnique(s * s + (s - 1), s, s, s - 1);
  }

  /** The timers of the high slot under the cursor are those of the turn after the last cascaded. */
  lemma HighSlotRound(start: int, size: int, curr: int, e: int, cascaded: int)
    requires size > 0 && Placed(start, size, curr, e, size + Mod(cascaded, size), cascaded)
    ensures Div(e - start, size) == cascaded + 1
  {
    RemainderInjective(Div(e - start, size) - 1, cascaded, size);
  }

  /** Any other high slot holds timers of a turn after that. */
  lemma OtherHighSlot(start: int, size: int, curr: int, e: int, slot: int, cascaded: int)
    requires size > 0 && Placed(start, size, curr, e, slot, cascaded)
    requires slot != size + Mod(cascaded, size)
    ensures Placed(start, size, curr, e, slot, cascaded + 1)
  {
  }

  /** At the start of a turn, a timer of that turn belongs in low slot `e - curr`. */
  lemma LowSlotOfTurn(start: int, size: int, curr: int, e: int, turn: int, cascaded: int)
    requires size > 0
    requires Mod(curr - start, size) == 0 && Div(curr - start, size) == turn
    requires Div(e - start, size) == turn
    ensures 0 <= Mod(e - curr, size) < size
    ensures Placed(start, size, curr, e, Mod(e - curr, size), cascaded)
  {
    QuotientBounds(e - start, size);
    QuotientBounds(curr - start, size);
    AddTurns(e - start, size, -turn);
    assert e - curr == e - start + (-turn) * size;
  }

  /** A timer that does not expire at `curr` stays correctly placed when the clock ticks. */
  lemma PlacedNextTick(start: int, size: int, curr: int, e: int, slot: int, cascaded: int)
    requires size > 0 && Placed(start, size, curr, e, slot, cascaded)
    requires slot != Mod(curr - start, size)
    ensures Placed(start, size, curr + 1, e, slot, cascaded)
  {
  }

  /** A timer in the low slot under the cursor expires now; one in any other low slot, later. */
  lemma CurrentSlotExpiresNow(start: int, size: int, curr: int, e: int, slot: int, cascaded: int)
    requires size > 0 && slot < size && Placed(start, size, curr, e, slot, cascaded)
    ensures slot == Mod(curr - start, size) <==> e == curr
  {
    if slot == Mod(curr - start, size) {
      RemainderInjective(e - start, curr - start, size);
    }
  }

  /** A timer in a high slot expires in a later turn. */
  lemma HighSlotExpiresLater(start: int, size: int, curr: int, e: int, slot: int)
    requires size > 0 && slot >= size && Placed(start, size, curr, e, slot, Div(curr - start, size))
    ensures e >= curr - Mod(curr - start, size) + size
  {
    QuotientBounds(e - start, size);
    QuotientBounds(curr - start, size);
    MulMonotone(Div(curr - start, size) + 1, Div(e - start, size), size);
  }

  /** How long until a timer in a low slot expires. */
  lemma LowSlotDelay(start: int, size: int, curr: int, e: int, slot: int, cascaded: int)
    requires size > 0 && slot < size && Placed(start, size, curr, e, slot, cascaded)
    ensures slot >= Mod(curr - start, size) ==> e == curr + slot - Mod(curr - start, size)
    ensures slot < Mod(curr - start, size) ==> e == curr + slot - Mod(curr - start, size) + size
  {
    var pos := Mod(curr - start, size);
    var e' := if slot >= pos then curr + slot - pos else curr + slot - pos + size;
    QuotientBounds(curr - start, size);
    var q := (curr - start) / size;
    AddTurns(slot, size, q);
    AddTurns(slot, size, q + 1);
    assert e' - start == slot + (if slot >= pos then q else q + 1) * size;
    DivModUnique(slot, size, 0, slot);
    RemainderInjective(e - start, e' - start, size);
  }

  /** Cursor arithmetic that stays within a turn. */
  lemma WithinTurn(pos: int, n: int, high: int, size: int)
    requires size > 0 && 0 <= pos && 0 <= n && pos + n < size && 0 <= high < size
    ensures Mod(pos + n, size) == pos + n && Div(pos + n, size) == 0
    ensures Mod(high + Div(pos + n, size), size) == high
  {
    DivModUnique(pos + n, size, 0, pos + n);
    DivModUnique(high, size, 0, high);
  }

  /** A correctly placed timer is due within `size * size + size` of now, and not overdue. */
  lemma PlacedIsNear(start: int, size: int, curr: int, e: int, slot: int)
    requires size > 0 && Placed(start, size, curr, e, slot, Div(curr - start, size))
    ensures 0 <= e - curr < size * size + size
  {
    var q := Div(curr - start, size);
    QuotientBounds(e - start, size);
    QuotientBounds(curr - start, size);
    if slot >= size {
      MulMonotone(q + 1, Div(e - start, size), size);
      MulMonotone(Div(e - start, size) + 1, q + size + 1, size);
      assert (q + size + 1) * size == q * size + size * size + size;
    } else {
      assert size * size >= 0;
    }
  }
}
