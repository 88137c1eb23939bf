/**
 The bounded ring queue (framework/circular_queue.h): alone, and shared by one producer and
 one consumer whose steps interleave.
 */
module CircularQueues {

  const MIN_SIZE := 4

  // ------------------------------------------------------------ the ring as a value

  datatype Ring<T> = Ring(slots: seq<T>, front: int, back: int)

  ghost predicate Shape<T>(r: Ring<T>) {
    |r.slots| >= 2 && 0 <= r.front < |r.slots| && 0 <= r.back < |r.slots|
  }

  /** The next index, `(i + 1) % size`. */
  function Next(i: int, size: int): (j: int)
    requires 0 <= i < size
    ensures j == if i + 1 == size then 0 else i + 1
  {
    (i + 1) % size
  }

  /** The items held, oldest first: from `back` up to `front`, around the end. */
  function Held<T>(r: Ring<T>): seq<T>
    requires Shape(r)
  {
    if r.back <= r.front then r.slots[r.back..r.front] else r.slots[r.back..] + r.slots[..r.front]
  }

  predicate Empty<T>(r: Ring<T>) { r.front == r.back }

  predicate Full<T>(r: Ring<T>)
    requires Shape(r)
  {
    Next(r.front, |r.slots|) == r.back
  }

  /** Copy the element, then advance. */
  function Pushed<T>(r: Ring<T>, x: T): Ring<T>
    requires Shape(r)
  {
    Ring(r.slots[r.front := x], Next(r.front, |r.slots|), r.back)
  }

  function Popped<T>(r: Ring<T>): Ring<T>
    requires Shape(r)
  {
    r.(back := Next(r.back, |r.slots|))
  }

  /** The tests are about the number of items, and one slot is never used. */
  lemma FullAndEmpty<T>(r: Ring<T>)
    requires Shape(r)
    ensures Empty(r) <==> Held(r) == []
    ensures Full(r) <==> |Held(r)| == |r.slots| - 1
    ensures |Held(r)| <= |r.slots| - 1
  {
  }

  /** A push in room adds the item at the end. */
  lemma PushAppends<T>(r: Ring<T>, x: T)
    requires Shape(r) && !Full(r)
    ensures Shape(Pushed(r, x)) && Held(Pushed(r, x)) == Held(r) + [x]
  {
  }

  /** A pop takes the item at the start, which is the one at `back`. */
  lemma PopTakesFirst<T>(r: Ring<T>)
    requires Shape(r) && !Empty(r)
    ensures Shape(Popped(r)) && Held(r) == [r.slots[r.back]] + Held(Popped(r))
  {
  }

  /** Writing the slot at `front` changes no item held. */
  lemma SlotIsFree<T>(r: Ring<T>, x: T)
    requires Shape(r)
    ensures Held(r.(slots := r.slots[r.front := x])) == Held(r)
  {
  }

  // ------------------------------------------------------------ the queue

  class CircularQueue<T(0)> {
    var maxsize: int
    var itemlist: array?<T>
    var front: int
    var back: int

    ghost function Contents(): Ring<T>
      reads this, itemlist
      requires itemlist != null
    {
      Ring(itemlist[..], front, back)
    }

    /** Without items the indices are equal; with items there are at least four slots. */
    ghost predicate Valid()
      reads this, itemlist
    {
      && maxsize >= 1
      && (itemlist == null ==> front == back == 0)
      && (itemlist != null ==> itemlist.Length == maxsize >= MIN_SIZE && Shape(Contents()))
    }

    constructor ()
      ensures Valid() && itemlist == null && maxsize == 1
    {
      maxsize, itemlist, front, back := 1, null, 0, 0;
    }

    method Init(maxsize: int) returns (code: int)
      requires Valid()
      modifies this
      ensures Valid() && code == if old(itemlist) != null || maxsize < 4 then -1 else 0
      ensures code == 0 ==> itemlist != null && fresh(itemlist) && this.maxsize == maxsize && Held(Contents()) == []
      ensures code == -1 ==> itemlist == old(itemlist) && (this.maxsize, front, back) == old((this.maxsize, front, back))
    {
      if itemlist != null || maxsize < MIN_SIZE {
        return -1;
      }
      itemlist := new T[maxsize];
      this.maxsize := maxsize;
      return 0;
    }

    /** The size is kept, so a later `push` must wait for another `init`. */
    method Fini()
      requires Valid()
      modifies this
      ensures Valid() && itemlist == null && maxsize == old(maxsize)
    {
      if itemlist != null {
        itemlist := null;
        front, back := 0, 0;
      }
    }

    method IsEmpty() returns (r: bool)
      requires Valid()
      ensures r <==> itemlist == null || Held(Contents()) == []
    {
      if itemlist != null {
        FullAndEmpty(Contents());
      }
      r := front == back;
    }

    method IsFull() returns (r: bool)
      requires Valid()
      ensures itemlist != null ==> (r <==> |Held(Contents())| == maxsize - 1)
      ensures itemlist == null ==> (r <==> maxsize == 1)
    {
      if itemlist != null {
        FullAndEmpty(Contents());
      }
      r := (front + 1) % maxsize == back;
    }

    /** Allowed on a queue that was never initialised, but not on one that was cleaned up. */
    method Push(element: T) returns (code: int)
      requires Valid() && (itemlist == null ==> maxsize == 1)
      modifies this`front, itemlist
      ensures Valid() && itemlist == old(itemlist)
      ensures code == if itemlist == null || |old(Held(Contents()))| == maxsize - 1 then -1 else 0
      ensures code == 0 ==> Held(Contents()) == old(Held(Contents())) + [element] && Contents() == Pushed(old(Contents()), element)
      ensures code == -1 && itemlist != null ==> Contents() == old(Contents())
    {
      var full := IsFull();
      if full {
        return -1;
      }
      ghost var r := Contents();
      FullAndEmpty(r);
      PushAppends(r, element);
      hide Held;
      itemlist[front] := element;
      front := (front + 1) % maxsize;
      code := 0;
      assert Contents() == Pushed(r, element);
    }

    method Pop() returns (code: int, element: T)
      requires Valid()
      modifies this`back
      ensures Valid()
      ensures code == if itemlist == null || old(Held(Contents())) == [] then -1 else 0
      ensures code == 0 ==> old(Held(Contents())) == [element] + Held(Contents()) && Contents() == Popped(old(Contents()))
      ensures code == -1 && itemlist != null ==> Contents() == old(Contents())
    {
      var empty := IsEmpty();
      if empty {
        code, element := -1, *;
        return;
      }
      ghost var r := Contents();
      FullAndEmpty(r);
      PopTakesFirst(r);
      hide Held;
      element := itemlist[back];
      back := (back + 1) % maxsize;
      code := 0;
      assert Contents() == Popped(r);
    }

    /** The slot of the oldest item. */
    method Back() returns (slot: int)
      requires Valid()
      ensures slot == -1 <==> itemlist == null || Held(Contents()) == []
      ensures slot != -1 ==> 0 <= slot < itemlist.Length && itemlist[slot] == Held(Contents())[0]
    {
      var empty := IsEmpty();
      if itemlist == null || empty {
        return -1;
      }
      PopTakesFirst(Contents());
      slot := back;
    }
  }

  // ------------------------------------------------------------ one producer and one consumer

  /** Where a `push` is: it has seen room for its element, or has copied it. */
  datatype Producer<T> = Idle | Checked(element: T) | Copied(element: T)

  /** Where a `pop` is: it has seen an item, or has copied it out. */
  datatype Consumer<T> = Idle | Checked | Copied(element: T)

  /** `pushed` and `popped` are the elements of the calls that came to their end. */
  datatype Shared<T> = Shared(ring: Ring<T>, producer: Producer<T>, consumer: Consumer<T>, pushed: seq<T>, popped: seq<T>)

  /** One step of either side; a copy into a slot may leave anything there before it is done. */
  datatype Action<T> =
    | PushCheck(element: T)
    | PushPartial(junk: T)
    | PushCopy
    | PushAdvance
    | PopCheck
    | PopCopy
    | PopAdvance

  /** A side takes its own next step only; any other step does nothing. */
  function Step<T>(s: Shared<T>, a: Action<T>): Shared<T>
    requires Shape(s.ring)
  {
    var r := s.ring;
    match a
    case PushCheck(x) =>
      if s.producer.Idle? && !Full(r) then s.(producer := Producer.Checked(x)) else s
    case PushPartial(junk) =>
      if s.producer.Checked? then s.(ring := r.(slots := r.slots[r.front := junk])) else s
    case PushCopy =>
      if s.producer.Checked? then
        s.(ring := r.(slots := r.slots[r.front := s.producer.element]), producer := Producer.Copied(s.producer.element))
      else s
    case PushAdvance =>
      if s.producer.Copied? then
        s.(ring := r.(front := Next(r.front, |r.slots|)), producer := Producer.Idle, pushed := s.pushed + [s.producer.element])
      else s
    case PopCheck =>
      if s.consumer.Idle? && !Empty(r) then s.(consumer := Consumer.Checked) else s
    case PopCopy =>
      if s.consumer.Checked? then s.(consumer := Consumer.Copied(r.slots[r.back])) else s
    case PopAdvance =>
      if s.consumer.Copied? then
        s.(ring := r.(back := Next(r.back, |r.slots|)), consumer := Consumer.Idle, popped := s.popped + [s.consumer.element])
      else s
  }

  /** Everything pushed was popped or is held, in order; what each side saw stays true. */
  ghost predicate Inv<T>(s: Shared<T>) {
    && Shape(s.ring)
    && s.pushed == s.popped + Held(s.ring)
    && (!s.producer.Idle? ==> !Full(s.ring))
    && (s.producer.Copied? ==> s.ring.slots[s.ring.front] == s.producer.element)
    && (!s.consumer.Idle? ==> !Empty(s.ring))
    && (s.consumer.Copied? ==> s.ring.slots[s.ring.back] == s.consumer.element)
  }

  lemma StepKeepsInv<T>(s: Shared<T>, a: Action<T>)
    requires Inv(s)
    ensures Inv(Step(s, a)) && |Step(s, a).ring.slots| == |s.ring.slots|
  {
    match a {
      case PushPartial(junk) => SlotIsFree(s.ring, junk);
      case PushCopy =>
        if s.producer.Checked? {
          SlotIsFree(s.ring, s.producer.element);
        }
      case PushAdvance => PushAdvances(s);
      case PopAdvance => PopAdvances(s);
      case _ =>
    }
  }

  lemma PushAdvances<T>(s: Shared<T>)
    requires Inv(s)
    ensures Inv(Step(s, PushAdvance))
  {
    hide Held, Next;
    if s.producer.Copied? {
      var r, x := s.ring, s.producer.element;
      PushAppends(r, x);
      PushLeavesItems(r, x);
      assert r.slots[r.front := x] == r.slots;
      assert Step(s, PushAdvance).ring == Pushed(r, x);
      Regroup(s.popped, Held(r), [x]);
    }
  }

  lemma PopAdvances<T>(s: Shared<T>)
    requires Inv(s)
    ensures Inv(Step(s, PopAdvance))
  {
    hide Held, Next;
    if s.consumer.Copied? {
      var r, x := s.ring, s.consumer.element;
      PopTakesFirst(r);
      PopLeavesRoom(r);
      assert Step(s, PopAdvance).ring == Popped(r);
      Regroup(s.popped, [x], Held(Popped(r)));
    }
  }

  /** A push in room leaves a queue with items. */
  lemma PushLeavesItems<T>(r: Ring<T>, x: T)
    requires Shape(r) && !Full(r)
    ensures !Empty(Pushed(r, x))
  {
  }

  /** A pop leaves a queue with room. */
  lemma PopLeavesRoom<T>(r: Ring<T>)
    requires Shape(r) && !Empty(r)
    ensures Shape(Popped(r)) && !Full(Popped(r))
  {
  }

  lemma Regroup<T>(x: seq<T>, y: seq<T>, z: seq<T>)
    ensures x + (y + z) == (x + y) + z
  {
    assert x + (y + z) == (x + y) + z;
  }

  /** The state after any interleaving of steps. */
  function Run<T>(s: Shared<T>, actions: seq<Action<T>>): (s': Shared<T>)
    requires Inv(s)
    ensures Inv(s') && |s'.ring.slots| == |s.ring.slots|
    decreases |actions|
  {
    if actions == [] then s
    else
      StepKeepsInv(s, actions[0]);
      Run(Step(s, actions[0]), actions[1..])
  }

  /** A queue as it is after `init`, whatever its fresh slots hold. */
  function Start<T>(slots: seq<T>): (s: Shared<T>)
    requires |slots| >= MIN_SIZE
    ensures Inv(s)
  {
    Shared(Ring(slots, 0, 0), Producer.Idle, Consumer.Idle, [], [])
  }

  /**
   From `init` on, under every interleaving: the popped items followed by the held ones are the
   pushed ones in order, at most size - 1 are held, the slot being written is not the one being
   read, and a copy that was read is the oldest item.
   */
  lemma SharedQueueIsSafe<T>(slots: seq<T>, actions: seq<Action<T>>)
    requires |slots| >= MIN_SIZE
    ensures var s := Run(Start(slots), actions);
            && s.pushed == s.popped + Held(s.ring)
            && |Held(s.ring)| <= |slots| - 1
            && (!s.producer.Idle? && !s.consumer.Idle? ==> s.ring.front != s.ring.back)
            && (s.consumer.Copied? ==> s.consumer.element == s.pushed[|s.popped|])
  {
    var s := Run(Start(slots), actions);
    FullAndEmpty(s.ring);
    if s.consumer.Copied? {
      PopTakesFirst(s.ring);
    }
  }

  /** A check refuses exactly when the queue is full, or empty, at that moment. */
  lemma ChecksAreExact<T>(s: Shared<T>, x: T)
    requires Inv(s)
    ensures s.producer.Idle? ==> (Step(s, PushCheck(x)).producer.Idle? <==> |Held(s.ring)| == |s.ring.slots| - 1)
    ensures s.consumer.Idle? ==> (Step(s, PopCheck).consumer.Idle? <==> Held(s.ring) == [])
  {
    FullAndEmpty(s.ring);
  }

  /** Steps of one side with nothing in between are the operation on the ring. */
  lemma UninterruptedSteps<T>(s: Shared<T>, x: T)
    requires Inv(s)
    ensures s.producer.Idle? && !Full(s.ring) ==>
      Run(s, [PushCheck(x), PushCopy, PushAdvance]) == s.(ring := Pushed(s.ring, x), pushed := s.pushed + [x])
    ensures s.consumer.Idle? && !Empty(s.ring) ==>
      Run(s, [PopCheck, PopCopy, PopAdvance]) ==
      s.(ring := Popped(s.ring), popped := s.popped + [s.ring.slots[s.ring.back]])
  {
    RunThree(s, PushCheck(x), PushCopy, PushAdvance);
    RunThree(s, PopCheck, PopCopy, PopAdvance);
  }

  lemma RunThree<T>(s: Shared<T>, a: Action<T>, b: Action<T>, c: Action<T>)
    requires Inv(s)
    ensures Inv(Step(s, a)) && Inv(Step(Step(s, a), b))
    ensures Run(s, [a, b, c]) == Step(Step(Step(s, a), b), c)
  {
    StepKeepsInv(s, a);
    StepKeepsInv(Step(s, a), b);
    StepKeepsInv(Step(Step(s, a), b), c);
    hide Step, Inv;
    RunFirst(s, a, [b, c]);
    RunFirst(Step(s, a), b, [c]);
    RunFirst(Step(Step(s, a), b), c, []);
    assert [a] + [b, c] == [a, b, c] && [b] + [c] == [b, c] && [c] + [] == [c];
  }

  lemma RunFirst<T>(s: Shared<T>, a: Action<T>, rest: seq<Action<T>>)
    requires Inv(s)
    ensures Inv(Step(s, a)) && Run(s, [a] + rest) == Run(Step(s, a), rest)
  {
    StepKeepsInv(s, a);
    hide Step, Inv;
    assert ([a] + rest)[0] == a && ([a] + rest)[1..] == rest;
  }
}
