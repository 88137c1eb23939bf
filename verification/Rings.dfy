/**
 Circular doubly linked lists as a pair of successor and predecessor tables over numbered
 cells.  Every list has a head of its own.
 */
module Rings {

  type Links = map<int, int>

  /** The number of the `i`-th list head: below those of all its members. */
  function Head(i: int): int { -1 - i }

  /** Head, members, head again: the cells met when walking once around. */
  function Walk(h: int, s: seq<int>): seq<int> { [h] + s + [h] }

  ghost predicate Joined(next: Links, prev: Links, a: int, b: int) {
    a in next && next[a] == b && b in prev && prev[b] == a
  }

  /** Walking around from `h` in either direction meets exactly the members `s`. */
  ghost predicate Ring(next: Links, prev: Links, h: int, s: seq<int>) {
    forall j :: 0 <= j <= |s| ==> Joined(next, prev, Walk(h, s)[j], Walk(h, s)[j + 1])
  }

  ghost predicate Distinct(s: seq<int>) {
    forall i, j :: 0 <= i < j < |s| ==> s[i] != s[j]
  }

  ghost predicate Members(h: int, s: seq<int>) {
    Distinct(s) && h !in s
  }

  /** `*_insert(prev, curr, next)` on the tables. */
  function InsertNext(next: Links, a: int, x: int, b: int): Links { next[a := x][x := b] }
  function InsertPrev(prev: Links, a: int, x: int, b: int): Links { prev[x := a][b := x] }

  /** `*_remove(x)` on the tables. */
  function RemoveNext(next: Links, a: int, x: int, b: int): Links { next[a := b] - {x} }
  function RemovePrev(prev: Links, a: int, x: int, b: int): Links { prev[b := a] - {x} }

  lemma WalkAt(h: int, s: seq<int>, j: int)
    requires 0 <= j <= |s| + 1
    ensures Walk(h, s)[j] == if 1 <= j <= |s| then s[j - 1] else h
  {
  }

  predicate AtEnd(s: seq<int>, i: int) { i == 0 || i == |s| + 1 }

  /** Cells at different places of a walk differ, up to its two ends. */
  lemma WalkApart(h: int, s: seq<int>, i: int, j: int)
    requires Members(h, s) && 0 <= i <= |s| + 1 && 0 <= j <= |s| + 1
    ensures Walk(h, s)[i] == Walk(h, s)[j] <==> i == j || (AtEnd(s, i) && AtEnd(s, j))
    ensures Walk(h, s)[i] == if 1 <= i <= |s| then s[i - 1] else h
  {
    WalkAt(h, s, i);
    WalkAt(h, s, j);
    assert 1 <= i <= |s| ==> s[i - 1] in s;
    assert 1 <= j <= |s| ==> s[j - 1] in s;
  }

  /** The predecessor of the head is the last member. */
  lemma HeadPrev(next: Links, prev: Links, h: int, s: seq<int>)
    requires Ring(next, prev, h, s)
    ensures h in prev && prev[h] == (if s == [] then h else s[|s| - 1])
    ensures h in next && next[h] == (if s == [] then h else s[0])
  {
    assert Joined(next, prev, Walk(h, s)[|s|], Walk(h, s)[|s| + 1]);
    assert Joined(next, prev, Walk(h, s)[0], Walk(h, s)[1]);
  }

  /** The neighbours of the member at `j`. */
  lemma MemberLinks(next: Links, prev: Links, h: int, s: seq<int>, j: int)
    requires Ring(next, prev, h, s) && Members(h, s) && 0 <= j < |s|
    ensures s[j] in next && s[j] in prev
    ensures next[s[j]] == (if j + 1 < |s| then s[j + 1] else h) != s[j]
    ensures prev[s[j]] == (if j > 0 then s[j - 1] else h) != s[j]
  {
    WalkAt(h, s, j);
    WalkAt(h, s, j + 1);
    WalkAt(h, s, j + 2);
    assert s[j] in s && (j + 1 < |s| ==> s[j + 1] in s) && (j > 0 ==> s[j - 1] in s);
    assert Joined(next, prev, Walk(h, s)[j], Walk(h, s)[j + 1]);
    assert Joined(next, prev, Walk(h, s)[j + 1], Walk(h, s)[j + 2]);
  }

  /** Linking a new cell before the head appends it to the ring. */
  lemma AppendRing(next: Links, prev: Links, h: int, s: seq<int>, x: int)
    requires Ring(next, prev, h, s) && Members(h, s) && x != h && x !in s
    ensures h in prev
    ensures Ring(InsertNext(next, prev[h], x, h), InsertPrev(prev, prev[h], x, h), h, s + [x])
    ensures Members(h, s + [x])
  {
    HeadPrev(next, prev, h, s);
    var a, s' := prev[h], s + [x];
    var next', prev' := InsertNext(next, a, x, h), InsertPrev(prev, a, x, h);
    forall j | 0 <= j <= |s'|
      ensures Joined(next', prev', Walk(h, s')[j], Walk(h, s')[j + 1])
    {
      WalkAt(h, s', j);
      WalkAt(h, s', j + 1);
      if j < |s| {
        WalkAt(h, s, j);
        WalkAt(h, s, j + 1);
        assert Joined(next, prev, Walk(h, s)[j], Walk(h, s)[j + 1]);
        assert s[j] in s && s[|s| - 1] in s && (j > 0 ==> s[j - 1] in s);
      } else {
        assert |s| > 0 ==> s[|s| - 1] in s;
      }
    }
  }

  /** Linking a new cell after the head puts it in front of the ring. */
  lemma PrependRing(next: Links, prev: Links, h: int, s: seq<int>, x: int)
    requires Ring(next, prev, h, s) && Members(h, s) && x != h && x !in s
    ensures h in next
    ensures Ring(InsertNext(next, h, x, next[h]), InsertPrev(prev, h, x, next[h]), h, [x] + s)
    ensures Members(h, [x] + s)
  {
    HeadPrev(next, prev, h, s);
    var b, s' := next[h], [x] + s;
    var next', prev' := InsertNext(next, h, x, b), InsertPrev(prev, h, x, b);
    forall j | 0 <= j <= |s'|
      ensures Joined(next', prev', Walk(h, s')[j], Walk(h, s')[j + 1])
    {
      WalkAt(h, s', j);
      WalkAt(h, s', j + 1);
      if j > 0 {
        assert Joined(next, prev, Walk(h, s)[j - 1], Walk(h, s)[j]);
        WalkApart(h, s, j - 1, 0);
        WalkApart(h, s, j, 1);
        assert s != [] ==> s[0] in s;
        assert 1 < j ==> s[j - 2] in s;
        assert j <= |s| ==> s[j - 1] in s;
      }
    }
  }

  /** Unlinking the member at `j` takes just it out of the ring. */
  lemma RemoveRing(next: Links, prev: Links, h: int, s: seq<int>, j: int)
    requires Ring(next, prev, h, s) && Members(h, s) && 0 <= j < |s|
    ensures s[j] in next && s[j] in prev
    ensures Ring(RemoveNext(next, prev[s[j]], s[j], next[s[j]]), RemovePrev(prev, prev[s[j]], s[j], next[s[j]]),
              h, s[..j] + s[j + 1..])
    ensures Members(h, s[..j] + s[j + 1..])
  {
    MemberLinks(next, prev, h, s, j);
    var x, s' := s[j], s[..j] + s[j + 1..];
    var a, b := prev[x], next[x];
    var next', prev' := RemoveNext(next, a, x, b), RemovePrev(prev, a, x, b);
    assert forall y :: y in s' ==> y in s;
    assert Distinct(s');
    assert a == Walk(h, s)[j] && b == Walk(h, s)[j + 2];
    forall k | 0 <= k <= |s'|
      ensures Joined(next', prev', Walk(h, s')[k], Walk(h, s')[k + 1])
    {
      WalkAt(h, s', k);
      WalkAt(h, s', k + 1);
      if k != j {
        var m := if k < j then k else k + 1;
        assert Joined(next, prev, Walk(h, s)[m], Walk(h, s)[m + 1]);
        WalkApart(h, s, m, j);
        WalkApart(h, s, m, j + 1);
        WalkApart(h, s, m + 1, j + 1);
        WalkApart(h, s, m + 1, j + 2);
      }
    }
  }

  /** Tables that agree on the cells of a ring have that ring. */
  lemma SameRing(next: Links, prev: Links, next': Links, prev': Links, h: int, s: seq<int>)
    requires Ring(next, prev, h, s)
    requires forall x :: x == h || x in s ==> x in next' && x in next && next'[x] == next[x]
    requires forall x :: x == h || x in s ==> x in prev' && x in prev && prev'[x] == prev[x]
    ensures Ring(next', prev', h, s)
  {
    forall j | 0 <= j <= |s|
      ensures Joined(next', prev', Walk(h, s)[j], Walk(h, s)[j + 1])
    {
      assert Joined(next, prev, Walk(h, s)[j], Walk(h, s)[j + 1]);
      WalkAt(h, s, j);
      WalkAt(h, s, j + 1);
    }
  }
}
