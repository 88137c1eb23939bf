/** A hash map whose entries are also listed by recency of use (public/lru_map_container.h). */
module LruMaps {

  import opened Rings

  type Key = x: int | -0x8000_0000 <= x < 0x8000_0000

  /** The list head's cell: not a key. */
  const HEAD := Head(0x8000_0000)

  // ------------------------------------------------------------ the recency order as a value

  datatype Op = Add(key: Key) | Get(key: Key, touch: bool) | Remove(key: Key) | Clear

  function Without(order: seq<int>, k: int): seq<int> {
    if order == [] then []
    else if order[0] == k then order[1..]
    else [order[0]] + Without(order[1..], k)
  }

  /** The order after an operation, most recent first. */
  function Step(order: seq<int>, op: Op): seq<int> {
    match op
    case Add(k) => if k in order then order else [k] + order
    case Get(k, touch) => if touch && k in order then [k] + Without(order, k) else order
    case Remove(k) => Without(order, k)
    case Clear => []
  }

  function Run(ops: seq<Op>): seq<int> {
    if ops == [] then [] else Step(Run(ops[..|ops| - 1]), ops[|ops| - 1])
  }

  lemma RunStep(ops: seq<Op>, op: Op)
    ensures Run(ops + [op]) == Step(Run(ops), op)
  {
    assert (ops + [op])[..|ops|] == ops;
  }

  /** When each key in the map was last added or touched: an effective operation is a use. */
  function Stamps(ops: seq<Op>): map<int, nat> {
    if ops == [] then map[]
    else
      var now := |ops| - 1;
      var stamps := Stamps(ops[..now]);
      match ops[now]
      case Add(k) => if k in stamps then stamps else stamps[k := now]
      case Get(k, touch) => if touch && k in stamps then stamps[k := now] else stamps
      case Remove(k) => stamps - {k}
      case Clear => map[]
  }

  /** The order lists the keys by their stamps, latest first. */
  ghost predicate ByRecency(order: seq<int>, stamps: map<int, nat>) {
    && (forall k :: k in order <==> k in stamps)
    && forall i, j :: 0 <= i < j < |order| ==> stamps[order[i]] > stamps[order[j]]
  }

  lemma {:induction false} WithoutAt(order: seq<int>, j: nat)
    requires Distinct(order) && j < |order|
    ensures Without(order, order[j]) == order[..j] + order[j + 1..]
  {
    if j > 0 {
      assert order[0] != order[j];
      WithoutAt(order[1..], j - 1);
      assert order[..j] == [order[0]] + order[1..][..j - 1];
    }
  }

  lemma WithoutIndex(order: seq<int>, j: nat, a: nat)
    requires Distinct(order) && j < |order|
    ensures |Without(order, order[j])| == |order| - 1
    ensures a < |order| - 1 ==> Without(order, order[j])[a] == order[if a < j then a else a + 1]
  {
    WithoutAt(order, j);
  }

  lemma {:induction false} WithoutAbsent(order: seq<int>, k: int)
    requires k !in order
    ensures Without(order, k) == order
  {
    if order != [] {
      WithoutAbsent(order[1..], k);
    }
  }

  lemma {:induction false} WithoutKeys(order: seq<int>, k: int)
    requires Distinct(order)
    ensures Distinct(Without(order, k)) && forall x :: x in Without(order, k) <==> x in order && x != k
  {
    if order != [] {
      var rest := order[1..];
      assert Distinct(rest) && order[0] !in rest && order == [order[0]] + rest;
      WithoutKeys(rest, k);
      DistinctFront(order[0], Without(rest, k));
    }
  }

  lemma DistinctFront(x: int, s: seq<int>)
    ensures Distinct(s) && x !in s ==> Distinct([x] + s)
  {
  }

  /** Taking a key out keeps the rest in order. */
  lemma WithoutKeepsRecency(order: seq<int>, stamps: map<int, nat>, k: int)
    requires ByRecency(order, stamps)
    ensures ByRecency(Without(order, k), stamps - {k})
  {
    RecencyDistinct(order, stamps);
    WithoutKeys(order, k);
    var rest := Without(order, k);
    hide Without, Distinct;
    if k in order {
      var j :| 0 <= j < |order| && order[j] == k;
      forall a, b | 0 <= a < b < |rest|
        ensures stamps[rest[a]] > stamps[rest[b]]
      {
        WithoutIndex(order, j, a);
        WithoutIndex(order, j, b);
      }
    } else {
      WithoutAbsent(order, k);
    }
  }

  lemma RecencyDistinct(order: seq<int>, stamps: map<int, nat>)
    requires ByRecency(order, stamps)
    ensures Distinct(order)
  {
  }

  /** A key used now goes in front. */
  lemma UseKeepsRecency(order: seq<int>, stamps: map<int, nat>, k: int, now: nat)
    requires ByRecency(order, stamps) && k !in order && forall x :: x in stamps ==> stamps[x] < now
    ensures ByRecency([k] + order, stamps[k := now])
  {
    var order' := [k] + order;
    forall i, j | 0 <= i < j < |order'|
      ensures order'[i] in stamps[k := now] && order'[j] in stamps[k := now]
      ensures stamps[k := now][order'[i]] > stamps[k := now][order'[j]]
    {
      assert order'[j] == order[j - 1] && order[j - 1] in order;
      assert i > 0 ==> order'[i] == order[i - 1] && order[i - 1] in order;
    }
  }

  /** Whatever the operations, the order is by last effective use. */
  lemma {:induction false} RunIsByRecency(ops: seq<Op>)
    ensures ByRecency(Run(ops), Stamps(ops)) && Distinct(Run(ops))
    ensures forall k :: k in Stamps(ops) ==> Stamps(ops)[k] < |ops|
  {
    if ops != [] {
      var now := |ops| - 1;
      var order, stamps, op := Run(ops[..now]), Stamps(ops[..now]), ops[now];
      RunIsByRecency(ops[..now]);
      match op {
        case Add(k) =>
          if k !in order {
            UseKeepsRecency(order, stamps, k, now);
          }
        case Get(k, touch) =>
          if touch && k in order {
            WithoutKeepsRecency(order, stamps, k);
            WithoutKeys(order, k);
            UseKeepsRecency(Without(order, k), stamps - {k}, k, now);
            assert (stamps - {k})[k := now] == stamps[k := now];
          }
        case Remove(k) =>
          WithoutKeepsRecency(order, stamps, k);
        case Clear =>
      }
      RecencyDistinct(Run(ops), Stamps(ops));
    }
  }

  /** The stamps leave no choice: one order only is by recency. */
  lemma {:induction false} RecencyDetermines(x: seq<int>, y: seq<int>, stamps: map<int, nat>)
    requires ByRecency(x, stamps) && ByRecency(y, stamps)
    ensures x == y
    decreases |x|
  {
    assert forall k :: k in x <==> k in y;
    assert (x != [] ==> x[0] in x) && (y != [] ==> y[0] in y);
    if x != [] {
      var k := x[0];
      var i, j :| 0 <= i < |x| && x[i] == y[0] && 0 <= j < |y| && y[j] == k;
      assert y[0] == k;
      RecencyDistinct(x, stamps);
      RecencyDistinct(y, stamps);
      WithoutKeepsRecency(x, stamps, k);
      WithoutKeepsRecency(y, stamps, k);
      RecencyDetermines(x[1..], y[1..], stamps - {k});
    }
  }

  /** No other key was last used before `k`. */
  ghost predicate LeastRecent(stamps: map<int, nat>, order: seq<int>, k: int) {
    k in stamps && forall x :: x in order && x != k ==> x in stamps && stamps[k] < stamps[x]
  }

  /** No other key was used after `k`. */
  ghost predicate MostRecent(stamps: map<int, nat>, order: seq<int>, k: int) {
    k in stamps && forall x :: x in order && x != k ==> x in stamps && stamps[x] < stamps[k]
  }

  /** The last key of the order is the least recently used one, the first the most recently used one. */
  lemma EndsOfRun(ops: seq<Op>, order: seq<int>, stamps: map<int, nat>)
    requires order == Run(ops) && stamps == Stamps(ops) && order != []
    ensures LeastRecent(stamps, order, order[|order| - 1]) && MostRecent(stamps, order, order[0])
  {
    RunIsByRecency(ops);
    hide Run, Stamps;
    assert order[0] in order && order[|order| - 1] in order;
  }

  // ------------------------------------------------------------ nodes

  class Node<T> {
    ghost const cell: int  // its key, or the head's number
    var next: Node?<T>
    var prev: Node?<T>
    var value: T

    constructor (ghost cell: int, value: T)
      ensures this.cell == cell && this.value == value && next == null && prev == null
    {
      this.cell := cell;
      next, prev, this.value := null, null, value;
    }

    /** `list_node_insert`. */
    static method Insert(p: Node<T>, c: Node<T>, n: Node<T>)
      requires c != p && c != n
      modifies p`next, c`next, c`prev, n`prev
      ensures p.next == c && c.prev == p && c.next == n && n.prev == c
    {
      p.next := c;
      c.prev := p;
      c.next := n;
      n.prev := c;
    }

    /** `list_node_remove`. */
    static method Remove(c: Node<T>)
      requires c.prev != null && c.next != null && c.prev != c && c.next != c
      modifies c`next, c`prev, c.prev`next, c.next`prev
      ensures c.next == null && c.prev == null
      ensures old(c.prev).next == old(c.next) && old(c.next).prev == old(c.prev)
    {
      c.prev.next := c.next;
      c.next.prev := c.prev;
      c.next, c.prev := null, null;
    }
  }

  /** The heap is what the tables say. */
  ghost predicate Mirror<T>(nodes: map<int, Node<T>>, next: Links, prev: Links, values: map<int, T>)
    reads nodes.Values
  {
    && (forall x :: x in next ==> next[x] in nodes)
    && (forall x :: x in prev ==> prev[x] in nodes)
    && (forall x :: x in nodes ==>
          && nodes[x].cell == x
          && nodes[x].next == (if x in next then nodes[next[x]] else null)
          && nodes[x].prev == (if x in prev then nodes[prev[x]] else null))
    && (forall x :: x in values ==> x in nodes && nodes[x].value == values[x])
  }

  lemma MirrorAt<T>(nodes: map<int, Node<T>>, next: Links, prev: Links, values: map<int, T>, x: int)
    requires Mirror(nodes, next, prev, values) && x in nodes
    ensures nodes[x].cell == x
    ensures if x in next then next[x] in nodes && nodes[next[x]].cell == next[x] && nodes[x].next == nodes[next[x]]
            else nodes[x].next == null
    ensures if x in prev then prev[x] in nodes && nodes[prev[x]].cell == prev[x] && nodes[x].prev == nodes[prev[x]]
            else nodes[x].prev == null
    ensures x in values ==> nodes[x].value == values[x]
  {
  }

  /** A new unlinked node joins the nodes. */
  lemma MirrorAdd<T>(nodes: map<int, Node<T>>, next: Links, prev: Links, values: map<int, T>, key: int, node: Node<T>)
    requires Mirror(nodes, next, prev, values) && key !in nodes && key !in next && key !in prev
    requires node.cell == key && node.next == null && node.prev == null
    ensures Mirror(nodes[key := node], next, prev, values[key := node.value])
  {
  }

  /** An unlinked node leaves the nodes. */
  lemma MirrorRemove<T>(nodes: map<int, Node<T>>, next: Links, prev: Links, values: map<int, T>, key: int)
    requires Mirror(nodes, next, prev, values) && key !in next && key !in prev
    requires (forall x :: x in next ==> next[x] != key) && forall x :: x in prev ==> prev[x] != key
    ensures Mirror(nodes - {key}, next, prev, values - {key})
  {
  }

  /** An insert keeps heap and tables in step. */
  method InsertNode<T>(ghost nodes: map<int, Node<T>>, ghost next: Links, ghost prev: Links, ghost values: map<int, T>,
                       p: Node<T>, c: Node<T>, n: Node<T>)
    requires Mirror(nodes, next, prev, values)
    requires p.cell in nodes && nodes[p.cell] == p && c.cell in nodes && nodes[c.cell] == c && n.cell in nodes && nodes[n.cell] == n
    requires c != p && c != n
    modifies nodes.Values
    ensures Mirror(nodes, InsertNext(next, p.cell, c.cell, n.cell), InsertPrev(prev, p.cell, c.cell, n.cell), values)
  {
    Node<T>.Insert(p, c, n);
  }

  /** So does a removal. */
  method RemoveNode<T>(ghost nodes: map<int, Node<T>>, ghost next: Links, ghost prev: Links, ghost values: map<int, T>,
                       c: Node<T>)
    requires Mirror(nodes, next, prev, values)
    requires c.cell in nodes && nodes[c.cell] == c && c.cell in next && c.cell in prev
    requires next[c.cell] != c.cell && prev[c.cell] != c.cell
    modifies nodes.Values
    ensures Mirror(nodes, RemoveNext(next, prev[c.cell], c.cell, next[c.cell]),
              RemovePrev(prev, prev[c.cell], c.cell, next[c.cell]), values)
  {
    Node<T>.Remove(c);
  }

  /** The ring, its keys and its tables. */
  datatype RingState = RingState(next: Links, prev: Links, order: seq<int>)

  ghost predicate Ringed(r: RingState) {
    && Ring(r.next, r.prev, HEAD, r.order) && Members(HEAD, r.order)
    && (forall x :: x in r.next <==> x == HEAD || x in r.order)
    && (forall x :: x in r.prev <==> x == HEAD || x in r.order)
  }

  function Linked(r: RingState, k: int): RingState
    requires HEAD in r.next
  {
    RingState(InsertNext(r.next, HEAD, k, r.next[HEAD]), InsertPrev(r.prev, HEAD, k, r.next[HEAD]), [k] + r.order)
  }

  function Unlinked(r: RingState, k: int): RingState
    requires k in r.next && k in r.prev
  {
    RingState(RemoveNext(r.next, r.prev[k], k, r.next[k]), RemovePrev(r.prev, r.prev[k], k, r.next[k]), Without(r.order, k))
  }

  lemma LinkedRinged(r: RingState, k: int)
    requires Ringed(r) && k != HEAD && k !in r.order
    ensures HEAD in r.next && r.next[HEAD] != k && Ringed(Linked(r, k))
  {
    PrependRing(r.next, r.prev, HEAD, r.order, k);
    HeadPrev(r.next, r.prev, HEAD, r.order);
    assert r.order != [] ==> r.order[0] in r.order;
  }

  lemma UnlinkedRing(r: RingState, k: int, j: nat)
    requires Ringed(r) && j < |r.order| && r.order[j] == k
    ensures k in r.next && k in r.prev
    ensures Ring(Unlinked(r, k).next, Unlinked(r, k).prev, HEAD, Unlinked(r, k).order) && Members(HEAD, Unlinked(r, k).order)
  {
    hide Ring, Walk, Without;
    RemoveRing(r.next, r.prev, HEAD, r.order, j);
    WithoutAt(r.order, j);
  }

  lemma UnlinkedRinged(r: RingState, k: int)
    requires Ringed(r) && k in r.order
    ensures k in r.next && k in r.prev && r.next[k] != k && r.prev[k] != k && Ringed(Unlinked(r, k))
  {
    hide Ring, Distinct, Walk, Without;
    var j :| 0 <= j < |r.order| && r.order[j] == k;
    UnlinkedRing(r, k, j);
    MemberLinks(r.next, r.prev, HEAD, r.order, j);
    WithoutKeys(r.order, k);
    assert j + 1 < |r.order| ==> r.order[j + 1] in r.order;
    assert j > 0 ==> r.order[j - 1] in r.order;
  }

  lemma EmptyRinged()
    ensures Ringed(RingState(map[HEAD := HEAD], map[HEAD := HEAD], []))
  {
    assert Walk(HEAD, []) == [HEAD, HEAD];
  }

  lemma WithoutOf(r: RingState, k: int)
    requires Ringed(r)
    ensures Distinct(r.order) && forall x :: x in Without(r.order, k) <==> x in r.order && x != k
  {
    WithoutKeys(r.order, k);
  }

  /** The map, the nodes and the order have the same keys. */
  ghost predicate Paired<T>(container: map<Key, Node<T>>, nodes: map<int, Node<T>>, head: Node<T>, values: map<int, T>, order: seq<int>) {
    && (forall k: int :: k in order ==> -0x8000_0000 <= k < 0x8000_0000)
    && (forall k: Key :: k in container <==> k in order)
    && values.Keys == container.Keys
    && (forall x :: x in nodes <==> x == HEAD || x in order)
    && nodes[HEAD] == head && (forall k :: k in container ==> k in nodes && nodes[k] == container[k])
  }

  lemma EmptyEntries<T>(head: Node<T>)
    requires head.cell == HEAD && head.next == head == head.prev
    ensures Paired(map[], map[HEAD := head], head, map[], [])
    ensures Mirror(map[HEAD := head], map[HEAD := HEAD], map[HEAD := HEAD], map[])
  {
  }

  lemma PairedAdd<T>(container: map<Key, Node<T>>, nodes: map<int, Node<T>>, head: Node<T>, values: map<int, T>, order: seq<int>,
                     key: Key, node: Node<T>, value: T)
    requires Paired(container, nodes, head, values, order)
    ensures Paired(container[key := node], nodes[key := node], head, values[key := value], [key] + order)
  {
  }

  lemma PairedRemove<T>(container: map<Key, Node<T>>, nodes: map<int, Node<T>>, head: Node<T>, values: map<int, T>, order: seq<int>,
                        key: Key, order': seq<int>)
    requires Paired(container, nodes, head, values, order)
    requires forall x :: x in order' <==> x in order && x != key
    ensures Paired(container - {key}, nodes - {key}, head, values - {key}, order')
  {
  }

  lemma PairedSame<T>(container: map<Key, Node<T>>, nodes: map<int, Node<T>>, head: Node<T>, values: map<int, T>, order: seq<int>,
                      order': seq<int>)
    requires Paired(container, nodes, head, values, order)
    requires forall x :: x in order' <==> x in order
    ensures Paired(container, nodes, head, values, order')
  {
  }

  lemma PairedAt<T>(container: map<Key, Node<T>>, nodes: map<int, Node<T>>, head: Node<T>, values: map<int, T>, order: seq<int>, x: int)
    requires Paired(container, nodes, head, values, order)
    ensures HEAD in nodes && nodes[HEAD] == head
    ensures x in values <==> x in order
    ensures x in container <==> x in order
    ensures x in container ==> x in nodes && nodes[x] == container[x]
    ensures x in nodes <==> x == HEAD || x in order
  {
  }

  /** The keys at the ends of the order have entries, and there are none only when the order is empty. */
  lemma PairedEnds<T>(container: map<Key, Node<T>>, nodes: map<int, Node<T>>, head: Node<T>, values: map<int, T>, order: seq<int>)
    requires Paired(container, nodes, head, values, order)
    ensures HEAD in nodes && nodes[HEAD] == head
    ensures order == [] <==> container == map[]
    ensures order != [] ==>
      var (first, last) := (order[0], order[|order| - 1]);
      && first in container && first in nodes && nodes[first] == container[first] && first in values
      && last in container && last in nodes && nodes[last] == container[last] && last in values
  {
    if order != [] {
      assert order[0] in order && order[|order| - 1] in order;
      var k: Key := order[0];
      assert k in container;
    } else {
      assert forall k :: k in container ==> k in order;
      assert container.Keys == {};
    }
  }

  /** No cell of a ring points outside of it. */
  lemma NoLinksTo(r: RingState, k: int)
    requires Ringed(r) && k != HEAD && k !in r.order
    ensures k !in r.next && k !in r.prev
    ensures (forall x :: x in r.next ==> r.next[x] != k) && forall x :: x in r.prev ==> r.prev[x] != k
  {
    forall x | x in r.order
      ensures r.next[x] != k && r.prev[x] != k
    {
      var j :| 0 <= j < |r.order| && r.order[j] == x;
      MemberLinks(r.next, r.prev, HEAD, r.order, j);
      assert j + 1 < |r.order| ==> r.order[j + 1] in r.order;
      assert j > 0 ==> r.order[j - 1] in r.order;
    }
    HeadPrev(r.next, r.prev, HEAD, r.order);
    assert r.order != [] ==> r.order[0] in r.order && r.order[|r.order| - 1] in r.order;
  }

  /** A cell outside a ring has no links. */
  lemma FreshCell(r: RingState, k: int)
    requires Ringed(r) && k != HEAD && k !in r.order
    ensures k !in r.next && k !in r.prev
  {
  }

  // ------------------------------------------------------------ the container

  class LruMap<T> {
    const head: Node<T>
    const defaultValue: T
    var container: map<Key, Node<T>>

    ghost var history: seq<Op>  // the operations so far
    ghost var ring: RingState
    ghost var nodes: map<int, Node<T>>
    ghost var values: map<int, T>

    /** The list and the map hold the same entries; `ring.order` lists their keys. */
    ghost predicate Listed()
      reads this, nodes.Values
    {
      Ringed(ring) && Paired(container, nodes, head, values, ring.order) && Mirror(nodes, ring.next, ring.prev, values)
    }

    /** And the order is the one that the operations so far lead to. */
    ghost predicate Valid()
      reads this, nodes.Values
    {
      Listed() && ring.order == Run(history)
    }

    constructor (defaultValue: T)
      ensures Valid() && history == [] && ring.order == [] && values == map[]
      ensures fresh(nodes.Values)
    {
      this.defaultValue := defaultValue;
      head := new Node(HEAD, defaultValue);
      container, values, history := map[], map[], [];
      nodes := map[HEAD := head];
      ring := RingState(map[HEAD := HEAD], map[HEAD := HEAD], []);
      new;
      head.next, head.prev := head, head;
      EmptyRinged();
    }

    /** `add` of a key and a value: a new entry in front, or null and no change when the key is there. */
    method Add(key: Key, value: T) returns (node: Node?<T>)
      requires Valid()
      modifies this, nodes.Values
      ensures Valid() && fresh(nodes.Values - old(nodes.Values))
      ensures history == old(history) + [Op.Add(key)] && ring.order == Step(old(ring.order), Op.Add(key))
      ensures node == null <==> key in old(values)
      ensures node == null ==> values == old(values)
      ensures node != null ==> values == old(values)[key := value] && container[key] == node
    {
      hide Mirror, Ringed, Paired, Run;
      PairedAt(container, nodes, head, values, ring.order, key);
      RunStep(history, Op.Add(key));
      history := history + [Op.Add(key)];
      if key in container {
        return null;
      }
      node := new Node(key, value);
      NewEntry(key, node);
    }

    /** Enter a new node into the map and link it in front. */
    method NewEntry(key: Key, node: Node<T>)
      requires Listed() && key !in container && node.cell == key && node !in nodes.Values
      requires node.next == null && node.prev == null
      modifies this, nodes.Values, node
      ensures Listed() && history == old(history) && nodes == old(nodes)[key := node] && container == old(container)[key := node]
      ensures ring.order == [key] + old(ring.order) && values == old(values)[key := old(node.value)]
    {
      hide Ringed, Paired;
      PairedAt(container, nodes, head, values, ring.order, key);
      PairedAdd(container, nodes, head, values, ring.order, key, node, node.value);
      FreshCell(ring, key);
      container := container[key := node];
      MirrorAdd(nodes, ring.next, ring.prev, values, key, node);
      hide Mirror;
      values := values[key := node.value];
      nodes := nodes[key := node];
      PairedAt(container, nodes, head, values, [key] + ring.order, HEAD);
      LinkFirst(node, key);
    }

    /** `list_node_insert(&m_head, node, m_head.m_next)`. */
    method LinkFirst(node: Node<T>, key: Key)
      requires Ringed(ring) && key !in ring.order && Mirror(nodes, ring.next, ring.prev, values)
      requires HEAD in nodes && nodes[HEAD] == head && key in nodes && nodes[key] == node
      modifies this`ring, nodes.Values
      ensures Ringed(ring) && ring.order == [key] + old(ring.order) && Mirror(nodes, ring.next, ring.prev, values)
    {
      ghost var r := ring;
      LinkedRinged(r, key);
      hide Mirror, Ringed, InsertNext, InsertPrev;
      MirrorAt(nodes, r.next, r.prev, values, HEAD);
      MirrorAt(nodes, r.next, r.prev, values, key);
      ring := Linked(r, key);
      InsertNode(nodes, r.next, r.prev, values, head, node, head.next);
    }

    /** `list_node_remove` of a listed node. */
    method UnlinkNode(node: Node<T>, key: Key)
      requires Ringed(ring) && key in ring.order && Mirror(nodes, ring.next, ring.prev, values)
      requires key in nodes && nodes[key] == node
      modifies this`ring, nodes.Values
      ensures Ringed(ring) && ring.order == Without(old(ring.order), key) && Mirror(nodes, ring.next, ring.prev, values)
    {
      ghost var r := ring;
      UnlinkedRinged(r, key);
      hide Mirror, Ringed, RemoveNext, RemovePrev;
      MirrorAt(nodes, r.next, r.prev, values, key);
      ring := Unlinked(r, key);
      RemoveNode(nodes, r.next, r.prev, values, node);
    }

    /** `get` and `get_node`: the node of a key, moved to the front when asked to touch it. */
    method Get(key: Key, lruTouch: bool) returns (node: Node?<T>)
      requires Valid()
      modifies this`ring, this`history, nodes.Values
      ensures Valid() && history == old(history) + [Op.Get(key, lruTouch)]
      ensures ring.order == Step(old(ring.order), Op.Get(key, lruTouch))
      ensures node == null <==> key !in values
      ensures node != null ==> node.value == values[key] && container[key] == node
    {
      hide Mirror, Ringed, Paired, Run;
      PairedAt(container, nodes, head, values, ring.order, key);
      RunStep(history, Op.Get(key, lruTouch));
      history := history + [Op.Get(key, lruTouch)];
      if key !in container {
        return null;
      }
      node := container[key];
      if lruTouch {
        Touch(node, key);
      }
      MirrorAt(nodes, ring.next, ring.prev, values, key);
    }

    /** Move a listed node to the front. */
    method Touch(node: Node<T>, key: Key)
      requires Listed() && key in ring.order && key in nodes && nodes[key] == node
      modifies this`ring, nodes.Values
      ensures Listed() && ring.order == [key] + Without(old(ring.order), key)
    {
      hide Mirror, Ringed, Paired, Without, Distinct, Run;
      WithoutOf(ring, key);
      PairedAt(container, nodes, head, values, ring.order, key);
      PairedSame(container, nodes, head, values, ring.order, [key] + Without(ring.order, key));
      UnlinkNode(node, key);
      LinkFirst(node, key);
    }

    /** `remove`: the entry, if there is one, leaves the list and the map. */
    method Remove(key: Key)
      requires Valid()
      modifies this, nodes.Values
      ensures Valid() && history == old(history) + [Op.Remove(key)]
      ensures ring.order == Step(old(ring.order), Op.Remove(key))
      ensures values == old(values) - {key} && nodes.Values <= old(nodes.Values)
    {
      hide Mirror, Ringed, Paired, Run;
      WithoutOf(ring, key);
      PairedAt(container, nodes, head, values, ring.order, key);
      RunStep(history, Op.Remove(key));
      history := history + [Op.Remove(key)];
      if key in container {
        ghost var order := ring.order;
        UnlinkNode(container[key], key);
        PairedRemove(container, nodes, head, values, order, key, ring.order);
        NoLinksTo(ring, key);
        MirrorRemove(nodes, ring.next, ring.prev, values, key);
        container := container - {key};
        nodes := nodes - {key};
        values := values - {key};
      } else {
        WithoutAbsent(ring.order, key);
        assert values - {key} == values;
      }
    }

    method Clear()
      requires Valid()
      modifies this, head
      ensures Valid() && history == old(history) + [Op.Clear]
      ensures ring.order == Step(old(ring.order), Op.Clear) && values == map[]
    {
      hide Run, Mirror, Ringed, Paired;
      PairedAt(container, nodes, head, values, ring.order, HEAD);
      MirrorAt(nodes, ring.next, ring.prev, values, HEAD);
      RunStep(history, Op.Clear);
      history := history + [Op.Clear];
      head.next, head.prev := head, head;
      container, values := map[], map[];
      nodes := map[HEAD := head];
      ring := RingState(map[HEAD := HEAD], map[HEAD := HEAD], []);
      EmptyRinged();
      EmptyEntries(head);
    }

    /** The least recently used entry: no other was last added or touched before it. */
    method LruTail() returns (node: Node?<T>)
      requires Valid()
      ensures node == null <==> container == map[]
      ensures node != null ==>
        var k := ring.order[|ring.order| - 1];
        && k in container && node == container[k] && node.value == values[k]
        && LeastRecent(Stamps(history), ring.order, k)
    {
      hide Mirror, Paired, Run, Stamps, LeastRecent, MostRecent;
      HeadPrev(ring.next, ring.prev, HEAD, ring.order);
      hide Ringed, Ring;
      PairedEnds(container, nodes, head, values, ring.order);
      MirrorAt(nodes, ring.next, ring.prev, values, HEAD);
      if head == head.prev {
        return null;
      }
      node := head.prev;
      MirrorAt(nodes, ring.next, ring.prev, values, ring.prev[HEAD]);
      EndsOfRun(history, ring.order, Stamps(history));
    }

    /** The most recently used entry: no other was added or touched since. */
    method LruHead() returns (node: Node?<T>)
      requires Valid()
      ensures node == null <==> container == map[]
      ensures node != null ==>
        var k := ring.order[0];
        && k in container && node == container[k] && node.value == values[k]
        && MostRecent(Stamps(history), ring.order, k)
    {
      hide Mirror, Paired, Run, Stamps, LeastRecent, MostRecent;
      HeadPrev(ring.next, ring.prev, HEAD, ring.order);
      hide Ringed, Ring;
      PairedEnds(container, nodes, head, values, ring.order);
      MirrorAt(nodes, ring.next, ring.prev, values, HEAD);
      if head == head.next {
        return null;
      }
      node := head.next;
      MirrorAt(nodes, ring.next, ring.prev, values, ring.next[HEAD]);
      EndsOfRun(history, ring.order, Stamps(history));
    }

    method Size() returns (n: int)
      requires Valid()
      ensures n == |ring.order|
    {
      SizeOf(container.Keys, ring.order);
      n := |container|;
    }
  }

  lemma {:induction false} SizeOf(keys: set<int>, order: seq<int>)
    requires Distinct(order) && forall k :: k in keys <==> k in order
    ensures |keys| == |order|
    decreases |order|
  {
    if order != [] {
      SizeOf(keys - {order[0]}, order[1..]);
    } else {
      assert forall k :: k in keys ==> k in order;
      assert keys == {};
    }
  }
}
