/** The intrusive timer node: two links and an expiry (framework/timer_manager.h). */
module BaseTimers {
  import opened Rings

  class BaseTimer {
    const id: int  // tells timers and slot heads apart
    var next: BaseTimer?
    var prev: BaseTimer?
    var expired: int

    constructor (id: int)
      ensures this.id == id && next == null && prev == null && expired == 0
    {
      this.id := id;
      next, prev, expired := null, null, 0;
    }

    /** Refused, with the expiry unchanged, while the timer is linked; the answer is -1 either way. */
    method SetExpired(at: int) returns (code: int)
      modifies this`expired
      ensures code == -1
      ensures expired == if next != null || prev != null then old(expired) else at
    {
      if next != null || prev != null {
        return -1;
      }
      expired := at;
      return -1;
    }

    method IsRunning() returns (r: bool)
      ensures r <==> next != null || prev != null
    {
      r := next != null || prev != null;
    }

    /** `base_timer_insert`. */
    static method Insert(p: BaseTimer, c: BaseTimer, n: BaseTimer)
      requires c != p && c != n
      modifies p`next, c`next, c`prev, n`prev
      ensures p.next == c && c.prev == p && c.next == n && n.prev == c
    {
      p.next := c;
      c.prev := p;
      c.next := n;
      n.prev := c;
    }

    /** `base_timer_remove`. */
    static method Remove(t: BaseTimer)
      requires t.prev != null && t.next != null && t.prev != t && t.next != t
      modifies t`next, t`prev, t.prev`next, t.next`prev
      ensures t.next == null && t.prev == null
      ensures old(t.prev).next == old(t.next) && old(t.next).prev == old(t.prev)
    {
      t.prev.next := t.next;
      t.next.prev := t.prev;
      t.next, t.prev := null, null;
    }
  }

  /**
   The heap is what the tables say: links are mirrored, a cell in no table is unlinked,
   and the timers have the expiries recorded for them.
   */
  ghost predicate Mirror(nodes: map<int, BaseTimer>, next: Links, prev: Links, expiry: map<int, int>)
    reads nodes.Values
  {
    && (forall x :: x in next ==> next[x] in nodes)
    && (forall x :: x in prev ==> prev[x] in nodes)
    && (forall x :: x in nodes ==>
          && nodes[x].id == x
          && nodes[x].next == (if x in next then nodes[next[x]] else null)
          && nodes[x].prev == (if x in prev then nodes[prev[x]] else null))
    && (forall x :: x in expiry ==> x in nodes && nodes[x].expired == expiry[x])
  }

  /** What `Mirror` says of one cell. */
  lemma MirrorAt(nodes: map<int, BaseTimer>, next: Links, prev: Links, expiry: map<int, int>, x: int)
    requires Mirror(nodes, next, prev, expiry) && x in nodes
    ensures nodes[x].id == x
    ensures if x in next then next[x] in nodes && nodes[next[x]].id == next[x] && nodes[x].next == nodes[next[x]]
            else nodes[x].next == null
    ensures if x in prev then prev[x] in nodes && nodes[prev[x]].id == prev[x] && nodes[x].prev == nodes[prev[x]]
            else nodes[x].prev == null
    ensures x in expiry ==> nodes[x].expired == expiry[x]
  {
  }

  /** Linking a cell between two others keeps heap and tables in step. */
  method InsertCell(ghost nodes: map<int, BaseTimer>, ghost next: Links, ghost prev: Links, ghost expiry: map<int, int>,
                    p: BaseTimer, c: BaseTimer, n: BaseTimer)
    requires Mirror(nodes, next, prev, expiry)
    requires p.id in nodes && nodes[p.id] == p && c.id in nodes && nodes[c.id] == c && n.id in nodes && nodes[n.id] == n
    requires c != p && c != n
    modifies nodes.Values
    ensures Mirror(nodes, InsertNext(next, p.id, c.id, n.id), InsertPrev(prev, p.id, c.id, n.id), expiry)
  {
    BaseTimer.Insert(p, c, n);
  }

  /** Unlinking a cell keeps heap and tables in step. */
  method RemoveCell(ghost nodes: map<int, BaseTimer>, ghost next: Links, ghost prev: Links, ghost expiry: map<int, int>,
                    c: BaseTimer)
    requires Mirror(nodes, next, prev, expiry)
    requires c.id in nodes && nodes[c.id] == c && c.id in next && c.id in prev
    requires next[c.id] != c.id && prev[c.id] != c.id
    modifies nodes.Values
    ensures Mirror(nodes, RemoveNext(next, prev[c.id], c.id, next[c.id]), RemovePrev(prev, prev[c.id], c.id, next[c.id]), expiry)
  {
    BaseTimer.Remove(c);
  }

  /** `set_expired` on a cell: refused while it is linked. */
  method SetCellExpiry(ghost nodes: map<int, BaseTimer>, ghost next: Links, ghost prev: Links, ghost expiry: map<int, int>,
                       c: BaseTimer, at: int)
    returns (code: int)
    requires Mirror(nodes, next, prev, expiry) && c.id in nodes && nodes[c.id] == c
    modifies nodes.Values
    ensures code == -1
    ensures Mirror(nodes, next, prev, if c.id in next || c.id in prev then expiry else expiry[c.id := at])
  {
    code := c.SetExpired(at);
  }
}
