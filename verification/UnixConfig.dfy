/** The chained hash table of configuration entries (framework/unix_config.cpp). */
module UnixConfigs {

  import opened ConfigText
  import opened ConfigRoundTrips

  const BUCKETS_SIZE := 1024

  type Hash = string -> nat

  /** The mask keeps the low ten bits. */
  function Bucket(hashValue: nat): (b: nat)
    ensures b < BUCKETS_SIZE
  {
    hashValue % BUCKETS_SIZE
  }

  class Node {
    const key: cstring
    const value: cstring
    var hash: nat
    var next: Node?

    constructor (key: cstring, value: cstring)
      ensures this.key == key && this.value == value
    {
      this.key, this.value, hash, next := key, value, 0, null;
    }
  }

  // ------------------------------------------------------------ chains as values

  type Chains = seq<seq<Node>>

  function EntryOf(n: Node): Entry { Entry(n.key, n.value) }

  /** The entries of a chain, in its order. */
  function Entries(chain: seq<Node>): (es: seq<Entry>)
    ensures |es| == |chain| && forall i :: 0 <= i < |es| ==> es[i] == EntryOf(chain[i])
  {
    if chain == [] then [] else [EntryOf(chain[0])] + Entries(chain[1..])
  }

  ghost predicate KeysDistinct(chain: seq<Node>) {
    forall i, j :: 0 <= i < j < |chain| ==> chain[i].key != chain[j].key
  }

  lemma EntriesDistinct(chain: seq<Node>)
    requires KeysDistinct(chain)
    ensures DistinctKeys(Entries(chain))
  {
  }

  /** Every node is in the bucket of its key, and no key is twice in a chain. */
  ghost predicate Placed(chains: Chains, hash: Hash) {
    && |chains| == BUCKETS_SIZE
    && (forall i, j :: 0 <= i < |chains| && 0 <= j < |chains[i]| ==>
         Bucket(hash(chains[i][j].key)) == i && |chains[i][j].key| <= MAX_LINE_SIZE)
    && (forall i :: 0 <= i < |chains| ==> KeysDistinct(chains[i]))
  }

  /** Looking a key up in its bucket finds what the bindings say. */
  ghost predicate Represents(chains: Chains, hash: Hash, m: Bindings) {
    && |chains| == BUCKETS_SIZE
    && forall k: string :: Value(m, k) == Lookup(Entries(chains[Bucket(hash(k))]), k)
  }

  /** All entries, bucket by bucket. */
  function AllEntries(chains: Chains): seq<Entry> {
    if chains == [] then [] else Entries(chains[0]) + AllEntries(chains[1..])
  }

  lemma ChainLookup(chain: seq<Node>, k: string, j: nat)
    requires KeysDistinct(chain) && j < |chain| && chain[j].key == k
    ensures Lookup(Entries(chain), k) == Some(chain[j].value)
  {
    EntriesDistinct(chain);
    LookupAt(Entries(chain), k, j);
  }

  lemma ChainMisses(chain: seq<Node>, k: string)
    requires forall j :: 0 <= j < |chain| ==> chain[j].key != k
    ensures Lookup(Entries(chain), k) == None
  {
    var i := LookupFound(Entries(chain), k);
  }

  /** A key found in its bucket's chain is bound to the value found there. */
  lemma KeyFound(chains: Chains, hash: Hash, m: Bindings, key: string, j: nat)
    requires Placed(chains, hash) && Represents(chains, hash, m)
    requires j < |chains[Bucket(hash(key))]| && chains[Bucket(hash(key))][j].key == key
    ensures key in m && m[key] == chains[Bucket(hash(key))][j].value
  {
    assert Value(m, key) == Lookup(Entries(chains[Bucket(hash(key))]), key);
    ChainLookup(chains[Bucket(hash(key))], key, j);
  }

  /** A key that is not in its bucket's chain is not bound. */
  lemma KeyMisses(chains: Chains, hash: Hash, m: Bindings, key: string)
    requires Represents(chains, hash, m)
    requires forall j :: 0 <= j < |chains[Bucket(hash(key))]| ==> chains[Bucket(hash(key))][j].key != key
    ensures key !in m
  {
    assert Value(m, key) == Lookup(Entries(chains[Bucket(hash(key))]), key);
    ChainMisses(chains[Bucket(hash(key))], key);
  }

  lemma LongKey(chains: Chains, hash: Hash, m: Bindings, key: string)
    requires Placed(chains, hash) && Represents(chains, hash, m) && |key| > MAX_LINE_SIZE
    ensures key !in m
  {
    KeyMisses(chains, hash, m, key);
  }

  /** A chain that has the same entry, or none, for a key as another looks it up the same. */
  lemma SameLookup(x: seq<Node>, y: seq<Node>, k: string)
    requires KeysDistinct(x) && KeysDistinct(y)
    requires forall n :: n in x && n.key == k ==> n in y
    requires forall n :: n in y && n.key == k ==> n in x
    ensures Lookup(Entries(x), k) == Lookup(Entries(y), k)
  {
    if j :| 0 <= j < |x| && x[j].key == k {
      ChainLookup(x, k, j);
      assert x[j] in y;
      var i :| 0 <= i < |y| && y[i] == x[j];
      ChainLookup(y, k, i);
    } else {
      ChainMisses(x, k);
      ChainMisses(y, k);
    }
  }

  /** Changing one bucket's chain so that it differs in one key only changes that key's binding only. */
  lemma BucketChanged(chains: Chains, hash: Hash, m: Bindings, b: nat, chain: seq<Node>, key: string, m': Bindings)
    requires Placed(chains, hash) && Represents(chains, hash, m)
    requires b == Bucket(hash(key)) && KeysDistinct(chain)
    requires forall j :: 0 <= j < |chain| ==> Bucket(hash(chain[j].key)) == b && |chain[j].key| <= MAX_LINE_SIZE
    requires forall n: Node :: n.key != key ==> (n in chain <==> n in chains[b])
    requires forall k :: k != key ==> Value(m', k) == Value(m, k)
    requires Value(m', key) == Lookup(Entries(chain), key)
    ensures Placed(chains[b := chain], hash) && Represents(chains[b := chain], hash, m')
  {
    hide Bucket, KeysDistinct, Lookup, Entries, Value;
    forall k: string
      ensures Value(m', k) == Lookup(Entries(chains[b := chain][Bucket(hash(k))]), k)
    {
      if k != key && Bucket(hash(k)) == b {
        SameLookup(chain, chains[b], k);
      }
    }
  }

  /** A new node in the place of the one with its key. */
  lemma ReplaceRepresents(chains: Chains, hash: Hash, m: Bindings, b: nat, j: nat, node: Node)
    requires Placed(chains, hash) && Represents(chains, hash, m)
    requires b == Bucket(hash(node.key)) && j < |chains[b]| && chains[b][j].key == node.key
    ensures Placed(chains[b := chains[b][j := node]], hash)
    ensures Represents(chains[b := chains[b][j := node]], hash, m[node.key := node.value])
  {
    var chain := chains[b][j := node];
    ReplacedNodes(chains[b], j, node);
    ChainLookup(chain, node.key, j);
    hide Lookup, Entries, Bucket, KeysDistinct;
    BucketChanged(chains, hash, m, b, chain, node.key, m[node.key := node.value]);
  }

  lemma ReplacedNodes(chain: seq<Node>, j: nat, node: Node)
    requires KeysDistinct(chain) && j < |chain| && chain[j].key == node.key
    ensures KeysDistinct(chain[j := node])
    ensures forall n: Node :: n.key != node.key ==> (n in chain[j := node] <==> n in chain)
  {
    SameKeys(chain, chain[j := node]);
    hide KeysDistinct;
    forall n: Node | n.key != node.key && n in chain
      ensures n in chain[j := node]
    {
      var i :| 0 <= i < |chain| && chain[i] == n;
      assert chain[j := node][i] == n;
    }
  }

  lemma SameKeys(x: seq<Node>, y: seq<Node>)
    requires |x| == |y| && forall j :: 0 <= j < |x| ==> x[j].key == y[j].key
    requires KeysDistinct(x)
    ensures KeysDistinct(y)
  {
  }

  /** A new node with a new key at the front of its bucket. */
  lemma PrependRepresents(chains: Chains, hash: Hash, m: Bindings, b: nat, node: Node)
    requires Placed(chains, hash) && Represents(chains, hash, m)
    requires b == Bucket(hash(node.key)) && node.key !in m && |node.key| <= MAX_LINE_SIZE
    ensures Placed(chains[b := [node] + chains[b]], hash)
    ensures Represents(chains[b := [node] + chains[b]], hash, m[node.key := node.value])
  {
    var chain := [node] + chains[b];
    assert Value(m, node.key) == Lookup(Entries(chains[b]), node.key);
    NotInChain(chains[b], node.key);
    NewKeyFirst(chains[b], node);
    ChainLookup(chain, node.key, 0);
    hide Lookup, Entries, Bucket, KeysDistinct;
    BucketChanged(chains, hash, m, b, chain, node.key, m[node.key := node.value]);
  }

  lemma NewKeyFirst(chain: seq<Node>, node: Node)
    requires KeysDistinct(chain) && forall j :: 0 <= j < |chain| ==> chain[j].key != node.key
    ensures KeysDistinct([node] + chain)
  {
    var all := [node] + chain;
    assert all[0] == node && forall i :: 0 < i < |all| ==> all[i] == chain[i - 1];
  }

  lemma NotInChain(chain: seq<Node>, key: string)
    requires Lookup(Entries(chain), key) == None
    ensures forall j :: 0 <= j < |chain| ==> chain[j].key != key
  {
    var i := LookupFound(Entries(chain), key);
    forall j | 0 <= j < |chain|
      ensures chain[j].key != key
    {
      assert Entries(chain)[j] in Entries(chain);
    }
  }

  function Without(chain: seq<Node>, j: nat): (r: seq<Node>)
    requires j < |chain|
    ensures |r| == |chain| - 1 && forall i :: 0 <= i < |r| ==> r[i] == chain[if i < j then i else i + 1]
  {
    chain[..j] + chain[j + 1..]
  }

  /** A node taken out of its chain. */
  lemma RemoveRepresents(chains: Chains, hash: Hash, m: Bindings, b: nat, j: nat)
    requires Placed(chains, hash) && Represents(chains, hash, m)
    requires b < |chains| && j < |chains[b]|
    ensures Placed(chains[b := Without(chains[b], j)], hash)
    ensures Represents(chains[b := Without(chains[b], j)], hash, m - {chains[b][j].key})
  {
    var chain, key := Without(chains[b], j), chains[b][j].key;
    RemovedNodes(chains[b], j);
    ChainMisses(chain, key);
    hide Lookup, Entries, Bucket, Without;
    BucketChanged(chains, hash, m, b, chain, key, m - {key});
  }

  lemma RemovedNodes(chain: seq<Node>, j: nat)
    requires j < |chain| && KeysDistinct(chain)
    ensures KeysDistinct(Without(chain, j))
    ensures forall i :: 0 <= i < |Without(chain, j)| ==> Without(chain, j)[i].key != chain[j].key
    ensures forall n: Node :: n.key != chain[j].key ==> (n in Without(chain, j) <==> n in chain)
  {
    RemainingKeys(chain, j);
    OtherNodes(chain, j);
  }

  lemma RemainingKeys(chain: seq<Node>, j: nat)
    requires j < |chain| && KeysDistinct(chain)
    ensures KeysDistinct(Without(chain, j))
    ensures forall i :: 0 <= i < |Without(chain, j)| ==> Without(chain, j)[i].key != chain[j].key
  {
    var rest := Without(chain, j);
    hide Without, KeysDistinct;
    forall i, l | 0 <= i < l < |rest|
      ensures rest[i].key != rest[l].key
    {
      KeysDiffer(chain, if i < j then i else i + 1, if l < j then l else l + 1);
    }
    forall i | 0 <= i < |rest|
      ensures rest[i].key != chain[j].key
    {
      KeysDiffer(chain, if i < j then i else i + 1, j);
    }
  }

  lemma KeysDiffer(chain: seq<Node>, i: nat, j: nat)
    requires KeysDistinct(chain) && i < |chain| && j < |chain| && i != j
    ensures chain[i].key != chain[j].key
  {
  }

  lemma OtherNodes(chain: seq<Node>, j: nat)
    requires j < |chain|
    ensures forall n :: n in Without(chain, j) ==> n in chain
    ensures forall n :: n in chain && n != chain[j] ==> n in Without(chain, j)
  {
    assert chain == chain[..j] + [chain[j]] + chain[j + 1..];
  }

  /** The entries of all buckets list the bindings, each once. */
  lemma AllEntriesEnumerate(chains: Chains, hash: Hash, m: Bindings)
    requires Placed(chains, hash) && Represents(chains, hash, m)
    ensures Enumerates(AllEntries(chains), m)
  {
    var es := AllEntries(chains);
    AllDistinct(chains, hash, 0);
    assert chains[0..] == chains;
    forall k: string
      ensures Value(Bind(map[], es), k) == Value(m, k)
    {
      BindLooksUp(map[], es, k);
      AllLookup(chains, hash, 0, k);
    }
    SameBindings(Bind(map[], es), m);
  }

  /** From bucket `i` on, the entries find a key exactly in its bucket. */
  lemma {:induction false} AllLookup(chains: Chains, hash: Hash, i: nat, k: string)
    requires Placed(chains, hash) && i <= |chains|
    ensures Lookup(AllEntries(chains[i..]), k) ==
            if Bucket(hash(k)) < i then None else Lookup(Entries(chains[Bucket(hash(k))]), k)
    decreases |chains| - i
  {
    hide Bucket, Entries;
    if i < |chains| {
      assert chains[i..][1..] == chains[i + 1..];
      LookupSplits(Entries(chains[i]), AllEntries(chains[i + 1..]), k);
      AllLookup(chains, hash, i + 1, k);
      if Bucket(hash(k)) != i {
        ChainMisses(chains[i], k);
      }
    }
  }

  lemma {:induction false} AllDistinct(chains: Chains, hash: Hash, i: nat)
    requires Placed(chains, hash) && i <= |chains|
    ensures DistinctKeys(AllEntries(chains[i..]))
    ensures forall e :: e in AllEntries(chains[i..]) ==> Bucket(hash(e.key)) >= i
    decreases |chains| - i
  {
    hide Bucket, Lookup;
    if i < |chains| {
      assert chains[i..][1..] == chains[i + 1..];
      AllDistinct(chains, hash, i + 1);
      EntriesDistinct(chains[i]);
      var x: seq<Entry>, y: seq<Entry> := Entries(chains[i]), AllEntries(chains[i + 1..]);
      forall p, q | 0 <= p < q < |x + y|
        ensures (x + y)[p].key != (x + y)[q].key
      {
        if p < |x| <= q {
          assert y[q - |x|] in y;
        }
      }
    }
  }

  // ------------------------------------------------------------ the table

  /** What comes at `j` of a chain, the end of the chain included. */
  function NodeAt(chain: seq<Node>, j: nat): Node? {
    if j < |chain| then chain[j] else null
  }

  /** The `next` pointers of some nodes. */
  type Nexts = map<Node, Node?>

  function NextsOf(nodes: set<Node>): Nexts
    reads nodes
  {
    map n | n in nodes :: n.next
  }

  /** Printing from `j` of a chain on starts with the line of the node there. */
  lemma DumpNext(chain: seq<Node>, j: nat)
    requires j < |chain|
    ensures DumpText(Entries(chain[j..])) == DumpLine(EntryOf(chain[j])) + DumpText(Entries(chain[j + 1..]))
  {
    assert chain[j..][1..] == chain[j + 1..];
    assert Entries(chain[j..])[1..] == Entries(chain[j + 1..]);
  }

  /** Printing from bucket `i` on starts with that bucket. */
  lemma DumpFrom(chains: Chains, i: nat)
    requires i < |chains|
    ensures DumpText(AllEntries(chains[i..])) == DumpText(Entries(chains[i])) + DumpText(AllEntries(chains[i + 1..]))
  {
    hide Entries, DumpText;
    assert chains[i..][1..] == chains[i + 1..];
    DumpSplits(Entries(chains[i]), AllEntries(chains[i + 1..]));
  }

  lemma DumpPast(chains: Chains, i: nat)
    requires i == |chains|
    ensures DumpText(AllEntries(chains[i..])) == ""
  {
  }

  lemma DumpEnd(chain: seq<Node>, j: nat)
    requires j == |chain|
    ensures DumpText(Entries(chain[j..])) == ""
  {
  }

  /** The chain that starts at `head` and follows the pointers. */
  ghost predicate Linked(next: Nexts, head: Node?, chain: seq<Node>) {
    && head == NodeAt(chain, 0)
    && forall j :: 0 <= j < |chain| ==> chain[j] in next && next[chain[j]] == NodeAt(chain, j + 1)
  }

  ghost predicate AllLinked(next: Nexts, heads: seq<Node?>, chains: Chains) {
    |heads| == |chains| && forall i :: 0 <= i < |chains| ==> Linked(next, heads[i], chains[i])
  }

  /** Point the node before `j`, or else the bucket, at `to`. */
  function RedirectNext(next: Nexts, pre: Node?, to: Node?): Nexts {
    if pre == null then next else next[pre := to]
  }

  function RedirectHead(heads: seq<Node?>, b: nat, pre: Node?, to: Node?): seq<Node?>
    requires b < |heads|
  {
    if pre == null then heads[b := to] else heads
  }

  /** Empty buckets mean empty bindings. */
  lemma EmptyTable(chains: Chains, heads: seq<Node?>, hash: Hash)
    requires |chains| == |heads| == BUCKETS_SIZE
    requires forall i :: 0 <= i < BUCKETS_SIZE ==> chains[i] == [] && heads[i] == null
    ensures Placed(chains, hash) && Represents(chains, hash, map[]) && AllLinked(map[], heads, chains)
  {
  }

  lemma BucketLinked(next: Nexts, heads: seq<Node?>, chains: Chains, b: nat)
    requires AllLinked(next, heads, chains) && b < |chains|
    ensures b < |heads| && heads[b] == NodeAt(chains[b], 0) && Linked(next, heads[b], chains[b])
  {
  }

  lemma LinkedAt(next: Nexts, head: Node?, chain: seq<Node>, j: nat)
    requires Linked(next, head, chain) && j < |chain|
    ensures chain[j] in next && next[chain[j]] == NodeAt(chain, j + 1)
  {
  }

  /** A node occurs once in its chain and in no other chain. */
  lemma NodeOnce(chains: Chains, hash: Hash, b: nat, j: nat)
    requires Placed(chains, hash) && b < |chains| && j < |chains[b]|
    ensures forall i :: 0 <= i < |chains[b]| && i != j ==> chains[b][i] != chains[b][j]
    ensures forall i, l :: 0 <= i < |chains| && i != b && 0 <= l < |chains[i]| ==> chains[i][l] != chains[b][j]
  {
    var chain := chains[b];
    hide Bucket;
    forall i | 0 <= i < |chain| && i != j
      ensures chain[i] != chain[j]
    {
      KeysDiffer(chain, i, j);
    }
  }

  /** A new node takes the place of one in its chain. */
  lemma ReplaceLinks(next: Nexts, heads: seq<Node?>, chains: Chains, hash: Hash, oldNode: Node, pre: Node?, b: nat, j: nat, node: Node)
    requires AllLinked(next, heads, chains) && Placed(chains, hash) && node !in next
    requires FoundAt(chains, hash, oldNode, pre, j) && b == Bucket(hash(oldNode.key))
    ensures oldNode in next && (pre != null ==> pre in next)
    ensures AllLinked(RedirectNext(next[node := next[oldNode]], pre, node), RedirectHead(heads, b, pre, node),
              chains[b := chains[b][j := node]])
  {
    if j > 0 {
      NodeOnce(chains, hash, b, j - 1);
    }
    assert Linked(next, heads[b], chains[b]);
    hide Placed, Bucket;
    assert next[chains[b][j]] == NodeAt(chains[b], j + 1);
    forall i | 0 <= i < |chains| && i != b
      ensures Linked(RedirectNext(next[node := next[oldNode]], pre, node), heads[i], chains[i])
    {
      assert Linked(next, heads[i], chains[i]);
    }
    ReplaceLink(next, heads[b], chains[b], j, node, pre);
  }

  lemma ReplaceLink(next: Nexts, head: Node?, chain: seq<Node>, j: nat, node: Node, pre: Node?)
    requires Linked(next, head, chain) && j < |chain| && node !in next && pre == if j == 0 then null else chain[j - 1]
    requires forall i :: 0 <= i < |chain| && i != j - 1 ==> chain[i] != pre
    ensures Linked(RedirectNext(next[node := next[chain[j]]], pre, node), if pre == null then node else head, chain[j := node])
  {
    var chain' := chain[j := node];
    var next' := RedirectNext(next[node := next[chain[j]]], pre, node);
    forall i | 0 <= i < |chain'|
      ensures chain'[i] in next' && next'[chain'[i]] == NodeAt(chain', i + 1)
    {
      assert next[chain[i]] == NodeAt(chain, i + 1);
    }
  }

  /** A new node goes to the front of a chain. */
  lemma PrependLinks(next: Nexts, heads: seq<Node?>, chains: Chains, b: nat, node: Node)
    requires AllLinked(next, heads, chains) && b < |chains| && node !in next
    ensures AllLinked(next[node := heads[b]], heads[b := node], chains[b := [node] + chains[b]])
  {
    var next', chain := next[node := heads[b]], [node] + chains[b];
    assert Linked(next, heads[b], chains[b]);
    forall i | 0 <= i < |chain|
      ensures chain[i] in next' && next'[chain[i]] == NodeAt(chain, i + 1)
    {
      if i > 0 {
        assert next[chains[b][i - 1]] == NodeAt(chains[b], i);
      }
    }
    forall i | 0 <= i < |chains| && i != b
      ensures Linked(next', heads[i], chains[i])
    {
      assert Linked(next, heads[i], chains[i]);
    }
  }

  /** A node leaves its chain. */
  lemma UnlinkLinks(next: Nexts, heads: seq<Node?>, chains: Chains, hash: Hash, node: Node, pre: Node?, b: nat, j: nat)
    requires AllLinked(next, heads, chains) && Placed(chains, hash)
    requires FoundAt(chains, hash, node, pre, j) && b == Bucket(hash(node.key))
    ensures node in next && (pre != null ==> pre in next)
    ensures AllLinked(RedirectNext(next, pre, next[node]), RedirectHead(heads, b, pre, next[node]),
              chains[b := Without(chains[b], j)])
  {
    if j > 0 {
      NodeOnce(chains, hash, b, j - 1);
    }
    assert Linked(next, heads[b], chains[b]);
    hide Placed, Bucket, Without;
    assert next[chains[b][j]] == NodeAt(chains[b], j + 1);
    forall i | 0 <= i < |chains| && i != b
      ensures Linked(RedirectNext(next, pre, next[node]), heads[i], chains[i])
    {
      assert Linked(next, heads[i], chains[i]);
    }
    UnlinkLink(next, heads[b], chains[b], j, pre);
  }

  lemma UnlinkLink(next: Nexts, head: Node?, chain: seq<Node>, j: nat, pre: Node?)
    requires Linked(next, head, chain) && j < |chain| && pre == if j == 0 then null else chain[j - 1]
    requires forall i :: 0 <= i < |chain| && i != j - 1 ==> chain[i] != pre
    ensures Linked(RedirectNext(next, pre, next[chain[j]]), if pre == null then next[chain[j]] else head, Without(chain, j))
  {
    hide Without;
    var rest, next' := Without(chain, j), RedirectNext(next, pre, next[chain[j]]);
    assert next[chain[j]] == NodeAt(chain, j + 1);
    forall i | 0 <= i < |rest|
      ensures rest[i] in next' && next'[rest[i]] == NodeAt(rest, i + 1)
    {
      var i' := if i < j then i else i + 1;
      assert next[chain[i']] == NodeAt(chain, i' + 1);
    }
  }

  /** `node` is at `j` of its bucket's chain, after `pre`. */
  ghost predicate FoundAt(chains: Chains, hash: Hash, node: Node, pre: Node?, j: nat) {
    |chains| == BUCKETS_SIZE &&
    var chain := chains[Bucket(hash(node.key))];
    j < |chain| && node == chain[j] && pre == if j == 0 then null else chain[j - 1]
  }

  class UnixConfig {
    const hash: Hash
    const buckets: array<Node?>

    ghost var chains: Chains      // the nodes of each bucket
    ghost var contents: Bindings  // what the table means
    ghost var nodes: set<Node>    // every node of the table

    ghost predicate Valid()
      reads this, buckets, nodes
    {
      && buckets.Length == |chains| == BUCKETS_SIZE
      && Placed(chains, hash) && Represents(chains, hash, contents)
      && (forall n :: n in nodes ==> n.hash == hash(n.key))
      && AllLinked(NextsOf(nodes), buckets[..], chains)
    }

    constructor (hash: Hash)
      ensures Valid() && contents == map[] && nodes == {} && fresh(buckets) && buckets.Length == 1024
    {
      this.hash := hash;
      buckets := new Node?[BUCKETS_SIZE](_ => null);
      chains, contents, nodes := seq(BUCKETS_SIZE, _ => []), map[], {};
    }

    /** Find the node of a key and the one before it in its chain. */
    method GetNode(key: cstring) returns (node: Node?, pre: Node?, ghost j: nat)
      requires Valid()
      ensures node == null <==> key !in contents
      ensures node != null ==>
        && node.key == key && node.value == contents[key]
        && FoundAt(chains, hash, node, pre, j)
    {
      hide Represents, Placed, AllLinked, Linked, Bucket, Lookup, Entries;
      node, pre, j := null, null, 0;
      var hashValue := hash(key);
      ghost var next, chain := NextsOf(nodes), chains[Bucket(hashValue)];
      if |key| > MAX_LINE_SIZE {
        LongKey(chains, hash, contents, key);
        return;
      }
      BucketLinked(next, buckets[..], chains, Bucket(hashValue));
      node := buckets[Bucket(hashValue)];
      while node != null
        invariant j <= |chain| && node == NodeAt(chain, j)
        invariant pre == if j == 0 then null else chain[j - 1]
        invariant forall i :: 0 <= i < j ==> chain[i].key != key
        decreases |chain| - j
      {
        LinkedAt(next, buckets[Bucket(hashValue)], chain, j);
        if hashValue == node.hash && |key| == |node.key| && node.key == key {
          KeyFound(chains, hash, contents, key, j);
          return;
        }
        pre := node;
        node := node.next;
        j := j + 1;
      }
      KeyMisses(chains, hash, contents, key);
    }

    /** `get`; a null key finds nothing. */
    method Get(key: Option<cstring>, defaultValue: Option<cstring>) returns (r: Option<string>)
      requires Valid()
      ensures r == if key.Some? && key.value in contents then Some(contents[key.value]) else defaultValue
    {
      if key.Some? {
        var node, pre, j := GetNode(key.value);
        if node != null {
          return Some(node.value);
        }
      }
      r := defaultValue;
    }

    /** `set` of two strings. */
    method Set(key: Option<cstring>, value: Option<cstring>) returns (code: int)
      requires Valid()
      modifies this, buckets, nodes
      ensures Valid() && fresh(nodes - old(nodes))
      ensures code == if key.None? || value.None? || |key.value| > 2048 || |value.value| > 2048 then -1 else 0
      ensures contents == if code == 0 then old(contents)[key.value := value.value] else old(contents)
    {
      if key.None? || value.None? {
        return -1;
      }
      code := SetSized(key.value, value.value);
    }

    /** `set` of sized strings: replace the node of the key in its place, or start its chain with a new one. */
    method SetSized(key: cstring, value: cstring) returns (code: int)
      requires Valid()
      modifies this, buckets, nodes
      ensures Valid() && fresh(nodes - old(nodes))
      ensures code == if |key| > 2048 || |value| > 2048 then -1 else 0
      ensures contents == if code == 0 then old(contents)[key := value] else old(contents)
    {
      hide UnixConfig.Valid;
      if |key| > MAX_LINE_SIZE || |value| > MAX_LINE_SIZE {
        return -1;
      }
      var node := new Node(key, value);
      Insert(node);
      code := 0;
    }

    /** Put a new node into the table, in the place of the one with its key if there is one. */
    method Insert(node: Node)
      requires Valid() && node !in nodes && |node.key| <= MAX_LINE_SIZE
      modifies this, buckets, nodes, node
      ensures Valid() && nodes == old(nodes) + {node}
      ensures contents == old(contents)[node.key := node.value]
    {
      hide *;
      var oldNode, pre, j := GetNode(node.key);
      if oldNode != null {
        Replace(node, oldNode, pre, j);
      } else {
        Prepend(node);
      }
    }

    method Replace(node: Node, oldNode: Node, pre: Node?, ghost j: nat)
      requires Valid() && node !in nodes && oldNode.key == node.key
      requires FoundAt(chains, hash, oldNode, pre, j)
      modifies this, buckets, nodes, node
      ensures Valid() && nodes == old(nodes) + {node}
      ensures contents == old(contents)[node.key := node.value]
      ensures var b := Bucket(hash(node.key));
              chains == old(chains)[b := old(chains)[b][j := node]]
    {
      hide Represents, Placed, Bucket, Linked, AllLinked, Entries, Lookup, Without, KeysDistinct, Value;
      ghost var b := Bucket(hash(node.key));
      ghost var next, heads := NextsOf(nodes), buckets[..];
      ReplaceRepresents(chains, hash, contents, b, j, node);
      ReplaceLinks(next, heads, chains, hash, oldNode, pre, b, j, node);
      Adopt(node, oldNode);
      hide NextsOf;
      Redirect(pre, Bucket(node.hash), node);
      chains := chains[b := chains[b][j := node]];
      contents := contents[node.key := node.value];
    }

    /** A new node takes over the hash and the successor of an old one. */
    method Adopt(node: Node, oldNode: Node)
      requires node !in nodes && oldNode in nodes
      modifies this`nodes, node
      ensures nodes == old(nodes) + {node} && node.hash == oldNode.hash
      ensures NextsOf(nodes) == old(NextsOf(nodes))[node := old(NextsOf(nodes))[oldNode]]
      ensures forall n :: n in nodes && n != node ==> n.hash == old(n.hash)
    {
      nodes := nodes + {node};
      node.hash := oldNode.hash;
      node.next := oldNode.next;
    }

    /** Point the node before, or else the bucket, at `to`. */
    method Redirect(pre: Node?, b: nat, to: Node?)
      requires b < buckets.Length && (pre != null ==> pre in nodes)
      modifies buckets, nodes
      ensures buckets[..] == RedirectHead(old(buckets[..]), b, pre, to)
      ensures NextsOf(nodes) == RedirectNext(old(NextsOf(nodes)), pre, to)
      ensures forall n :: n in nodes ==> n.hash == old(n.hash)
    {
      if pre == null {
        buckets[b] := to;
      } else {
        pre.next := to;
      }
    }

    method Prepend(node: Node)
      requires Valid() && node !in nodes && node.key !in contents && |node.key| <= MAX_LINE_SIZE
      modifies this, buckets, node
      ensures Valid() && nodes == old(nodes) + {node}
      ensures contents == old(contents)[node.key := node.value]
      ensures var b := Bucket(hash(node.key));
              chains == old(chains)[b := [node] + old(chains)[b]]
    {
      hide Represents, Placed, Bucket, Linked, AllLinked, Entries, Lookup, Without, KeysDistinct, Value;
      ghost var b := Bucket(hash(node.key));
      ghost var next, heads := NextsOf(nodes), buckets[..];
      PrependRepresents(chains, hash, contents, b, node);
      PrependLinks(next, heads, chains, b, node);
      chains := chains[b := [node] + chains[b]];
      contents := contents[node.key := node.value];
      nodes := nodes + {node};
      node.hash := hash(node.key);
      node.next := buckets[Bucket(node.hash)];
      buckets[Bucket(node.hash)] := node;
      assert NextsOf(nodes) == next[node := heads[b]];
      assert buckets[..] == heads[b := node];
    }

    /** Unlink the node of a key. */
    method Remove(key: Option<cstring>)
      requires Valid()
      modifies this, buckets, nodes
      ensures Valid() && nodes == old(nodes)
      ensures contents == if key.Some? then old(contents) - {key.value} else old(contents)
    {
      hide *;
      if key.Some? {
        var node, pre, j := GetNode(key.value);
        if node != null {
          Unlink(node, pre, j);
        }
      }
    }

    method Unlink(node: Node, pre: Node?, ghost j: nat)
      requires Valid()
      requires FoundAt(chains, hash, node, pre, j)
      modifies this, buckets, nodes
      ensures Valid() && nodes == old(nodes) && contents == old(contents) - {node.key}
      ensures var b := Bucket(hash(node.key));
              chains == old(chains)[b := Without(old(chains)[b], j)]
    {
      hide Represents, Placed, Bucket, Linked, AllLinked, Entries, Lookup, Without, KeysDistinct, Value;
      ghost var b := Bucket(hash(node.key));
      ghost var next, heads := NextsOf(nodes), buckets[..];
      RemoveRepresents(chains, hash, contents, b, j);
      UnlinkLinks(next, heads, chains, hash, node, pre, b, j);
      chains := chains[b := Without(chains[b], j)];
      contents := contents - {node.key};
      Redirect(pre, Bucket(hash(node.key)), node.next);
    }

    /** Parse one line and set what it binds. */
    method ParseLine(line: string) returns (code: int)
      requires Valid()
      modifies this, buckets, nodes
      ensures Valid() && fresh(nodes - old(nodes)) && contents == LoadLine(old(contents), line)
      ensures code == if ConfigText.ParseLine(line).Some? && Settable(ConfigText.ParseLine(line).value) then 0 else -1
      ensures LineSets(old(contents), line, contents) && LineAnswers(line, code)
    {
      LoadLineSets(contents, line);
      hide UnixConfig.Valid, Delimiter, SkipDelimiters, WordEnd, CString, LineSets, LineAnswers;
      var data := CString(line);
      var p := SkipDelimiters(data, 0);
      if p == |data| || data[p] == '#' {
        return -1;
      }
      var keyEnd := WordEnd(data, p);
      var key := data[p..keyEnd];
      p := SkipDelimiters(data, keyEnd);
      if p == |data| || data[p] == '#' {
        return -1;
      }
      var value := data[p..WordEnd(data, p)];
      assert NUL !in key && NUL !in value;
      code := SetSized(key, value);
    }

    /** `load` from memory: line by line through a buffer of fixed size. */
    method Load(data: string) returns (code: int)
      requires Valid() && BufferHolds(data)
      modifies this, buckets, nodes
      ensures Valid() && fresh(nodes - old(nodes)) && code == 0
      ensures contents == LoadText(old(contents), data)
      ensures data == "" ==> contents == old(contents)
      ensures data != "" && (forall x :: 0 <= x < |data| - 1 ==> data[x] != '\n') ==> LineSets(old(contents), data, contents)
    {
      LoadedLine(contents, data);
      hide LineSets, UnixConfig.Valid, LoadLine, Settable, ConfigText.ParseLine, LoadText, BufferHolds;
      var begin, p := 0, 0;
      assert data[0..] == data;
      while p < |data|
        invariant Valid() && fresh(nodes - old(nodes))
        invariant begin <= p <= |data| && (p == |data| ==> begin == p)
        invariant forall x :: begin <= x < p ==> data[x] != '\n'
        invariant BufferHolds(data[begin..]) && LoadText(contents, data[begin..]) == LoadText(old(contents), data)
      {
        if data[p] == '\n' || p == |data| - 1 {
          FirstLine(contents, data, begin, p);
          var _ := ParseLine(data[begin..p + 1]);
          begin := p + 1;
        }
        p := p + 1;
      }
      LoadNothing(contents, data[begin..]);
      code := 0;
    }

    /** Print every entry, bucket by bucket; this returns what is written. */
    method Dump() returns (out: string)
      requires Valid()
      ensures out == DumpText(AllEntries(chains)) && Enumerates(AllEntries(chains), contents)
      ensures forall k, v :: contents == map[k := v] ==> PrintedAs(out, Entry(k, v))
    {
      hide PrintedAs, Placed, Represents, AllLinked, AllEntries, DumpText, Enumerates;
      AllEntriesEnumerate(chains, hash, contents);
      out := "";
      var i := 0;
      assert chains[0..] == chains;
      while i < BUCKETS_SIZE
        invariant 0 <= i <= BUCKETS_SIZE
        invariant out + DumpText(AllEntries(chains[i..])) == DumpText(AllEntries(chains))
      {
        DumpFrom(chains, i);
        var text := DumpBucket(i);
        out := out + text;
        i := i + 1;
      }
      DumpPast(chains, i);
      DumpsOne(chains, hash, contents);
    }

    /** The inner loop of `dump`. */
    method DumpBucket(i: nat) returns (out: string)
      requires Valid() && i < BUCKETS_SIZE
      ensures out == DumpText(Entries(chains[i]))
    {
      hide Placed, Represents, AllLinked, Linked, Entries, DumpText;
      ghost var chain, next, j := chains[i], NextsOf(nodes), 0;
      BucketLinked(next, buckets[..], chains, i);
      out := "";
      var node := buckets[i];
      assert chain[0..] == chain;
      while node != null
        invariant 0 <= j <= |chain| && node == NodeAt(chain, j)
        invariant out + DumpText(Entries(chain[j..])) == DumpText(Entries(chain))
        decreases |chain| - j
      {
        LinkedAt(next, buckets[i], chain, j);
        DumpNext(chain, j);
        var line := node.key + "=" + node.value + "\n";
        if |line| >= MAX_LINE_SIZE {
          line := line[..MAX_LINE_SIZE - 1];
        }
        out := out + line;
        node := node.next;
        j := j + 1;
      }
      DumpEnd(chain, j);
    }

    /** Forget everything, freeing each node of each chain once. */
    method Clear() returns (ghost freed: seq<Node>)
      requires Valid()
      modifies this, buckets
      ensures Valid() && contents == map[] && nodes == {}
      ensures freed == AllNodes(old(chains)) && forall n :: n in freed ==> n in old(nodes)
    {
      hide Placed, Represents, AllLinked, Linked, NextsOf;
      freed := [];
      var i := 0;
      ghost var next, heads := NextsOf(nodes), buckets[..];
      assert chains[0..] == chains;
      while i < BUCKETS_SIZE
        modifies buckets
        invariant 0 <= i <= BUCKETS_SIZE
        invariant forall x :: 0 <= x < i ==> buckets[x] == null
        invariant forall x :: i <= x < BUCKETS_SIZE ==> buckets[x] == old(buckets[x])
        invariant freed + AllNodes(chains[i..]) == AllNodes(chains) && forall n :: n in freed ==> n in nodes
      {
        assert chains[i..][1..] == chains[i + 1..];
        BucketLinked(next, heads, chains, i);
        ghost var chainFreed := FreeBucket(i);
        freed := freed + chainFreed;
        i := i + 1;
      }
      chains, contents, nodes := seq(BUCKETS_SIZE, _ => []), map[], {};
      EmptyTable(chains, buckets[..], hash);
      NextsOfNone();
    }

    /** Empty one bucket and walk its chain, freeing each node after reading its successor. */
    method FreeBucket(i: nat) returns (ghost freed: seq<Node>)
      requires i < buckets.Length == |chains|
      requires Linked(NextsOf(nodes), buckets[i], chains[i])
      modifies buckets
      ensures freed == chains[i] && (forall n :: n in freed ==> n in nodes)
      ensures buckets[i] == null && forall x :: 0 <= x < buckets.Length && x != i ==> buckets[x] == old(buckets[x])
    {
      ghost var chain, next := chains[i], NextsOf(nodes);
      freed := [];
      var node := buckets[i];
      buckets[i] := null;
      while node != null
        invariant |freed| <= |chain| && freed == chain[..|freed|] && node == NodeAt(chain, |freed|)
        decreases |chain| - |freed|
      {
        assert next[chain[|freed|]] == NodeAt(chain, |freed| + 1);
        var nextNode := node.next;
        freed := freed + [node];
        node := nextNode;
      }
    }
  }

  lemma LoadedLine(m: Bindings, data: string)
    ensures data == "" ==> LoadText(m, data) == m
    ensures data != "" && (forall x :: 0 <= x < |data| - 1 ==> data[x] != '\n') ==> LineSets(m, data, LoadText(m, data))
  {
    hide LoadText, LoadLine, LineSets;
    if forall x :: 0 <= x < |data| - 1 ==> data[x] != '\n' {
      LoadSingleLine(m, data);
      LoadLineSets(m, data);
    }
  }

  lemma DumpsOne(chains: Chains, hash: Hash, contents: Bindings)
    requires |chains| == BUCKETS_SIZE && Placed(chains, hash) && Represents(chains, hash, contents)
    ensures forall k, v :: contents == map[k := v] ==> PrintedAs(DumpText(AllEntries(chains)), Entry(k, v))
  {
    AllEntriesEnumerate(chains, hash, contents);
    hide Placed, Represents, PrintedAs, DumpText, AllEntries, Enumerates;
    forall k, v | contents == map[k := v]
      ensures PrintedAs(DumpText(AllEntries(chains)), Entry(k, v))
    {
      DumpOfOne(AllEntries(chains), k, v);
    }
  }

  lemma NextsOfNone()
    ensures NextsOf({}) == map[]
  {
  }

  function AllNodes(chains: Chains): seq<Node> {
    if chains == [] then [] else chains[0] + AllNodes(chains[1..])
  }

  /** A table loaded from a text with lines of at most 2046 characters is the same after dump and load. */
  lemma TableRoundTrip(table: UnixConfig, text: string)
    requires table.Valid() && LinesUpTo(text, MAX_LINE_SIZE - 2) && table.contents == LoadText(map[], text)
    ensures LoadText(map[], DumpText(AllEntries(table.chains))) == table.contents
    ensures BufferHolds(DumpText(AllEntries(table.chains)))
  {
    var es := AllEntries(table.chains);
    AllEntriesEnumerate(table.chains, table.hash, table.contents);
    TextRoundTrip(text, es);
    LoadKeepsFitting(map[], text);
    forall i | 0 <= i < |es|
      ensures Fits(es[i])
    {
      assert es[i] in es;
      EntriesBound(es, table.contents, es[i]);
    }
    DumpCanBeLoaded(es);
  }
}
