/**
 * Huffman trie nodes, the node ordering of the priority queue, and the
 * minimum-pair merging that builds a trie from a frequency table.
 *
 * The priority queue is modelled as a sequence kept strictly sorted by
 * `Less`: its head is the node a `get` returns, and `Insert` is a `put`.
 */
module Huffman {

  /** The End-of-Transmission-Block character, reserved as the end-of-message marker. */
  const ETB: char := '\U{17}'

  /**
   * A trie node. A leaf carries one symbol and its count; an internal node
   * carries its representative symbol, the total count of its subtree and
   * its two children.
   */
  datatype Node =
    | Leaf(symbol: char, freq: nat)
    | Internal(symbol: char, freq: nat, zeroChild: Node, oneChild: Node)
  {
    /** A node is a leaf exactly when it has no children. */
    predicate IsLeaf() {
      Leaf?
    }
  }

  /** The queue ordering: lower count first, ties broken by the smaller symbol. */
  predicate Less(a: Node, b: Node) {
    if a.freq == b.freq then a.symbol < b.symbol else a.freq < b.freq
  }

  /** `Less` is the strict lexicographic order on (count, symbol). */
  lemma LessIsLexicographic(a: Node, b: Node, c: Node)
    ensures Less(a, b) <==> a.freq < b.freq || (a.freq == b.freq && a.symbol < b.symbol)
    ensures !Less(a, a)
    ensures Less(a, b) ==> !Less(b, a)
    ensures Less(a, b) && Less(b, c) ==> Less(a, c)
    ensures Less(a, b) || Less(b, a) || (a.freq == b.freq && a.symbol == b.symbol)
  {
  }

  /** The symbols on the leaves below `n`. */
  function Symbols(n: Node): set<char> {
    match n
    case Leaf(c, _) => {c}
    case Internal(_, _, z, o) => Symbols(z) + Symbols(o)
  }

  /** The (symbol, count) pairs on the leaves below `n`, with multiplicity. */
  function Leaves(n: Node): multiset<(char, nat)> {
    match n
    case Leaf(c, f) => multiset{(c, f)}
    case Internal(_, _, z, o) => Leaves(z) + Leaves(o)
  }

  /**
   * Every internal node is a merge result: its count is the sum of its
   * children's, its symbol the smaller of theirs, its zero child the one
   * that came out of the queue first, and the two subtrees share no symbol.
   */
  ghost predicate WellFormed(n: Node) {
    match n
    case Leaf(_, _) => true
    case Internal(c, f, z, o) =>
      && WellFormed(z) && WellFormed(o)
      && f == z.freq + o.freq
      && c == (if z.symbol < o.symbol then z.symbol else o.symbol)
      && Less(z, o)
      && Symbols(z) !! Symbols(o)
  }

  /** The representative symbol of a well-formed node is the least symbol below it. */
  lemma {:induction false} SymbolIsLeast(n: Node)
    requires WellFormed(n)
    ensures n.symbol in Symbols(n)
    ensures forall c | c in Symbols(n) :: n.symbol <= c
  {
    if n.Internal? {
      SymbolIsLeast(n.zeroChild);
      SymbolIsLeast(n.oneChild);
    }
  }

  /** A symbol is below `n` exactly when some leaf below `n` carries it. */
  lemma {:induction false} SymbolsOfLeaves(n: Node)
    ensures forall c :: c in Symbols(n) <==> exists f :: (c, f) in Leaves(n)
  {
    match n
    case Leaf(c, f) =>
      assert (c, f) in Leaves(n);
    case Internal(_, _, z, o) =>
      SymbolsOfLeaves(z);
      SymbolsOfLeaves(o);
  }

  // ---------------------------------------------------------------------------
  // The priority queue

  /** The queue is in strictly increasing `Less` order, so its head is its minimum. */
  predicate Sorted(q: seq<Node>) {
    forall i, j | 0 <= i < j < |q| :: Less(q[i], q[j])
  }

  /** `put`: place `x` in front of the first node it is less than. */
  function Insert(q: seq<Node>, x: Node): (r: seq<Node>)
    ensures |r| == |q| + 1
    ensures multiset(r) == multiset(q) + multiset{x}
    decreases |q|
  {
    if q == [] then [x]
    else if Less(x, q[0]) then [x] + q
    else
      assert q == [q[0]] + q[1..];
      [q[0]] + Insert(q[1..], x)
  }

  /** The nodes in the queue after a `put` are the old ones and the new one. */
  lemma InsertMembers(q: seq<Node>, x: Node)
    ensures forall z :: z in Insert(q, x) <==> z in q || z == x
  {
    var r := Insert(q, x);
    forall z ensures z in r <==> z in q || z == x {
      assert z in r <==> z in multiset(r);
      assert z in q <==> z in multiset(q);
    }
  }

  /** `put` keeps the queue sorted when the new node's symbol is not already queued. */
  lemma {:induction false} InsertSorted(q: seq<Node>, x: Node)
    requires Sorted(q)
    requires forall i | 0 <= i < |q| :: q[i].symbol != x.symbol
    ensures Sorted(Insert(q, x))
    decreases |q|
  {
    if q != [] && !Less(x, q[0]) {
      var rest := Insert(q[1..], x);
      InsertSorted(q[1..], x);
      assert Less(q[0], x);
      InsertMembers(q[1..], x);
      forall k | 0 <= k < |rest| ensures Less(q[0], rest[k]) {
        assert rest[k] in rest;
        if rest[k] != x {
          assert rest[k] in q[1..];
          var i :| 0 <= i < |q[1..]| && q[1..][i] == rest[k];
          assert q[1..][i] == q[i + 1];
        }
      }
    }
  }

  /** The nodes in the queue: each is well formed and no two share a symbol. */
  ghost predicate IsForest(q: seq<Node>) {
    && Sorted(q)
    && (forall x | x in q :: WellFormed(x))
    && (forall x, y | x in q && y in q && x != y :: Symbols(x) !! Symbols(y))
  }

  /** All leaves of the nodes in a queue. */
  function ForestLeaves(q: seq<Node>): multiset<(char, nat)>
    decreases |q|
  {
    if q == [] then multiset{} else Leaves(q[0]) + ForestLeaves(q[1..])
  }

  /** The sum of the counts of the nodes in a queue. */
  function ForestFreq(q: seq<Node>): nat
    decreases |q|
  {
    if q == [] then 0 else q[0].freq + ForestFreq(q[1..])
  }

  lemma {:induction false} ForestInsert(q: seq<Node>, x: Node)
    ensures ForestLeaves(Insert(q, x)) == ForestLeaves(q) + Leaves(x)
    ensures ForestFreq(Insert(q, x)) == ForestFreq(q) + x.freq
    decreases |q|
  {
    if q != [] && !Less(x, q[0]) {
      ForestInsert(q[1..], x);
      var r := Insert(q, x);
      assert r[1..] == Insert(q[1..], x);
    }
  }

  /** The parent `make_trie` builds from the two nodes it took out of the queue, in that order. */
  function Merge(x: Node, y: Node): (r: Node)
    ensures r.Internal? && r.zeroChild == x && r.oneChild == y
    ensures r.freq == x.freq + y.freq
    ensures r.symbol <= x.symbol && r.symbol <= y.symbol
    ensures r.symbol == x.symbol || r.symbol == y.symbol
  {
    Internal(if x.symbol < y.symbol then x.symbol else y.symbol, x.freq + y.freq, x, y)
  }

  /**
   * The trie `make_trie` returns for a queue: while more than one node is
   * queued, take out the two least and put back their merge.
   */
  function MergeLoop(q: seq<Node>): Node
    requires |q| >= 1
    decreases |q|
  {
    if |q| == 1 then q[0] else MergeLoop(Insert(q[2..], Merge(q[0], q[1])))
  }

  /**
   * The merge of the two least nodes of a forest is well formed, and shares
   * no symbol with the nodes left in the queue.
   */
  lemma MergeOfLeastTwo(q: seq<Node>)
    requires IsForest(q) && |q| >= 2
    ensures WellFormed(Merge(q[0], q[1]))
    ensures forall i | 2 <= i < |q| :: q[i].symbol != Merge(q[0], q[1]).symbol
    ensures forall i | 2 <= i < |q| :: Symbols(q[i]) !! Symbols(Merge(q[0], q[1]))
  {
    var x, y := q[0], q[1];
    var m := Merge(x, y);
    assert x in q && y in q && x != y by {
      assert Less(q[0], q[1]);
    }
    assert WellFormed(m);
    SymbolIsLeast(x);
    SymbolIsLeast(y);
    forall i | 2 <= i < |q|
      ensures q[i].symbol != m.symbol
      ensures Symbols(q[i]) !! Symbols(m)
    {
      assert q[i] in q;
      assert Less(x, q[i]) && Less(y, q[i]);
      SymbolIsLeast(q[i]);
    }
  }

  /** A forest without its two least nodes is still a forest. */
  lemma ForestTail(q: seq<Node>)
    requires IsForest(q) && |q| >= 2
    ensures IsForest(q[2..])
  {
    var rest := q[2..];
    assert forall z | z in rest :: z in q;
  }

  /** Putting a well-formed node that shares no symbol with a forest keeps it a forest. */
  lemma InsertForest(rest: seq<Node>, m: Node)
    requires IsForest(rest) && WellFormed(m)
    requires forall i | 0 <= i < |rest| :: rest[i].symbol != m.symbol
    requires forall i | 0 <= i < |rest| :: Symbols(rest[i]) !! Symbols(m)
    ensures IsForest(Insert(rest, m))
  {
    var r := Insert(rest, m);
    InsertSorted(rest, m);
    InsertMembers(rest, m);
    forall z, w | z in r && w in r && z != w
      ensures Symbols(z) !! Symbols(w)
    {
      if z == m {
        var i :| 0 <= i < |rest| && rest[i] == w;
      } else if w == m {
        var i :| 0 <= i < |rest| && rest[i] == z;
      }
    }
  }

  /** One merge step keeps the queue a forest with the same leaves and the same total count. */
  lemma MergeStep(q: seq<Node>)
    requires IsForest(q) && |q| >= 2
    ensures IsForest(Insert(q[2..], Merge(q[0], q[1])))
    ensures ForestLeaves(Insert(q[2..], Merge(q[0], q[1]))) == ForestLeaves(q)
    ensures ForestFreq(Insert(q[2..], Merge(q[0], q[1]))) == ForestFreq(q)
  {
    MergedForest(q);
    ForestInsert(q[2..], Merge(q[0], q[1]));
    assert q[1..][1..] == q[2..];
  }

  /** Putting back the merge of the two least nodes of a forest leaves a forest. */
  lemma MergedForest(q: seq<Node>)
    requires IsForest(q) && |q| >= 2
    ensures IsForest(Insert(q[2..], Merge(q[0], q[1])))
  {
    var m, rest := Merge(q[0], q[1]), q[2..];
    MergeOfLeastTwo(q);
    ForestTail(q);
    forall i | 0 <= i < |rest|
      ensures rest[i].symbol != m.symbol && Symbols(rest[i]) !! Symbols(m)
    {
      assert rest[i] == q[i + 2];
    }
    InsertForest(rest, m);
  }

  /**
   * Building from a forest gives a well-formed trie holding exactly the
   * forest's leaves, whose count is the forest's total count.
   */
  lemma {:induction false} HuffmanCorrect(q: seq<Node>)
    requires IsForest(q) && |q| >= 1
    ensures WellFormed(MergeLoop(q))
    ensures Leaves(MergeLoop(q)) == ForestLeaves(q)
    ensures MergeLoop(q).freq == ForestFreq(q)
    decreases |q|
  {
    if |q| == 1 {
      assert q[0] in q;
      assert q[1..] == [];
    } else {
      MergeStep(q);
      HuffmanCorrect(Insert(q[2..], Merge(q[0], q[1])));
    }
  }

  /** Two strictly sorted queues holding the same nodes are the same queue. */
  lemma {:induction false} SortedUnique(s: seq<Node>, t: seq<Node>)
    requires Sorted(s) && Sorted(t)
    requires forall x :: x in s <==> x in t
    ensures s == t
    decreases |s|
  {
    assert s == [] <==> t == [] by {
      if s != [] {
        assert s[0] in t;
      }
      if t != [] {
        assert t[0] in s;
      }
    }
    if s != [] {
      assert s[0] in t;
      assert t != [] && t[0] in s;
      assert s[0] == t[0];
      forall x ensures x in s[1..] <==> x in t[1..] {
        if x in s[1..] {
          var i :| 1 <= i < |s| && s[i] == x;
          assert Less(s[0], s[i]);
          assert x in t;
        }
        if x in t[1..] {
          var i :| 1 <= i < |t| && t[i] == x;
          assert Less(t[0], t[i]);
          assert x in s;
        }
      }
      SortedUnique(s[1..], t[1..]);
      assert s == [s[0]] + s[1..] && t == [t[0]] + t[1..];
    }
  }

  // ---------------------------------------------------------------------------
  // From a frequency table

  /** `x` is the leaf `make_trie` creates for one entry of `freq`. */
  ghost predicate IsLeafOf(freq: map<char, nat>, x: Node) {
    x.Leaf? && x.symbol in freq && x.freq == freq[x.symbol]
  }

  /** The sum of all counts in a table. */
  ghost function Total(freq: map<char, nat>): nat
    decreases |freq|
  {
    if freq == map[] then 0
    else
      assert freq.Keys != {};
      var k :| k in freq;
      assert |freq - {k}| < |freq|;
      freq[k] + Total(freq - {k})
  }

  /** `Total` does not depend on which key is taken first. */
  lemma {:induction false} TotalRemove(freq: map<char, nat>, k: char)
    requires k in freq
    ensures Total(freq) == freq[k] + Total(freq - {k})
    decreases |freq|
  {
    var j :| j in freq && Total(freq) == freq[j] + Total(freq - {j});
    if j != k {
      var rest := freq - {j} - {k};
      assert freq - {j} - {k} == freq - {k} - {j};
      assert |freq - {j}| < |freq| && |freq - {k}| < |freq|;
      TotalRemove(freq - {j}, k);
      TotalRemove(freq - {k}, j);
    }
  }

  /** The initial queue of `make_trie`: one leaf per table entry, in queue order. */
  ghost function LeafQueue(freq: map<char, nat>): seq<Node>
    decreases |freq|
  {
    if freq == map[] then []
    else
      assert freq.Keys != {};
      var k :| k in freq;
      assert |freq - {k}| < |freq|;
      Insert(LeafQueue(freq - {k}), Leaf(k, freq[k]))
  }

  /** The initial queue is sorted and holds exactly one leaf per table entry. */
  lemma {:induction false} LeafQueueMembers(freq: map<char, nat>)
    ensures |LeafQueue(freq)| == |freq|
    ensures Sorted(LeafQueue(freq))
    ensures forall x :: x in LeafQueue(freq) <==> IsLeafOf(freq, x)
    decreases |freq|
  {
    if freq != map[] {
      var k :| k in freq && LeafQueue(freq) == Insert(LeafQueue(freq - {k}), Leaf(k, freq[k]));
      var smaller := freq - {k};
      assert |smaller| < |freq|;
      LeafQueueMembers(smaller);
      var q0 := LeafQueue(smaller);
      var leaf := Leaf(k, freq[k]);
      forall i | 0 <= i < |q0| ensures q0[i].symbol != k {
        assert q0[i] in q0;
      }
      InsertSorted(q0, leaf);
      InsertMembers(q0, leaf);
    }
  }

  /** The initial queue holds the table's entries as leaves and its total count. */
  lemma {:induction false} LeafQueueTotals(freq: map<char, nat>)
    ensures ForestLeaves(LeafQueue(freq)) == multiset(freq.Items)
    ensures ForestFreq(LeafQueue(freq)) == Total(freq)
    decreases |freq|
  {
    if freq != map[] {
      var k :| k in freq && LeafQueue(freq) == Insert(LeafQueue(freq - {k}), Leaf(k, freq[k]));
      var smaller := freq - {k};
      assert |smaller| < |freq|;
      LeafQueueTotals(smaller);
      ForestInsert(LeafQueue(smaller), Leaf(k, freq[k]));
      TotalRemove(freq, k);
      ItemsRemove(freq, k);
    }
  }

  lemma ItemsRemove(freq: map<char, nat>, k: char)
    requires k in freq
    ensures multiset(freq.Items) == multiset((freq - {k}).Items) + multiset{(k, freq[k])}
  {
    var smaller := freq - {k};
    forall p ensures p in freq.Items <==> p in smaller.Items || p == (k, freq[k]) {
      assert p in freq.Items <==> p.0 in freq && freq[p.0] == p.1;
      assert p in smaller.Items <==> p.0 in smaller && smaller[p.0] == p.1;
    }
    assert freq.Items == smaller.Items + {(k, freq[k])};
    assert (k, freq[k]) !in smaller.Items;
  }

  lemma LeafQueueFacts(freq: map<char, nat>)
    ensures |LeafQueue(freq)| == |freq|
    ensures IsForest(LeafQueue(freq))
    ensures forall x :: x in LeafQueue(freq) <==> IsLeafOf(freq, x)
    ensures ForestLeaves(LeafQueue(freq)) == multiset(freq.Items)
    ensures ForestFreq(LeafQueue(freq)) == Total(freq)
  {
    LeafQueueMembers(freq);
    LeafQueueTotals(freq);
  }

  /** The trie `make_trie` returns for a (non-empty) frequency table. */
  ghost function BuildTrie(freq: map<char, nat>): Node
    requires freq != map[]
  {
    LeafQueueFacts(freq);
    assert freq.Keys != {};
    MergeLoop(LeafQueue(freq))
  }

  /**
   * The built trie is well formed, its leaves are exactly the table's
   * entries (each once), its symbols are the table's keys and its count is
   * the table's total.
   */
  lemma BuildTrieFacts(freq: map<char, nat>)
    requires freq != map[]
    ensures WellFormed(BuildTrie(freq))
    ensures Leaves(BuildTrie(freq)) == multiset(freq.Items)
    ensures Symbols(BuildTrie(freq)) == freq.Keys
    ensures BuildTrie(freq).freq == Total(freq)
  {
    LeafQueueFacts(freq);
    var t := BuildTrie(freq);
    HuffmanCorrect(LeafQueue(freq));
    SymbolsOfLeaves(t);
    forall c ensures c in Symbols(t) <==> c in freq {
      if c in freq {
        assert (c, freq[c]) in freq.Items;
      }
    }
  }

  /** A one-entry table yields its single leaf as the root. */
  lemma BuildTrieSingle(freq: map<char, nat>, c: char, n: nat)
    requires freq == map[c := n]
    ensures freq != map[] && BuildTrie(freq) == Leaf(c, n)
  {
    assert c in freq;
    LeafQueueFacts(freq);
    var q := LeafQueue(freq);
    assert |q| == 1 && q[0] in q;
  }

  /** The trie built from a table is `Huffman` of any sorted queue of the table's leaves. */
  lemma BuildTrieFromQueue(freq: map<char, nat>, q: seq<Node>)
    requires freq != map[]
    requires Sorted(q)
    requires forall x :: x in q <==> IsLeafOf(freq, x)
    ensures |q| >= 1
    ensures BuildTrie(freq) == MergeLoop(q)
  {
    LeafQueueFacts(freq);
    SortedUnique(q, LeafQueue(freq));
  }
}
