/** Construction of the Huffman tree (`Tree::new`): count the source symbols,
    seed a priority queue with one leaf per distinct symbol, then merge the two
    least frequent nodes until one node, the root, is left.

    The priority queue is a `seq` of nodes whose order carries no meaning;
    popping it hands out SOME node that is greatest under `Cmp`, i.e. of least
    frequency, and which one among equals is left open. */
module TreeBuilder {
  import opened HuffmanTypes

  /** The distinct symbols of `source`. */
  function Alphabet<T(==)>(source: seq<T>): set<T> {
    set x | x in source
  }

  /** The multisets `f` gives for each node of `queue`, added up. */
  function SumOf<T>(queue: seq<Node<T>>, f: Node<T> -> multiset<T>): multiset<T> {
    if queue == [] then multiset{} else SumOf(queue[..|queue| - 1], f) + f(queue[|queue| - 1])
  }

  /** The frequencies of the nodes of `queue`, added up. */
  function TotalFrequency<T>(queue: seq<Node<T>>): nat {
    if queue == [] then 0 else TotalFrequency(queue[..|queue| - 1]) + queue[|queue| - 1].frequency
  }

  lemma {:induction false} SumOfConcat<T>(a: seq<Node<T>>, b: seq<Node<T>>, f: Node<T> -> multiset<T>)
    ensures SumOf(a + b, f) == SumOf(a, f) + SumOf(b, f)
    decreases |b|
  {
    if b == [] {
      assert a + b == a;
    } else {
      var b' := b[..|b| - 1];
      assert (a + b)[..|a + b| - 1] == a + b';
      SumOfConcat(a, b', f);
    }
  }

  /** Taking the node at `i` out of the queue takes exactly its share out of `SumOf`. */
  lemma SumOfRemoved<T>(queue: seq<Node<T>>, i: nat, f: Node<T> -> multiset<T>)
    requires i < |queue|
    ensures SumOf(queue, f) == SumOf(queue[..i] + queue[i + 1..], f) + f(queue[i])
  {
    var before, at, after := queue[..i], [queue[i]], queue[i + 1..];
    assert queue == before + (at + after);
    SumOfConcat(before, at + after, f);
    SumOfConcat(at, after, f);
    SumOfConcat(before, after, f);
    SumOfSingle(queue[i], f);
  }

  lemma SumOfSingle<T>(n: Node<T>, f: Node<T> -> multiset<T>)
    ensures SumOf([n], f) == f(n)
  {
    assert [n][..0] == [];
  }

  /** Where every branch sum holds, the queue's total frequency is the size
      of its weighted leaf multiset. */
  lemma {:induction false} TotalFrequencyIsWeight<T>(queue: seq<Node<T>>)
    requires forall k :: 0 <= k < |queue| ==> SumsHold(queue[k])
    ensures TotalFrequency(queue) == |SumOf(queue, Weighted)|
    decreases |queue|
  {
    if queue != [] {
      var q' := queue[..|queue| - 1];
      TotalFrequencyIsWeight(q');
      WeightedSize(queue[|queue| - 1]);
    }
  }

  /** `queue[i]` is greatest under `Cmp`: what a max-heap pops. */
  predicate IsGreatestAt<T>(queue: seq<Node<T>>, i: nat)
    requires i < |queue|
  {
    forall j :: 0 <= j < |queue| ==> Cmp(queue[j], queue[i]) != Greater
  }

  lemma {:induction false} GreatestExists<T>(queue: seq<Node<T>>)
    requires |queue| > 0
    ensures exists i :: 0 <= i < |queue| && IsGreatestAt(queue, i)
    decreases |queue|
  {
    if |queue| == 1 {
      assert IsGreatestAt(queue, 0);
    } else {
      var q' := queue[..|queue| - 1];
      GreatestExists(q');
      var i :| 0 <= i < |q'| && IsGreatestAt(q', i);
      var last := |queue| - 1;
      if queue[last].frequency < queue[i].frequency {
        assert IsGreatestAt(queue, last);
      } else {
        assert IsGreatestAt(queue, i);
      }
    }
  }

  /** `node_queue.pop().unwrap()`: takes out some node that is greatest under
      `Cmp`, that is one of least frequency. */
  method PopMin<T(==)>(queue: seq<Node<T>>) returns (top: Node<T>, rest: seq<Node<T>>)
    requires |queue| > 0
    ensures exists i :: 0 <= i < |queue| && top == queue[i] && rest == queue[..i] + queue[i + 1..]
    ensures multiset(rest) + multiset{top} == multiset(queue)
    ensures forall n :: n in queue ==> Cmp(n, top) != Greater
    ensures forall n :: n in queue ==> top.frequency <= n.frequency
  {
    GreatestExists(queue);
    var i :| 0 <= i < |queue| && IsGreatestAt(queue, i);
    top := queue[i];
    rest := queue[..i] + queue[i + 1..];
    assert queue == queue[..i] + [top] + queue[i + 1..];
  }

  /** What `Tree::new` guarantees of the tree it builds from `source`. */
  ghost predicate WellBuilt<T>(t: Tree<T>, source: seq<T>) {
    && t.elements == Alphabet(source)
    && Symbols(t.root) == multiset(t.elements)
    && SumsHold(t.root)
    && LeavesCounted(t.root, multiset(source))
    && t.root.frequency == |source|
  }

  /** The merge loop's invariant: the queue's leaves are the elements, once
      each, weighted by their counts, and every node's branch sums hold. */
  ghost predicate QueueInvariant<T>(queue: seq<Node<T>>, elements: set<T>, counts: multiset<T>) {
    && SumOf(queue, Symbols) == multiset(elements)
    && SumOf(queue, Weighted) == counts
    && NodesValid(queue, counts)
    && TotalFrequency(queue) == |counts|
  }

  /** `n`'s branch sums hold and its leaves carry their counts. */
  ghost predicate NodeValid<T>(n: Node<T>, counts: multiset<T>) {
    SumsHold(n) && LeavesCounted(n, counts)
  }

  ghost predicate NodesValid<T>(queue: seq<Node<T>>, counts: multiset<T>) {
    forall k :: 0 <= k < |queue| ==> NodeValid(queue[k], counts)
  }

  lemma RemoveKeepsNodes<T>(queue: seq<Node<T>>, i: nat, counts: multiset<T>)
    requires i < |queue| && NodesValid(queue, counts)
    ensures NodeValid(queue[i], counts) && NodesValid(queue[..i] + queue[i + 1..], counts)
  {
    var rest := queue[..i] + queue[i + 1..];
    forall k | 0 <= k < |rest| ensures NodeValid(rest[k], counts) {
      if k < i { assert rest[k] == queue[k]; } else { assert rest[k] == queue[k + 1]; }
    }
  }

  /** `left` and `right` leave the queue at `i` and `j`, leaving `rest'`. */
  ghost predicate TwoRemoved<T>(queue: seq<Node<T>>, left: Node<T>, rest: seq<Node<T>>,
                                right: Node<T>, rest': seq<Node<T>>, i: nat, j: nat) {
    && i < |queue| && left == queue[i] && rest == queue[..i] + queue[i + 1..]
    && j < |rest| && right == rest[j] && rest' == rest[..j] + rest[j + 1..]
  }

  /** Taking two nodes out of the queue and putting back their branch leaves
      `SumOf` unchanged, for any `f` that adds up over a branch's children. */
  lemma MergeKeepsSum<T>(queue: seq<Node<T>>, left: Node<T>, rest: seq<Node<T>>,
                         right: Node<T>, rest': seq<Node<T>>, i: nat, j: nat, f: Node<T> -> multiset<T>)
    requires TwoRemoved(queue, left, rest, right, rest', i, j)
    requires forall fr, l, r :: f(Branch(fr, l, r)) == f(l) + f(r)
    ensures SumOf(rest' + [Branch(left.frequency + right.frequency, left, right)], f) == SumOf(queue, f)
  {
    var merged := Branch(left.frequency + right.frequency, left, right);
    SumOfRemoved(queue, i, f);
    SumOfRemoved(rest, j, f);
    calc {
      SumOf(rest' + [merged], f);
      SumOf((rest' + [merged])[..|rest'|], f) + f(merged);
      { assert (rest' + [merged])[..|rest'|] == rest'; }
      SumOf(rest', f) + f(merged);
      SumOf(rest', f) + f(right) + f(left);
      SumOf(rest, f) + f(left);
      SumOf(queue, f);
    }
  }

  /** One merge step: taking `left` and then `right` out of the queue and
      putting back their branch keeps the invariant. */
  lemma MergeStep<T>(queue: seq<Node<T>>, left: Node<T>, rest: seq<Node<T>>,
                     right: Node<T>, rest': seq<Node<T>>, elements: set<T>, counts: multiset<T>)
    requires QueueInvariant(queue, elements, counts)
    requires exists i, j :: TwoRemoved(queue, left, rest, right, rest', i, j)
    ensures QueueInvariant(rest' + [Branch(left.frequency + right.frequency, left, right)], elements, counts)
  {
    var i, j :| TwoRemoved(queue, left, rest, right, rest', i, j);
    var merged := Branch(left.frequency + right.frequency, left, right);
    MergeKeepsSum(queue, left, rest, right, rest', i, j, Symbols);
    MergeKeepsSum(queue, left, rest, right, rest', i, j, Weighted);
    MergeKeepsNodes(queue, left, rest, right, rest', i, j, counts);
    TotalFrequencyIsWeight(rest' + [merged]);
  }

  /** Every node of the queue after a merge step is valid. */
  lemma MergeKeepsNodes<T>(queue: seq<Node<T>>, left: Node<T>, rest: seq<Node<T>>,
                           right: Node<T>, rest': seq<Node<T>>, i: nat, j: nat, counts: multiset<T>)
    requires TwoRemoved(queue, left, rest, right, rest', i, j) && NodesValid(queue, counts)
    ensures NodesValid(rest' + [Branch(left.frequency + right.frequency, left, right)], counts)
  {
    var merged := Branch(left.frequency + right.frequency, left, right);
    RemoveKeepsNodes(queue, i, counts);
    RemoveKeepsNodes(rest, j, counts);
    assert NodeValid(merged, counts);
    forall k | 0 <= k < |rest'| + 1 ensures NodeValid((rest' + [merged])[k], counts) {
      if k < |rest'| { assert (rest' + [merged])[k] == rest'[k]; }
    }
  }

  /** The seeding loop's invariant: `elements` are the symbols seeded so far,
      `pending` those still to come. */
  ghost predicate SeedInvariant<T>(queue: seq<Node<T>>, elements: set<T>, pending: set<T>, source: seq<T>) {
    && elements !! pending
    && elements + pending == Alphabet(source)
    && |queue| == |elements|
    && SumOf(queue, Symbols) == multiset(elements)
    && SumOf(queue, Weighted) <= multiset(source)
    && (forall x :: x in elements ==> SumOf(queue, Weighted)[x] == multiset(source)[x])
    && (forall x :: x in SumOf(queue, Weighted) ==> x in elements)
    && NodesValid(queue, multiset(source))
  }

  /** Seeding one more symbol keeps the seeding invariant. */
  lemma SeedStep<T>(queue: seq<Node<T>>, elements: set<T>, pending: set<T>, source: seq<T>, item: T)
    requires SeedInvariant(queue, elements, pending, source) && item in pending
    ensures SeedInvariant(queue + [Leaf(multiset(source)[item], item)], elements + {item}, pending - {item}, source)
  {
    var leaf := Leaf(multiset(source)[item], item);
    SeedSymbols(queue, elements, leaf);
    SeedWeights(queue, elements, source, item);
    assert NodesValid(queue + [leaf], multiset(source)) by {
      forall k | 0 <= k < |queue| + 1 ensures NodeValid((queue + [leaf])[k], multiset(source)) {
        if k < |queue| { assert (queue + [leaf])[k] == queue[k]; }
      }
    }
  }

  /** Appending a leaf whose symbol is not yet seeded adds that symbol once. */
  lemma SeedSymbols<T>(queue: seq<Node<T>>, elements: set<T>, leaf: Node<T>)
    requires SumOf(queue, Symbols) == multiset(elements)
    requires leaf.Leaf? && leaf.symbol !in elements
    ensures SumOf(queue + [leaf], Symbols) == multiset(elements + {leaf.symbol})
  {
    SumOfConcat(queue, [leaf], Symbols);
    assert SumOf([leaf], Symbols) == Symbols(leaf) by {
      assert [leaf][..0] == [];
    }
    assert multiset(elements + {leaf.symbol}) == multiset(elements) + multiset{leaf.symbol};
  }

  /** Appending the leaf of a not yet seeded symbol, carrying its count, gives
      that symbol its full count and leaves the others as they were. */
  lemma SeedWeights<T>(queue: seq<Node<T>>, elements: set<T>, source: seq<T>, item: T)
    requires SumOf(queue, Weighted) <= multiset(source)
    requires forall x :: x in elements ==> SumOf(queue, Weighted)[x] == multiset(source)[x]
    requires forall x :: x in SumOf(queue, Weighted) ==> x in elements
    requires item !in elements
    ensures SumOf(queue + [Leaf(multiset(source)[item], item)], Weighted) <= multiset(source)
    ensures forall x :: x in elements + {item} ==>
              SumOf(queue + [Leaf(multiset(source)[item], item)], Weighted)[x] == multiset(source)[x]
    ensures forall x :: x in SumOf(queue + [Leaf(multiset(source)[item], item)], Weighted) ==> x in elements + {item}
  {
    var leaf := Leaf(multiset(source)[item], item);
    var w := SumOf(queue, Weighted);
    SumOfConcat(queue, [leaf], Weighted);
    assert SumOf([leaf], Weighted) == Weighted(leaf) by {
      assert [leaf][..0] == [];
    }
    assert w[item] == 0;
    assert SumOf(queue + [leaf], Weighted) == w[item := multiset(source)[item]];
  }

  /** Once every distinct symbol is seeded, the merge loop's invariant holds. */
  lemma SeedDone<T>(queue: seq<Node<T>>, source: seq<T>)
    requires SeedInvariant(queue, Alphabet(source), {}, source)
    ensures QueueInvariant(queue, Alphabet(source), multiset(source))
  {
    var counts := multiset(source);
    var w := SumOf(queue, Weighted);
    forall x ensures w[x] == counts[x] {
      if x !in source {
        assert counts[x] == 0;
      }
    }
    assert w == counts;
    TotalFrequencyIsWeight(queue);
  }

  /** A queue holding one node satisfying the invariant is a well-built tree. */
  lemma MergeDone<T>(root: Node<T>, source: seq<T>)
    requires QueueInvariant([root], Alphabet(source), multiset(source))
    ensures WellBuilt(Tree(root, Alphabet(source)), source)
  {
    assert [root][..0] == [];
    assert SumOf([root], Symbols) == Symbols(root);
    assert SumOf([root], Weighted) == Weighted(root);
    assert NodeValid([root][0], multiset(source));
    WeightedSize(root);
    assert |multiset(source)| == |source|;
  }

  /** The `for item in &counts` loop of `Tree::new`: one leaf per distinct
      symbol, carrying its count, visited in whatever order the counter
      yields them. */
  method SeedQueue<T(==)>(source: seq<T>) returns (queue: seq<Node<T>>, elements: set<T>)
    ensures elements == Alphabet(source) && |queue| == |elements|
    ensures QueueInvariant(queue, elements, multiset(source))
  {
    var counts := multiset(source);
    queue, elements := [], {};
    var pending := Alphabet(source);
    while pending != {}
      invariant SeedInvariant(queue, elements, pending, source)
      decreases pending
    {
      var item :| item in pending;
      SeedStep(queue, elements, pending, source, item);
      queue := queue + [Leaf(counts[item], item)];
      elements := elements + {item};
      pending := pending - {item};
    }
    SeedDone(queue, source);
  }

  /** The `while node_queue.len() > 1` loop of `Tree::new`: each iteration
      pops two nodes of least frequency and pushes their branch, so it runs
      once less than the queue is long and keeps the leaves and their
      weights. */
  method MergeQueue<T(==)>(queue: seq<Node<T>>, ghost elements: set<T>, ghost counts: multiset<T>)
    returns (merged: seq<Node<T>>, ghost merges: nat)
    requires |queue| >= 1 && QueueInvariant(queue, elements, counts)
    ensures |merged| == 1 && merges + 1 == |queue|
    ensures QueueInvariant(merged, elements, counts)
  {
    merged, merges := queue, 0;
    while |merged| > 1
      invariant |merged| >= 1
      invariant merges + |merged| == |queue|
      invariant QueueInvariant(merged, elements, counts)
      decreases |merged|
    {
      var left, rest := PopMin(merged);
      var right, rest' := PopMin(rest);
      assert exists i, j :: TwoRemoved(merged, left, rest, right, rest', i, j) by {
        var i :| 0 <= i < |merged| && left == merged[i] && rest == merged[..i] + merged[i + 1..];
        var j :| 0 <= j < |rest| && right == rest[j] && rest' == rest[..j] + rest[j + 1..];
        assert TwoRemoved(merged, left, rest, right, rest', i, j);
      }
      MergeStep(merged, left, rest, right, rest', elements, counts);
      merged := rest' + [Branch(left.frequency + right.frequency, left, right)];
      merges := merges + 1;
    }
  }

  /** `Tree::new`: `None` for an empty source, otherwise a tree whose leaves
      are the distinct source symbols, once each, weighted by their counts.
      `merges` counts the iterations of the merge loop. */
  method NewTree<T(==)>(source: seq<T>) returns (r: Option<Tree<T>>, ghost merges: nat)
    ensures r.None? <==> source == []
    ensures r.Some? ==> WellBuilt(r.value, source)
    ensures r.Some? ==> merges + 1 == |Alphabet(source)|
  {
    var counts := multiset(source);
    if |counts| == 0 {
      return None, 0;
    }
    assert source[0] in Alphabet(source);
    var queue, elements := SeedQueue(source);
    queue, merges := MergeQueue(queue, elements, counts);
    var root, rest := PopMin(queue);
    assert queue == [root] by {
      assert |multiset(rest)| == 0;
      assert multiset(queue) == multiset{root};
      assert queue[0] in multiset(queue);
    }
    MergeDone(root, source);
    r := Some(Tree(root, elements));
  }
}
