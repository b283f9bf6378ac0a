/** The values of the Huffman coder: tree nodes, the priority order the
    construction queue uses, traversal directions and the built tree. */
module HuffmanTypes {

  datatype Option<T> = None | Some(value: T)

  /** The result of comparing two values, as `std::cmp::Ordering`. */
  datatype Ordering = Less | Equal | Greater {
    function Reverse(): Ordering {
      match this
      case Less => Greater
      case Equal => Equal
      case Greater => Less
    }
  }

  /** A tree node. Every node carries a frequency (a `usize` in the source,
      unbounded here); a leaf holds one symbol, a branch owns two children. */
  datatype Node<T> =
    | Leaf(frequency: nat, symbol: T)
    | Branch(frequency: nat, left: Node<T>, right: Node<T>)

  datatype Direction = Left | Right

  /** The built tree: its root and the set of distinct symbols it encodes. */
  datatype Tree<T> = Tree(root: Node<T>, elements: set<T>)

  /** `usize::cmp`. */
  function CompareNat(a: nat, b: nat): (r: Ordering)
    ensures r == Less <==> a < b
    ensures r == Greater <==> a > b
  {
    if a < b then Less else if a == b then Equal else Greater
  }

  /** Node equality looks at the frequency only. */
  predicate NodeEq<T>(a: Node<T>, b: Node<T>) {
    a.frequency == b.frequency
  }

  /** Node order: the frequency order reversed, so that a max-heap of nodes
      hands out a node of least frequency first. */
  function Cmp<T>(a: Node<T>, b: Node<T>): (r: Ordering)
    ensures r == Greater <==> a.frequency < b.frequency
    ensures r == Less <==> b.frequency < a.frequency
    ensures r == Equal <==> NodeEq(a, b)
  {
    CompareNat(a.frequency, b.frequency).Reverse()
  }

  /** `Cmp` is a total preorder whose equivalence is `NodeEq`, as a heap
      requires of its element order. */
  lemma CmpIsTotalPreorder<T>(a: Node<T>, b: Node<T>, c: Node<T>)
    ensures Cmp(a, b) == Cmp(b, a).Reverse()
    ensures Cmp(a, b) != Greater || Cmp(b, a) != Greater
    ensures Cmp(a, b) != Greater && Cmp(b, c) != Greater ==> Cmp(a, c) != Greater
  {
  }

  /** The leaf symbols below `n`, each leaf counted once. */
  function Symbols<T>(n: Node<T>): multiset<T> {
    match n
    case Leaf(_, s) => multiset{s}
    case Branch(_, l, r) => Symbols(l) + Symbols(r)
  }

  /** The leaf symbols below `n`, each leaf counted `frequency` times. */
  function Weighted<T>(n: Node<T>): multiset<T> {
    match n
    case Leaf(f, s) => multiset{}[s := f]
    case Branch(_, l, r) => Weighted(l) + Weighted(r)
  }

  /** Every branch below `n` carries the sum of its children's frequencies. */
  predicate SumsHold<T>(n: Node<T>) {
    match n
    case Leaf(_, _) => true
    case Branch(f, l, r) => f == l.frequency + r.frequency && SumsHold(l) && SumsHold(r)
  }

  /** Every leaf below `n` carries the count of its symbol in `counts`. */
  predicate LeavesCounted<T>(n: Node<T>, counts: multiset<T>) {
    match n
    case Leaf(f, s) => f == counts[s]
    case Branch(_, l, r) => LeavesCounted(l, counts) && LeavesCounted(r, counts)
  }

  /** Every node holds at least one leaf; a node with exactly one is a leaf. */
  lemma {:induction false} SymbolsNonEmpty<T>(n: Node<T>)
    ensures |Symbols(n)| >= 1
    ensures |Symbols(n)| == 1 <==> n.Leaf?
  {
    match n
    case Leaf(_, _) =>
    case Branch(_, l, r) =>
      SymbolsNonEmpty(l);
      SymbolsNonEmpty(r);
  }

  /** Where the branch sums hold, a node's frequency is its weighted leaf count. */
  lemma {:induction false} WeightedSize<T>(n: Node<T>)
    requires SumsHold(n)
    ensures |Weighted(n)| == n.frequency
  {
    match n
    case Leaf(_, _) =>
    case Branch(_, l, r) =>
      WeightedSize(l);
      WeightedSize(r);
  }

  /** The node reached from `n` by following `dirs`, if the walk stays inside the tree. */
  function Walk<T>(n: Node<T>, dirs: seq<Direction>): Option<Node<T>>
    decreases |dirs|
  {
    if dirs == [] then Some(n)
    else match n
      case Leaf(_, _) => None
      case Branch(_, l, r) => Walk(if dirs[0] == Left then l else r, dirs[1..])
  }

  /** `dirs` leads from `n` to a leaf holding `target`. */
  predicate LeadsTo<T(==)>(n: Node<T>, dirs: seq<Direction>, target: T) {
    var end := Walk(n, dirs);
    end.Some? && end.value.Leaf? && end.value.symbol == target
  }

  /** A walk that ends on a leaf cannot be extended: a path to a leaf is
      a prefix of another walk only when the two are equal. */
  lemma {:induction false} LeafEndsWalk<T>(n: Node<T>, p: seq<Direction>, q: seq<Direction>)
    requires Walk(n, p).Some? && Walk(n, p).value.Leaf?
    requires p <= q && Walk(n, q).Some?
    ensures q == p
    decreases |p|
  {
    if p != [] {
      match n
      case Branch(_, l, r) =>
        LeafEndsWalk(if p[0] == Left then l else r, p[1..], q[1..]);
    }
  }
}
