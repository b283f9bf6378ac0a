# huff-rs in Dafny

A model of the Huffman coder in `src/lib.rs` of huff-rs, generic over the
symbol type `T`, with proofs about it.

- `HuffmanTypes` (`huffman_types.dfy`) holds the values. `Node` is either a
  `Leaf(frequency, symbol)` or a `Branch(frequency, left, right)`; the
  source's `Node { frequency, node_type }` plus `NodeType` are folded into one
  datatype. It also holds `Direction`, `Tree(root, elements)` and the node
  order `Cmp`, which reverses the frequency order so that a max-heap pops a
  node of least frequency. The leaves below a node are measured in two
  ways: `Symbols` counts each leaf once, and `Weighted` counts a leaf as
  many times as its frequency.
- `TreeBuilder` (`tree_builder.dfy`) is `Tree::new`. The `Counter` is the
  multiset of the source. The `BinaryHeap` is a sequence of nodes, and
  popping it takes out *some* node of least frequency. Which one is not
  fixed, and neither is the order in which the counter yields its symbols.
  So every property is proved for every tie-break and every seeding order.
  The seeding loop and the merge loop are the methods `SeedQueue` and
  `MergeQueue`. `NewTree` runs both, and its result is `WellBuilt`:
  - `elements` is the set of distinct source symbols;
  - each element sits at exactly one leaf;
  - each leaf carries its symbol's count;
  - each branch carries the sum of its children's frequencies;
  - the root carries the length of the source.
- `Codec` (`codec.dfy`) holds the path search and encoding. `FindPath` is
  `find_path`: it pushes and pops directions on the path it is handed and
  returns the path. It is proved against `PathTo`, the same left-first search
  written as a function. `GetCode` is `get_code`, proved against `Code`, and
  `Encode` is `encode`, proved against `Codes`.
- `Decoder` (`decoder.dfy`) is `decode`, modelled as written, next to a
  corrected decoder (see Findings).

The test at `src/lib.rs:190-209` asserts that `decode` inverts `encode`,
which needs a leaf's symbol to be emitted as soon as the cursor lands on the
leaf. The code at `src/lib.rs:159-174` does not do this. It emits the symbol
only when the *next* bit is read with the cursor on the leaf, and that bit is
spent on the emission. The model follows the code (`DecodeFrom`,
`Decode`). The landing behaviour is modelled separately as the corrected
decoder (`DecodeFixedFrom`, `DecodeFixed`).

Bits are `bool`, with `false` for 0 (Left) and `true` for 1 (Right). A
`BitVec` is a `seq<bool>` and a `HashSet` is a `set`. Frequencies are
unbounded `nat`s.

## Model

| member | source | states |
|---|---|---|
| HuffmanTypes.Cmp | src/lib.rs:12-27 | Node order: `Greater` exactly when the first node has the smaller frequency, `Less` exactly when it has the larger, and `Equal` exactly when `Node::eq` holds (equal frequencies) |
| HuffmanTypes.CmpIsTotalPreorder | src/lib.rs:18-27 | `cmp` is antisymmetric (`cmp(a,b)` is `cmp(b,a)` reversed), total and transitive, as the heap requires of `Ord` |
| HuffmanTypes.SymbolsNonEmpty | src/lib.rs:29-35 | Every node holds at least one leaf symbol; it holds exactly one precisely when it is a leaf |
| HuffmanTypes.WeightedSize | src/lib.rs:78-81 | Where every branch carries the sum of its children, a node's frequency is the number of source occurrences below it |
| HuffmanTypes.LeafEndsWalk | src/lib.rs:29-35 | A walk that ends on a leaf cannot be extended: if it is a prefix of another successful walk, the two are equal |
| TreeBuilder.TotalFrequencyIsWeight | src/lib.rs:75-82 | The total frequency of a queue of well-summed nodes equals the number of source occurrences it holds |
| TreeBuilder.PopMin | src/lib.rs:75-77 | `pop()` on a non-empty heap removes exactly one node (the rest is the queue without it), and the node is greatest under `Cmp`: no queued node has a smaller frequency |
| TreeBuilder.SeedStep | src/lib.rs:67-73 | Pushing the leaf of one more distinct symbol, carrying its count, and inserting the symbol into `elements` keeps the seeding invariant |
| TreeBuilder.SeedDone | src/lib.rs:67-73 | When every distinct symbol is seeded, the queue's leaves are the elements once each, weighted by exactly their counts, and the total frequency is the source length |
| TreeBuilder.SeedQueue | src/lib.rs:64-73 | The seeding loop gives one leaf per distinct symbol: `elements` is the set of distinct source symbols, the queue is as long as `elements`, and the merge invariant holds |
| TreeBuilder.MergeKeepsSum | src/lib.rs:78-81 | Popping two nodes and pushing their branch leaves the queue's leaf multiset unchanged |
| TreeBuilder.MergeStep | src/lib.rs:75-82 | One merge iteration keeps the invariant: the leaves are still the elements once each with their counts, every branch sum holds, and the total frequency is preserved |
| TreeBuilder.MergeQueue | src/lib.rs:75-82 | The merge loop leaves exactly one node, runs once less than the seeded queue is long, and keeps the invariant |
| TreeBuilder.MergeDone | src/lib.rs:84-87 | A single remaining node satisfying the invariant, paired with `elements`, is a well-built tree for the source |
| TreeBuilder.NewTree | src/lib.rs:53-88 | `None` exactly when the source is empty. Otherwise the tree is well built: elements are the distinct symbols and each sits at exactly one leaf, leaves carry their counts, branches carry their sums, and the root carries the source length. The merge loop ran k-1 times for k distinct symbols |
| Codec.PathTo | src/lib.rs:90-113 | The left-first search finds a path exactly when the target is a leaf symbol below the node, and the path it finds leads to a leaf holding the target |
| Codec.FindPath | src/lib.rs:90-113 | Returns true exactly when the target is a leaf symbol below `head`. On true, the directions appended to `path` are the path `PathTo` finds and lead to the target's leaf. On false, `path` comes back exactly as it was passed in |
| Codec.BitsPrefix | src/lib.rs:128-133 | Mapping directions to bits reflects prefixes: if one path's bits are a prefix of another's, so is the path |
| Codec.GetCode | src/lib.rs:115-136 | Computes `Code`. A leaf root gives the code 0. A symbol of the tree gets a non-empty code, and with a branch root only symbols of the tree get one |
| Codec.CodeOfMember | src/lib.rs:115-136 | With a branch root, a symbol's code is non-empty exactly when the symbol is in the tree, and it is then the bits of a path leading to the symbol's leaf |
| Codec.PrefixFree | src/lib.rs:115-136 | For two symbols of the tree, both codes are non-empty, and for distinct symbols neither code is a prefix of the other |
| Codec.ElementsPrefixFree | src/lib.rs:115-136 | In a tree whose leaves are its `elements` once each, every element has a non-empty code and no element's code is a prefix of another element's |
| Codec.CodesAppend | src/lib.rs:142-150 | Encoding one more symbol appends its code to the encoding so far |
| Codec.Encode | src/lib.rs:138-153 | `None` exactly when some input symbol is not in `elements`. Otherwise the result is the concatenation of the symbols' codes in input order, and empty input gives empty bits |
| Decoder.DecodeLeafRoot | src/lib.rs:169-172 | With a leaf root, decoding emits the sole symbol once per bit |
| Decoder.DecodeBound | src/lib.rs:159-174 | With a branch root, decoding emits at most one symbol per two bits, plus one if the cursor starts on a leaf |
| Decoder.DecodePrefix | src/lib.rs:159-176 | Appending bits never removes a symbol already decoded: the output for a prefix of the bits is a prefix of the output for all of them |
| Decoder.Decode | src/lib.rs:155-177 | `decode` never fails. A leaf root gives the sole symbol once per bit. A branch root gives at most half as many symbols as there are bits |
| Decoder.LeafRootIffSingleSymbol | src/lib.rs:75-87 | In a well-built tree, the root is a leaf exactly when the source has one distinct symbol |
| Decoder.CodesLeafRoot | src/lib.rs:119-122 | With a leaf root, the encoding of any sequence is one 0 bit per symbol |
| Decoder.SingleSymbolRoundTrip | src/lib.rs:190-209 | The test's round trip holds when the source has one distinct symbol |
| Decoder.TwoLeafShape | src/lib.rs:75-82 | A node holding exactly two leaves is a branch over two leaves |
| Decoder.CodesTwoLeaves | src/lib.rs:115-136 | Under a branch over two leaves, each symbol's code is one bit |
| Decoder.TwoSymbolRoundTripFails | src/lib.rs:190-209 | For every source with two distinct symbols, the source encodes to as many bits as it has symbols. These decode to at most half as many symbols, so the test's round trip fails |
| Decoder.TwoLeafDecodesAb | src/lib.rs:159-174 | Under a branch over the leaves 'a' and 'b', in either order, "ab" encodes to two bits that decode to "a" |
| Decoder.AbDecodesToA | src/lib.rs:155-177 | For every tree built from "ab", whatever the tie-break, "ab" encodes to two bits and decodes to "a" |
| Decoder.FixedReadsCode | src/lib.rs:159-174 | The corrected decoder, reading the code of a leaf from a branch, emits that leaf's symbol and ends back on the root |
| Decoder.FixedRoundTrip | src/lib.rs:155-177 | The corrected decoder inverts `encode`: decoding the codes of any sequence over the elements gives the sequence back |
| Decoder.FixedRoundTripRest | src/lib.rs:159-174 | The corrected decoder, given the codes of a sequence followed by any bits, emits the sequence and then decodes the following bits from the root |
| Decoder.FixedPartial | src/lib.rs:159-174 | The corrected decoder emits nothing for bits that walk from a branch to another branch |
| Decoder.FixedTruncates | src/lib.rs:155-177 | Truncation, for the corrected decoder: the codes of a sequence followed by a partial path that stops on a branch decode to exactly that sequence, so only the partial code is dropped |
| Decoder.DecodeFixed | src/lib.rs:155-177 | The cursor loop of `decode`, emitting on landing, computes the corrected decoder |
| Decoder.FixedSourceRoundTrip | src/lib.rs:190-209 | The test's property, for the corrected decoder: a tree built from any non-empty source encodes it, and the bits decode back to the source |

## Left out

- `src/main.rs` is not part of this model. It is a demo that only prints.
- `partial_cmp` is not modelled separately. It wraps `cmp` in `Some`.
- `usize` overflow is not modelled. Frequencies and their sums are unbounded naturals, so the model assumes the source iterator yields fewer than `usize::MAX` items. `Tree::new` consumes an iterator and never holds the source, so a longer one is possible; `Counter`'s counts and the branch sum at `src/lib.rs:79` would then wrap (release) or panic (debug), and the root's frequency would no longer equal the source length.
- The internals of `BitVec`, `Counter`, `BinaryHeap` and `HashSet` are not modelled. They appear as `seq<bool>`, the multiset of the source, a sequence with remove-a-least-frequency-node, and `set<T>`. Building the `Counter` from the iterator is a library call and is not modelled as a loop.
- The heap's tie-breaking and the counter's iteration order are nondeterministic choices. No tree shape is pinned down, and nothing is proved about which of several equal-frequency nodes is merged first.
- Huffman optimality of the code lengths is not modelled. The code neither states nor checks it.
- The quickcheck harness (`src/lib.rs:180-209`) is not modelled. Its asserted property is stated as lemmas instead.
- The boxes (`Box<Node<T>>`) and the sharing of the `&mut Vec` across the recursion of `find_path` are not modelled as heap objects. The tree is an immutable value, and the path is passed into `FindPath` and returned.
- Decoder.DecodePrefix: states only that appending bits keeps the output decoded so far. The exact output of the as-written decoder for bits that stop partway through a code is not stated: there the first bit of the partial code can still emit a pending leaf. The exact truncation law is proved for the corrected decoder (`Decoder.FixedTruncates`).
- Decoder.DecodeBound: states only an upper bound on the length of the output. With a branch root it does not characterise which symbols are emitted.
- Decoder.TwoSymbolRoundTripFails: covers alphabets of two symbols. For larger alphabets, the failure of the general round trip is shown only by the "ab" counterexample.

## Findings

| source | as written | input that shows it | evidently intended | confidence | as-written member | corrected member |
|---|---|---|---|---|---|---|
| src/lib.rs:159-174 | A bit read while the cursor is on a leaf is spent on emitting that leaf, and a leaf reached by the last bit is never emitted | Tree built from "ab": "ab" encodes to two bits (one per symbol), which decode to "a" | Emit a leaf as soon as the cursor lands on it, so that decode inverts encode as the test at src/lib.rs:190-209 asserts | high (proved of the model; not executed) | Decoder.AbDecodesToA | Decoder.FixedRoundTrip |
