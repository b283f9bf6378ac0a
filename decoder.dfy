/** Decoding (`decode`): a cursor walks the tree bit by bit.

    As written, a bit read while the cursor is on a BRANCH moves the cursor to
    a child, and a bit read while the cursor is on a LEAF emits the leaf's
    symbol and puts the cursor back on the root; that bit is spent on the
    emission. A leaf reached by the last bit is therefore never emitted, and
    with a branch root the round trip through `encode` fails. The corrected
    decoder below emits a leaf as soon as the cursor lands on it. */
module Decoder {
  import opened HuffmanTypes
  import opened TreeBuilder
  import opened Codec

  /** The symbols the cursor loop of `decode` emits when it reads `bits`
      with the cursor on `cursor`. */
  function DecodeFrom<T>(root: Node<T>, cursor: Node<T>, bits: seq<bool>): seq<T>
    decreases |bits|
  {
    if bits == [] then []
    else match cursor
      case Branch(_, l, r) => DecodeFrom(root, if bits[0] then r else l, bits[1..])
      case Leaf(_, s) => [s] + DecodeFrom(root, root, bits[1..])
  }

  /** With a leaf root, every bit emits the one symbol. */
  lemma {:induction false} DecodeLeafRoot<T>(root: Node<T>, bits: seq<bool>)
    requires root.Leaf?
    ensures DecodeFrom(root, root, bits) == seq(|bits|, _ => root.symbol)
    decreases |bits|
  {
    if bits != [] {
      DecodeLeafRoot(root, bits[1..]);
    }
  }

  /** With a branch root, each emission needs a bit to descend and spends
      another one at the leaf: at most one symbol per two bits, plus one when
      the cursor starts on a leaf. */
  lemma {:induction false} DecodeBound<T>(root: Node<T>, cursor: Node<T>, bits: seq<bool>)
    requires root.Branch?
    ensures 2 * |DecodeFrom(root, cursor, bits)| <= |bits| + (if cursor.Leaf? then 1 else 0)
    decreases |bits|
  {
    if bits != [] {
      match cursor
      case Branch(_, l, r) => DecodeBound(root, if bits[0] then r else l, bits[1..]);
      case Leaf(_, _) => DecodeBound(root, root, bits[1..]);
    }
  }

  /** Decoding is monotone in its input: the symbols decoded from a prefix of
      the bits are a prefix of those decoded from all of them, so bits that
      stop in the middle of a code lose only that code. */
  lemma {:induction false} DecodePrefix<T>(root: Node<T>, cursor: Node<T>, a: seq<bool>, b: seq<bool>)
    ensures DecodeFrom(root, cursor, a) <= DecodeFrom(root, cursor, a + b)
    decreases |a|
  {
    if a != [] {
      assert (a + b)[1..] == a[1..] + b;
      match cursor
      case Branch(_, l, r) => DecodePrefix(root, if a[0] then r else l, a[1..], b);
      case Leaf(_, _) => DecodePrefix(root, root, a[1..], b);
    }
  }

  /** `decode`: never fails. With a leaf root it emits the symbol once per
      bit; with a branch root it emits at most one symbol per two bits. */
  method Decode<T>(t: Tree<T>, bits: seq<bool>) returns (decoded: seq<T>)
    ensures decoded == DecodeFrom(t.root, t.root, bits)
    ensures t.root.Leaf? ==> decoded == seq(|bits|, _ => t.root.symbol)
    ensures t.root.Branch? ==> 2 * |decoded| <= |bits|
  {
    var curr := t.root;
    decoded := [];
    for i := 0 to |bits|
      invariant decoded + DecodeFrom(t.root, curr, bits[i..]) == DecodeFrom(t.root, t.root, bits)
    {
      assert bits[i..][1..] == bits[i + 1..];
      match curr {
        case Branch(_, left, right) =>
          curr := if bits[i] then right else left;
        case Leaf(_, symbol) =>
          decoded := decoded + [symbol];
          curr := t.root;
      }
    }
    assert bits[|bits|..] == [];
    if t.root.Leaf? {
      DecodeLeafRoot(t.root, bits);
    } else {
      DecodeBound(t.root, t.root, bits);
    }
  }

  /** In a well-built tree the root is a leaf exactly when the source has one
      distinct symbol. */
  lemma LeafRootIffSingleSymbol<T>(t: Tree<T>, source: seq<T>)
    requires WellBuilt(t, source)
    ensures t.root.Leaf? <==> |Alphabet(source)| == 1
  {
    assert |multiset(t.elements)| == |t.elements|;
    SymbolsNonEmpty(t.root);
  }

  /** Every symbol of `s` has the code [false] under a leaf root. */
  lemma {:induction false} CodesLeafRoot<T>(t: Tree<T>, s: seq<T>)
    requires t.root.Leaf?
    ensures Codes(t, s) == seq(|s|, _ => false)
    decreases |s|
  {
    if s != [] {
      CodesLeafRoot(t, s[1..]);
    }
  }

  /** The test's round trip holds when the source has a single distinct
      symbol, for every sequence over the tree's elements. */
  lemma SingleSymbolRoundTrip<T>(t: Tree<T>, source: seq<T>, s: seq<T>)
    requires WellBuilt(t, source) && |Alphabet(source)| == 1
    requires forall i :: 0 <= i < |s| ==> s[i] in t.elements
    ensures DecodeFrom(t.root, t.root, Codes(t, s)) == s
  {
    LeafRootIffSingleSymbol(t, source);
    CodesLeafRoot(t, s);
    DecodeLeafRoot(t.root, Codes(t, s));
    forall i | 0 <= i < |s| ensures s[i] == t.root.symbol {
      assert s[i] in multiset(t.elements);
    }
  }

  /** A node holding exactly two leaves is a branch over two leaves. */
  lemma TwoLeafShape<T>(n: Node<T>)
    requires |Symbols(n)| == 2
    ensures n.Branch? && n.left.Leaf? && n.right.Leaf?
  {
    SymbolsNonEmpty(n);
    match n
    case Branch(_, l, r) =>
      SymbolsNonEmpty(l);
      SymbolsNonEmpty(r);
  }

  /** Every member's code is one bit long when the root is a branch over
      two leaves. */
  lemma {:induction false} CodesTwoLeaves<T>(t: Tree<T>, s: seq<T>)
    requires t.root.Branch? && t.root.left.Leaf? && t.root.right.Leaf?
    requires forall i :: 0 <= i < |s| ==> s[i] in Symbols(t.root)
    ensures |Codes(t, s)| == |s|
    decreases |s|
  {
    if s != [] {
      CodesTwoLeaves(t, s[1..]);
    }
  }

  /** The test's round trip fails for EVERY source with two distinct symbols:
      each code is one bit, so `decode` gets |source| bits and returns at most
      half as many symbols. */
  lemma TwoSymbolRoundTripFails<T>(t: Tree<T>, source: seq<T>)
    requires WellBuilt(t, source) && |Alphabet(source)| == 2
    ensures |Codes(t, source)| == |source|
    ensures 2 * |DecodeFrom(t.root, t.root, Codes(t, source))| <= |source|
    ensures DecodeFrom(t.root, t.root, Codes(t, source)) != source
  {
    assert |multiset(t.elements)| == |t.elements|;
    TwoLeafShape(t.root);
    forall i | 0 <= i < |source| ensures source[i] in Symbols(t.root) {
      assert source[i] in Alphabet(source);
      assert source[i] in multiset(t.elements);
    }
    CodesTwoLeaves(t, source);
    DecodeBound(t.root, t.root, Codes(t, source));
    assert |source| > 0 by {
      var x :| x in Alphabet(source);
    }
  }

  /** Under a branch over the leaves 'a' and 'b', in either order, "ab" is
      encoded as two bits that decode to "a". */
  lemma TwoLeafDecodesAb(t: Tree<char>)
    requires t.root.Branch? && t.root.left.Leaf? && t.root.right.Leaf?
    requires {t.root.left.symbol, t.root.right.symbol} == {'a', 'b'}
    ensures |Codes(t, "ab")| == 2
    ensures DecodeFrom(t.root, t.root, Codes(t, "ab")) == "a"
  {
    var root := t.root;
    assert "ab"[1..] == "b" && "b"[1..] == [];
    assert Codes(t, "b") == Code(t, 'b') + Codes(t, []);
    assert Codes(t, "ab") == Code(t, 'a') + Codes(t, "b");
    var bits := Codes(t, "ab");
    if root.left.symbol == 'a' {
      assert root.right.symbol == 'b';
      assert Code(t, 'a') == [false] && Code(t, 'b') == [true];
      assert DecodeFrom(root, root.left, bits[1..]) == "a";
    } else {
      assert root.right.symbol == 'a' && root.left.symbol == 'b';
      assert Code(t, 'a') == [true] && Code(t, 'b') == [false];
      assert DecodeFrom(root, root.right, bits[1..]) == "a";
    }
  }

  /** The counterexample: a tree built from "ab" encodes "ab" as two bits and
      decodes them to "a", whichever way the tie between the two leaves was
      broken. */
  lemma AbDecodesToA(t: Tree<char>)
    requires WellBuilt(t, "ab")
    ensures |Codes(t, "ab")| == 2
    ensures DecodeFrom(t.root, t.root, Codes(t, "ab")) == "a"
  {
    AlphabetAb();
    MultisetOfPair('a', 'b');
    TwoLeavesOf(t.root, 'a', 'b');
    TwoLeafDecodesAb(t);
  }

  lemma AlphabetAb()
    ensures Alphabet("ab") == {'a', 'b'}
  {
    assert "ab"[0] == 'a' && "ab"[1] == 'b';
  }

  lemma MultisetOfPair<T>(a: T, b: T)
    requires a != b
    ensures multiset({a, b}) == multiset{a, b}
  {
  }

  /** A node whose leaves hold `a` and `b` is a branch over those two leaves. */
  lemma TwoLeavesOf<T>(n: Node<T>, a: T, b: T)
    requires Symbols(n) == multiset{a, b}
    ensures n.Branch? && n.left.Leaf? && n.right.Leaf?
    ensures {n.left.symbol, n.right.symbol} == {a, b}
  {
    TwoLeafShape(n);
    assert Symbols(n) == multiset{n.left.symbol, n.right.symbol};
    assert n.left.symbol in multiset{a, b};
    assert n.right.symbol in multiset{a, b};
    assert a in multiset{n.left.symbol, n.right.symbol};
    assert b in multiset{n.left.symbol, n.right.symbol};
  }

  /** The corrected decoder: a leaf is emitted as soon as the cursor lands on
      it, and the cursor goes back to the root; with a leaf root every bit
      emits the one symbol. */
  function DecodeFixedFrom<T>(root: Node<T>, cursor: Node<T>, bits: seq<bool>): seq<T>
    decreases |bits|
  {
    if bits == [] then []
    else match cursor
      case Leaf(_, s) => [s] + DecodeFixedFrom(root, root, bits[1..])
      case Branch(_, l, r) =>
        var next := if bits[0] then r else l;
        if next.Leaf? then [next.symbol] + DecodeFixedFrom(root, root, bits[1..])
        else DecodeFixedFrom(root, next, bits[1..])
  }

  /** Reading a code that leads from a branch to the leaf of `x` emits `x` and
      leaves the cursor on the root. */
  lemma {:induction false} FixedReadsCode<T>(root: Node<T>, cursor: Node<T>, p: seq<Direction>,
                                             rest: seq<bool>, x: T)
    requires cursor.Branch? && p != [] && LeadsTo(cursor, p, x)
    ensures DecodeFixedFrom(root, cursor, Bits(p) + rest) == [x] + DecodeFixedFrom(root, root, rest)
    decreases |p|
  {
    var bits := Bits(p) + rest;
    var next := if p[0] == Left then cursor.left else cursor.right;
    assert bits[0] == (p[0] == Right);
    assert bits[1..] == Bits(p[1..]) + rest;
    assert next == if bits[0] then cursor.right else cursor.left;
    assert Walk(cursor, p) == Walk(next, p[1..]);
    if |p| > 1 {
      assert next.Branch?;
      FixedReadsCode(root, next, p[1..], rest, x);
    }
  }

  /** The round trip the corrected decoder completes: decoding the codes of
      any sequence over the tree's elements gives the sequence back. */
  lemma {:induction false} FixedRoundTrip<T>(t: Tree<T>, s: seq<T>)
    requires forall x :: x in t.elements ==> x in Symbols(t.root)
    requires forall i :: 0 <= i < |s| ==> s[i] in t.elements
    ensures DecodeFixedFrom(t.root, t.root, Codes(t, s)) == s
    decreases |s|
  {
    if s != [] {
      var x := s[0];
      FixedRoundTrip(t, s[1..]);
      match t.root
      case Leaf(_, sym) =>
        assert x in Symbols(t.root);
        assert Codes(t, s) == [false] + Codes(t, s[1..]);
      case Branch(_, _, _) =>
        var p := PathTo(t.root, x).value;
        assert p != [] by {
          assert LeadsTo(t.root, p, x);
        }
        FixedReadsCode(t.root, t.root, p, Codes(t, s[1..]), x);
    }
  }

  /** Decoding the codes of `s` followed by any further bits emits `s` first
      and leaves the cursor on the root for the bits that follow. */
  lemma {:induction false} FixedRoundTripRest<T>(t: Tree<T>, s: seq<T>, rest: seq<bool>)
    requires t.root.Branch?
    requires forall x :: x in t.elements ==> x in Symbols(t.root)
    requires forall i :: 0 <= i < |s| ==> s[i] in t.elements
    ensures DecodeFixedFrom(t.root, t.root, Codes(t, s) + rest) == s + DecodeFixedFrom(t.root, t.root, rest)
    decreases |s|
  {
    if s == [] {
      assert Codes(t, s) + rest == rest;
    } else {
      assert s[0] in Symbols(t.root);
      FixedFirstCode(t, s, rest);
      FixedRoundTripRest(t, s[1..], rest);
      ConsThenRest(DecodeFixedFrom(t.root, t.root, Codes(t, s) + rest),
                   DecodeFixedFrom(t.root, t.root, Codes(t, s[1..]) + rest),
                   DecodeFixedFrom(t.root, t.root, rest), s);
    }
  }

  /** `a` is the head of `s` before `b`, and `b` is the tail of `s` before `r`. */
  lemma ConsThenRest<T>(a: seq<T>, b: seq<T>, r: seq<T>, s: seq<T>)
    requires s != [] && a == [s[0]] + b && b == s[1..] + r
    ensures a == s + r
  {
    assert s == [s[0]] + s[1..];
  }

  /** Decoding the codes of a non-empty `s` emits its first symbol and goes on
      with the codes of the rest. */
  lemma FixedFirstCode<T>(t: Tree<T>, s: seq<T>, rest: seq<bool>)
    requires t.root.Branch? && s != [] && s[0] in Symbols(t.root)
    ensures DecodeFixedFrom(t.root, t.root, Codes(t, s) + rest)
            == [s[0]] + DecodeFixedFrom(t.root, t.root, Codes(t, s[1..]) + rest)
  {
    var tail := Codes(t, s[1..]) + rest;
    assert Codes(t, s) + rest == Code(t, s[0]) + tail;
    FixedOneCode(t, s[0], tail);
  }

  /** Reading one symbol's code from the root emits that symbol. */
  lemma FixedOneCode<T>(t: Tree<T>, x: T, rest: seq<bool>)
    requires t.root.Branch? && x in Symbols(t.root)
    ensures DecodeFixedFrom(t.root, t.root, Code(t, x) + rest) == [x] + DecodeFixedFrom(t.root, t.root, rest)
  {
    var p := PathTo(t.root, x).value;
    assert p != [] by {
      assert LeadsTo(t.root, p, x);
    }
    FixedReadsCode(t.root, t.root, p, rest, x);
  }

  /** Bits that walk from a branch to another branch emit nothing. */
  lemma {:induction false} FixedPartial<T>(root: Node<T>, cursor: Node<T>, q: seq<Direction>)
    requires cursor.Branch? && Walk(cursor, q).Some? && Walk(cursor, q).value.Branch?
    ensures DecodeFixedFrom(root, cursor, Bits(q)) == []
    decreases |q|
  {
    if q != [] {
      var next := if q[0] == Left then cursor.left else cursor.right;
      assert Walk(cursor, q) == Walk(next, q[1..]);
      assert next.Branch?;
      assert Bits(q)[1..] == Bits(q[1..]);
      FixedPartial(root, next, q[1..]);
    }
  }

  /** Truncation: the codes of `s` followed by a partial path that stops on a
      branch decode to exactly `s`; the partial code is dropped. */
  lemma FixedTruncates<T>(t: Tree<T>, s: seq<T>, q: seq<Direction>)
    requires t.root.Branch?
    requires forall x :: x in t.elements ==> x in Symbols(t.root)
    requires forall i :: 0 <= i < |s| ==> s[i] in t.elements
    requires Walk(t.root, q).Some? && Walk(t.root, q).value.Branch?
    ensures DecodeFixedFrom(t.root, t.root, Codes(t, s) + Bits(q)) == s
  {
    FixedRoundTripRest(t, s, Bits(q));
    FixedPartial(t.root, t.root, q);
  }

  /** The corrected `decode`, with the cursor loop of the original. */
  method DecodeFixed<T>(t: Tree<T>, bits: seq<bool>) returns (decoded: seq<T>)
    ensures decoded == DecodeFixedFrom(t.root, t.root, bits)
  {
    var curr := t.root;
    decoded := [];
    for i := 0 to |bits|
      invariant decoded + DecodeFixedFrom(t.root, curr, bits[i..]) == DecodeFixedFrom(t.root, t.root, bits)
    {
      assert bits[i..][1..] == bits[i + 1..];
      match curr {
        case Leaf(_, symbol) =>
          decoded := decoded + [symbol];
          curr := t.root;
        case Branch(_, left, right) =>
          curr := if bits[i] then right else left;
          if curr.Leaf? {
            decoded := decoded + [curr.symbol];
            curr := t.root;
          }
      }
    }
    assert bits[|bits|..] == [];
  }

  /** The property the test states, for the corrected decoder: a tree built
      from `source` encodes it and decodes the bits back to `source`. */
  lemma FixedSourceRoundTrip<T>(t: Tree<T>, source: seq<T>)
    requires WellBuilt(t, source)
    ensures forall i :: 0 <= i < |source| ==> source[i] in t.elements
    ensures DecodeFixedFrom(t.root, t.root, Codes(t, source)) == source
  {
    forall x | x in t.elements ensures x in Symbols(t.root) {
      assert x in multiset(t.elements);
    }
    forall i | 0 <= i < |source| ensures source[i] in t.elements {
      assert source[i] in Alphabet(source);
    }
    FixedRoundTrip(t, source);
  }
}
