/** Code derivation and encoding: `find_path`, `get_code` and `encode`.
    A symbol's code is the direction path from the root to its leaf, Left
    written as `false` (bit 0) and Right as `true` (bit 1). */
module Codec {
  import opened HuffmanTypes

  /** The path the depth-first search finds from `n` to a leaf holding
      `target`: the left subtree is searched before the right one. */
  function PathTo<T(==)>(n: Node<T>, target: T): (res: Option<seq<Direction>>)
    ensures res.Some? <==> target in Symbols(n)
    ensures res.Some? ==> LeadsTo(n, res.value, target)
  {
    match n
    case Leaf(_, s) => if s == target then Some([]) else None
    case Branch(_, l, r) =>
      match PathTo(l, target)
      case Some(p) =>
        assert ([Left] + p)[1..] == p;
        Some([Left] + p)
      case None =>
        match PathTo(r, target)
        case Some(p) =>
          assert ([Right] + p)[1..] == p;
          Some([Right] + p)
        case None => None
  }

  /** `find_path`: searches below `head` for a leaf holding `target`, pushing
      each direction it tries onto `path` and popping it again when the search
      below fails. On success it has appended the path `PathTo` finds; on
      failure `path` comes back exactly as it was. */
  method FindPath<T(==)>(head: Node<T>, path: seq<Direction>, target: T) returns (found: bool, after: seq<Direction>)
    ensures found <==> target in Symbols(head)
    ensures found ==> after == path + PathTo(head, target).value
    ensures found ==> LeadsTo(head, after[|path|..], target)
    ensures !found ==> after == path
    decreases head
  {
    match head
    case Leaf(_, letter) =>
      return letter == target, path;
    case Branch(_, left, right) =>
      after := path + [Left];
      found, after := FindPath(left, after, target);
      if !found {
        after := after[..|after| - 1];
      } else {
        FoundLeft(head, path, target, after);
        return;
      }

      after := after + [Right];
      found, after := FindPath(right, after, target);
      if !found {
        after := after[..|after| - 1];
      } else {
        FoundRight(head, path, target, after);
        return;
      }
  }

  /** The search succeeded in the left subtree: the path found is Left
      followed by the path found there. */
  lemma FoundLeft<T>(head: Node<T>, path: seq<Direction>, target: T, after: seq<Direction>)
    requires head.Branch? && target in Symbols(head.left)
    requires after == path + [Left] + PathTo(head.left, target).value
    ensures after == path + PathTo(head, target).value
    ensures after[|path|..] == PathTo(head, target).value
  {
    var p := PathTo(head.left, target).value;
    assert PathTo(head, target) == Some([Left] + p);
    assert after == path + ([Left] + p);
  }

  /** The search failed on the left and succeeded on the right. */
  lemma FoundRight<T>(head: Node<T>, path: seq<Direction>, target: T, after: seq<Direction>)
    requires head.Branch? && target !in Symbols(head.left) && target in Symbols(head.right)
    requires after == path + [Right] + PathTo(head.right, target).value
    ensures after == path + PathTo(head, target).value
    ensures after[|path|..] == PathTo(head, target).value
  {
    var p := PathTo(head.right, target).value;
    assert PathTo(head, target) == Some([Right] + p);
    assert after == path + ([Right] + p);
  }

  /** Left is bit 0 (`false`), Right is bit 1 (`true`). */
  function Bits(path: seq<Direction>): (bits: seq<bool>)
    ensures |bits| == |path|
    ensures forall i :: 0 <= i < |path| ==> (bits[i] <==> path[i] == Right)
  {
    seq(|path|, i requires 0 <= i < |path| => path[i] == Right)
  }

  /** The code of `item`: a single 0 when the root is a leaf, otherwise the
      bits of the path the search finds, which is empty when it finds none. */
  function Code<T(==)>(t: Tree<T>, item: T): seq<bool> {
    if t.root.Leaf? then [false]
    else match PathTo(t.root, item)
      case Some(p) => Bits(p)
      case None => []
  }

  /** `get_code`: the single-leaf root is given the path [Left]; otherwise
      the path comes from `FindPath`. The path is then turned into bits. */
  method GetCode<T(==)>(t: Tree<T>, item: T) returns (code: seq<bool>)
    ensures code == Code(t, item)
    ensures t.root.Leaf? ==> code == [false]
    ensures item in Symbols(t.root) ==> |code| > 0
    ensures t.root.Branch? ==> (item in Symbols(t.root) <==> |code| > 0)
  {
    var path: seq<Direction> := [];
    match t.root {
      case Leaf(_, _) =>
        path := path + [Left];
      case Branch(_, _, _) =>
        var found;
        found, path := FindPath(t.root, path, item);
    }
    code := [];
    for i := 0 to |path|
      invariant code == Bits(path[..i])
    {
      BitsSnoc(path, i);
      code := code + [path[i] == Right];
    }
    assert path[..|path|] == path;
    CodeOfMember(t, item);
  }

  /** One more direction appends one more bit. */
  lemma BitsSnoc(path: seq<Direction>, i: nat)
    requires i < |path|
    ensures Bits(path[..i + 1]) == Bits(path[..i]) + [path[i] == Right]
  {
    assert path[..i + 1][..i] == path[..i];
  }

  /** A member's code is never empty; with a branch root it spells out the
      path from the root to the member's leaf. */
  lemma CodeOfMember<T>(t: Tree<T>, item: T)
    ensures item in Symbols(t.root) ==> |Code(t, item)| > 0
    ensures t.root.Branch? ==> (item in Symbols(t.root) <==> |Code(t, item)| > 0)
    ensures t.root.Branch? && item in Symbols(t.root) ==>
              exists p :: LeadsTo(t.root, p, item) && Code(t, item) == Bits(p)
  {
    if t.root.Branch? && item in Symbols(t.root) {
      var p := PathTo(t.root, item).value;
      assert p != [] by {
        assert LeadsTo(t.root, p, item);
      }
    }
  }

  /** Bits preserve the prefix order of paths. */
  lemma BitsPrefix(p: seq<Direction>, q: seq<Direction>)
    ensures Bits(p) <= Bits(q) ==> p <= q
  {
    if Bits(p) <= Bits(q) {
      forall i | 0 <= i < |p| ensures p[i] == q[i] {
        assert Bits(p)[i] == Bits(q)[i];
      }
    }
  }

  /** Prefix-freeness: the codes of two distinct symbols of the tree are
      non-empty and neither is a prefix of the other. */
  lemma PrefixFree<T>(t: Tree<T>, a: T, b: T)
    requires a in Symbols(t.root) && b in Symbols(t.root)
    ensures |Code(t, a)| > 0 && |Code(t, b)| > 0
    ensures a != b ==> !(Code(t, a) <= Code(t, b))
  {
    CodeOfMember(t, a);
    CodeOfMember(t, b);
    if t.root.Branch? {
      var pa := PathTo(t.root, a).value;
      var pb := PathTo(t.root, b).value;
      BitsPrefix(pa, pb);
      if pa <= pb {
        LeafEndsWalk(t.root, pa, pb);
      }
    }
  }

  /** Prefix-freeness over `elements`, for a tree whose leaves are its
      elements once each (as `Tree::new` builds it). */
  lemma ElementsPrefixFree<T>(t: Tree<T>, a: T, b: T)
    requires Symbols(t.root) == multiset(t.elements)
    requires a in t.elements && b in t.elements
    ensures |Code(t, a)| > 0 && |Code(t, b)| > 0
    ensures a != b ==> !(Code(t, a) <= Code(t, b))
  {
    assert a in multiset(t.elements) && b in multiset(t.elements);
    PrefixFree(t, a, b);
  }

  /** The codes of `symbols`, concatenated in order. */
  function Codes<T(==)>(t: Tree<T>, symbols: seq<T>): seq<bool> {
    if symbols == [] then [] else Code(t, symbols[0]) + Codes(t, symbols[1..])
  }

  lemma {:induction false} CodesAppend<T>(t: Tree<T>, symbols: seq<T>, item: T)
    ensures Codes(t, symbols + [item]) == Codes(t, symbols) + Code(t, item)
  {
    if symbols != [] {
      assert (symbols + [item])[1..] == symbols[1..] + [item];
      CodesAppend(t, symbols[1..], item);
    } else {
      assert [item][1..] == [];
    }
  }

  /** `encode`: all or nothing. `None` exactly when some symbol is not an
      element of the tree, otherwise the codes of the symbols in order. */
  method Encode<T(==)>(t: Tree<T>, symbols: seq<T>) returns (r: Option<seq<bool>>)
    ensures r.Some? <==> forall i :: 0 <= i < |symbols| ==> symbols[i] in t.elements
    ensures r.Some? ==> r.value == Codes(t, symbols)
    ensures symbols == [] ==> r == Some([])
  {
    var encoding := [];
    for i := 0 to |symbols|
      invariant forall j :: 0 <= j < i ==> symbols[j] in t.elements
      invariant encoding == Codes(t, symbols[..i])
    {
      if symbols[i] in t.elements {
        var code := GetCode(t, symbols[i]);
        CodesAppend(t, symbols[..i], symbols[i]);
        assert symbols[..i + 1] == symbols[..i] + [symbols[i]];
        encoding := encoding + code;
      } else {
        return None;
      }
    }
    assert symbols[..|symbols|] == symbols;
    return Some(encoding);
  }
}
