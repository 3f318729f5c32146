/** Code assignment by walking the tree (`calculate_direction`, huffman.py:13-24, 103). */
module Codes {

  import opened Wrappers
  import opened Bits
  import opened Bytes
  import opened TreeBuilder

  /** The symbol of the leaf that the path `p` ('0' = left, '1' = right) reaches from `t`, or
      `None` when the walk leaves the tree or stops at an internal node. */
  function LeafAt(t: Tree, p: Bits): Option<byte>
  {
    if |p| == 0 then (if t.Leaf? then Some(t.symbol) else None)
    else
      match t
      case Leaf(_, _) => None
      case Internal(l, r, _) => LeafAt(if p[0] then r else l, p[1..])
  }

  /** `calculate_direction(t, direction)`: every leaf symbol maps to `direction` followed by its path
      from `t`. The left subtree is visited first, so on a repeated symbol the right one wins, as
      later dictionary assignments do. */
  function Paths(t: Tree, direction: Bits): (m: map<byte, Bits>)
    ensures m.Keys == LeafSet(t)
  {
    match t
    case Leaf(c, _) => map[c := direction]
    case Internal(l, r, _) => Paths(l, direction + [false]) + Paths(r, direction + [true])
  }

  /** Each entry of `calculate_direction` is `direction` followed by the path from `t` to that
      symbol's leaf. */
  lemma {:induction false} PathsReachLeaves(t: Tree, direction: Bits, c: byte)
    requires c in Paths(t, direction)
    ensures direction <= Paths(t, direction)[c]
    ensures LeafAt(t, Paths(t, direction)[c][|direction|..]) == Some(c)
    decreases t
  {
    match t
    case Leaf(_, _) =>
      assert direction[|direction|..] == [];
    case Internal(l, r, _) =>
      var ml := Paths(l, direction + [false]);
      var mr := Paths(r, direction + [true]);
      if c in mr {
        PathsReachLeaves(r, direction + [true], c);
        ChildPath(t, direction, true, mr[c]);
      } else {
        PathsReachLeaves(l, direction + [false], c);
        ChildPath(t, direction, false, ml[c]);
      }
  }

  lemma ChildPath(t: Tree, direction: Bits, b: bool, p: Bits)
    requires t.Internal?
    requires direction + [b] <= p
    ensures direction <= p
    ensures LeafAt(t, p[|direction|..]) == LeafAt(if b then t.right else t.left, p[|direction| + 1..])
  {
    var tail := p[|direction|..];
    assert tail[0] == b;
    assert tail[1..] == p[|direction| + 1..];
  }

  /** The code table of a tree: its paths from the root, which contributes no digit. */
  function Codes(t: Tree): (m: map<byte, Bits>)
    ensures m.Keys == LeafSet(t)
    ensures forall c | c in m :: LeafAt(t, m[c]) == Some(c)
  {
    var m := Paths(t, []);
    forall c | c in m
      ensures LeafAt(t, m[c]) == Some(c)
    {
      PathsReachLeaves(t, [], c);
      assert m[c][0..] == m[c];
    }
    m
  }

  /** No walk continues past a leaf. */
  lemma {:induction false} NothingBelowLeaf(t: Tree, p: Bits, q: Bits)
    requires LeafAt(t, p).Some?
    ensures p < q ==> LeafAt(t, q) == None
    decreases |p|
  {
    if |p| > 0 && p < q {
      assert q[0] == p[0];
      assert p[1..] < q[1..];
      NothingBelowLeaf(if p[0] then t.right else t.left, p[1..], q[1..]);
    }
  }

  lemma PrefixCases(p: Bits, q: Bits)
    ensures p <= q ==> p == q || p < q
  {
  }

  /** The codes of a tree form a prefix code: no symbol's code is a prefix of, or equal to, another
      symbol's code. */
  lemma PrefixFree(t: Tree, c: byte, d: byte)
    requires c in Codes(t) && d in Codes(t) && c != d
    ensures !(Codes(t)[c] <= Codes(t)[d])
  {
    var m := Codes(t);
    PrefixCases(m[c], m[d]);
    NothingBelowLeaf(t, m[c], m[d]);
  }

  /** The codes `compress` assigns (huffman.py:103): every one of the 256 symbols gets a non-empty
      code that walks the tree to its own leaf, and no code is a prefix of another. */
  function HuffmanCodes(data: seq<byte>): (m: map<byte, Bits>)
    ensures forall c: byte :: c in m && |m[c]| >= 1
    ensures forall c: byte :: LeafAt(HuffmanTree(data), m[c]) == Some(c)
    ensures forall c: byte, d: byte | c != d :: !(m[c] <= m[d])
  {
    var t := HuffmanTree(data);
    FullTreeCodes(t);
    Codes(t)
  }

  lemma FullTreeCodes(t: Tree)
    requires Leaves(t) == AllSymbols() && t.Internal?
    ensures forall c: byte :: c in Codes(t) && |Codes(t)[c]| >= 1
    ensures forall c: byte, d: byte | c != d :: !(Codes(t)[c] <= Codes(t)[d])
  {
    forall c: byte
      ensures c in Codes(t) && |Codes(t)[c]| >= 1
    {
      SymbolHasCode(t, c);
    }
    forall c: byte, d: byte | c != d
      ensures !(Codes(t)[c] <= Codes(t)[d])
    {
      PrefixFree(t, c, d);
    }
  }

  lemma SymbolHasCode(t: Tree, c: byte)
    requires Leaves(t) == AllSymbols() && t.Internal?
    ensures c in Codes(t) && |Codes(t)[c]| >= 1
  {
    AllSymbolsOnce(c);
    LeafSetMembers(t, c);
  }
}
