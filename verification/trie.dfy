/** The tree `decompress` rebuilds from the codebook paths (huffman.py:131-151): nodes are created
    on demand along each path, and the node a path ends at takes that entry's symbol. */
module Trie {

  import opened Wrappers
  import opened Bits
  import opened Bytes

  /** A node of the rebuilt tree. A node may hold a symbol and still have children, when one
      codebook path is a prefix of another. */
  datatype Trie = Node(left: Option<Trie>, right: Option<Trie>, symbol: Option<byte>)

  const Empty: Trie := Node(None, None, None)

  /** The child a digit leads to: '1' = right, '0' = left. */
  function Child(t: Trie, b: bool): Option<Trie>
  {
    if b then t.right else t.left
  }

  /** Walks `path` from `t`, creating each missing child, and sets the symbol of the last node. */
  function Insert(t: Trie, path: Bits, c: byte): (r: Trie)
    ensures SymbolAt(r, path) == Some(c)
    decreases |path|
  {
    if |path| == 0 then t.(symbol := Some(c))
    else
      var below := match Child(t, path[0]) case Some(s) => s case None => Empty;
      var sub := Insert(below, path[1..], c);
      var r := if path[0] then t.(right := Some(sub)) else t.(left := Some(sub));
      assert Child(r, path[0]) == Some(sub);
      r
  }

  /** The node the path `q` reaches from `t`, if every child on the way exists. */
  function At(t: Trie, q: Bits): Option<Trie>
    decreases |q|
  {
    if |q| == 0 then Some(t)
    else
      match Child(t, q[0])
      case None => None
      case Some(s) => At(s, q[1..])
  }

  function SymbolAt(t: Trie, q: Bits): Option<byte>
  {
    match At(t, q)
    case None => None
    case Some(n) => n.symbol
  }

  /** Extending a walk by one digit takes that child of the node reached. */
  lemma {:induction false} AtSnoc(t: Trie, q: Bits, b: bool)
    ensures At(t, q + [b]) == match At(t, q) case None => None case Some(n) => Child(n, b)
    decreases |q|
  {
    if |q| == 0 {
      assert q + [b] == [b];
      assert [b][1..] == [];
    } else {
      assert (q + [b])[0] == q[0];
      assert (q + [b])[1..] == q[1..] + [b];
      match Child(t, q[0])
      case None =>
      case Some(s) => AtSnoc(s, q[1..], b);
    }
  }

  lemma {:induction false} EmptyAt(q: Bits)
    ensures At(Empty, q).Some? <==> |q| == 0
    ensures SymbolAt(Empty, q) == None
  {
  }

  /** What an insertion changes: the node at `p` gets `c`, every node on the way to it exists, and
      nothing else changes. */
  lemma {:induction false} InsertSpec(t: Trie, p: Bits, c: byte, q: Bits)
    ensures SymbolAt(Insert(t, p, c), q) == if q == p then Some(c) else SymbolAt(t, q)
    ensures At(Insert(t, p, c), q).Some? <==> q <= p || At(t, q).Some?
    decreases |p|
  {
    if |p| > 0 && |q| > 0 && q[0] == p[0] {
      var below := match Child(t, p[0]) case Some(s) => s case None => Empty;
      InsertSpec(below, p[1..], c, q[1..]);
      EmptyAt(q[1..]);
      PrefixTail(p, q);
    }
  }

  lemma PrefixTail(p: Bits, q: Bits)
    requires |p| > 0 && |q| > 0 && q[0] == p[0]
    ensures q <= p <==> q[1..] <= p[1..]
    ensures q == p <==> q[1..] == p[1..]
  {
    assert q == [q[0]] + q[1..];
    assert p == [p[0]] + p[1..];
  }

  /** The tree after inserting codebook entries `0 .. k-1` in symbol order, skipping every entry
      equal to `skip`. */
  function BuildPrefix(book: seq<Bits>, skip: Bits, k: nat): Trie
    requires k <= |book| <= 256
  {
    if k == 0 then Empty
    else
      var t := BuildPrefix(book, skip, k - 1);
      if book[k - 1] == skip then t else Insert(t, book[k - 1], k - 1)
  }

  /** The whole rebuilt tree. */
  function Build(book: seq<Bits>, skip: Bits): (r: Trie)
    requires |book| <= 256
    ensures forall c: byte | c < |book| && book[c] != skip && LastWithPath(book, c) :: SymbolAt(r, book[c]) == Some(c)
  {
    var r := BuildPrefix(book, skip, |book|);
    forall c: byte | c < |book| && book[c] != skip && LastWithPath(book, c)
      ensures SymbolAt(r, book[c]) == Some(c)
    {
      BuildSpec(book, skip, |book|, book[c]);
    }
    r
  }

  /** No later entry of the codebook has the same path as entry `c`. */
  ghost predicate LastWithPath(book: seq<Bits>, c: nat)
    requires c < |book|
  {
    forall j | c < j < |book| :: book[j] != book[c]
  }

  /** The rebuilt tree, described without reference to the insertion order: the symbol at `q` is
      the last inserted entry whose path is `q`, and a node exists at `q` exactly when `q` is a
      prefix of some inserted path. */
  lemma {:induction false} BuildSpec(book: seq<Bits>, skip: Bits, k: nat, q: Bits)
    requires k <= |book| <= 256
    ensures SymbolAt(BuildPrefix(book, skip, k), q).Some? ==>
      var c := SymbolAt(BuildPrefix(book, skip, k), q).value;
      c < k && book[c] == q && q != skip && forall j | c < j < k :: book[j] != q
    ensures SymbolAt(BuildPrefix(book, skip, k), q).None? ==>
      forall j | 0 <= j < k :: book[j] == skip || book[j] != q
    ensures At(BuildPrefix(book, skip, k), q).Some? <==>
      q == [] || exists j | 0 <= j < k :: book[j] != skip && q <= book[j]
  {
    if k == 0 {
      EmptyAt(q);
    } else {
      BuildSpec(book, skip, k - 1, q);
      var t := BuildPrefix(book, skip, k - 1);
      if book[k - 1] != skip {
        InsertSpec(t, book[k - 1], k - 1, q);
      }
    }
  }
}
