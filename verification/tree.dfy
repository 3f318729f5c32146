/** The Huffman tree and its bottom-up construction (`Node`, `merge_sort`, `form_tree`,
    huffman.py:4-10, 27-43, 54-67, 100-102). The integer label of an internal node is dropped: only
    leaf symbols reach the codes. */
module TreeBuilder {

  import opened Bytes
  import opened FrequencyTable

  datatype Tree =
    | Leaf(symbol: byte, freq: nat)
    | Internal(left: Tree, right: Tree, freq: nat)

  /** The symbols at the leaves, with multiplicity. */
  function Leaves(t: Tree): multiset<byte>
  {
    match t
    case Leaf(c, _) => multiset{c}
    case Internal(l, r, _) => Leaves(l) + Leaves(r)
  }

  /** The symbols at the leaves, as a set. */
  function LeafSet(t: Tree): set<byte>
  {
    match t
    case Leaf(c, _) => {c}
    case Internal(l, r, _) => LeafSet(l) + LeafSet(r)
  }

  lemma {:induction false} LeafSetMembers(t: Tree, c: byte)
    ensures c in LeafSet(t) <==> c in Leaves(t)
  {
    match t
    case Leaf(_, _) =>
    case Internal(l, r, _) =>
      LeafSetMembers(l, c);
      LeafSetMembers(r, c);
  }

  /** Every internal node's frequency is the sum of its children's. */
  ghost predicate Weighted(t: Tree)
  {
    match t
    case Leaf(_, _) => true
    case Internal(l, r, f) => f == l.freq + r.freq && Weighted(l) && Weighted(r)
  }

  function LeafBag(s: seq<Tree>): multiset<byte>
  {
    if |s| == 0 then multiset{} else Leaves(s[0]) + LeafBag(s[1..])
  }

  function TotalFreq(s: seq<Tree>): nat
  {
    if |s| == 0 then 0 else s[0].freq + TotalFreq(s[1..])
  }

  ghost predicate AllWeighted(s: seq<Tree>)
  {
    forall k | 0 <= k < |s| :: Weighted(s[k])
  }

  ghost predicate SortedByFreq(s: seq<Tree>)
  {
    forall i, j | 0 <= i < j < |s| :: s[i].freq <= s[j].freq
  }

  /** The merge loop of `merge_sort`: the left head is taken only when strictly less frequent, so on
      a tie the right head goes first. */
  function Merge(a: seq<Tree>, b: seq<Tree>): (r: seq<Tree>)
    ensures multiset(r) == multiset(a) + multiset(b)
    ensures |r| == |a| + |b|
    decreases |a| + |b|
  {
    if |a| == 0 then b
    else if |b| == 0 then a
    else if a[0].freq < b[0].freq then
      assert a == [a[0]] + a[1..];
      [a[0]] + Merge(a[1..], b)
    else
      assert b == [b[0]] + b[1..];
      [b[0]] + Merge(a, b[1..])
  }

  /** Merging two sorted lists gives a sorted list. */
  lemma {:induction false} MergeSorted(a: seq<Tree>, b: seq<Tree>)
    requires SortedByFreq(a) && SortedByFreq(b)
    ensures SortedByFreq(Merge(a, b))
    ensures |Merge(a, b)| > 0 ==> (|a| > 0 && Merge(a, b)[0] == a[0]) || (|b| > 0 && Merge(a, b)[0] == b[0])
    decreases |a| + |b|
  {
    if |a| > 0 && |b| > 0 {
      if a[0].freq < b[0].freq {
        var rest := Merge(a[1..], b);
        MergeSorted(a[1..], b);
        PrependSorted(a[0], rest);
      } else {
        var rest := Merge(a, b[1..]);
        MergeSorted(a, b[1..]);
        PrependSorted(b[0], rest);
      }
    }
  }

  lemma PrependSorted(x: Tree, s: seq<Tree>)
    requires SortedByFreq(s)
    requires |s| > 0 ==> x.freq <= s[0].freq
    ensures SortedByFreq([x] + s)
  {
  }

  /** `merge_sort` on a non-empty list (an empty one makes the source recurse forever): a
      permutation of its input, in nondecreasing order of frequency. */
  function MergeSort(s: seq<Tree>): (r: seq<Tree>)
    requires |s| >= 1
    ensures multiset(r) == multiset(s)
    ensures SortedByFreq(r)
    decreases |s|
  {
    if |s| == 1 then s
    else
      var c := |s| / 2;
      assert s == s[..c] + s[c..];
      var left := MergeSort(s[..c]);
      var right := MergeSort(s[c..]);
      MergeSorted(left, right);
      Merge(left, right)
  }

  /** The elements of `s` whose frequency is `f`, in order. */
  function WithFreq(s: seq<Tree>, f: nat): seq<Tree>
  {
    if |s| == 0 then [] else (if s[0].freq == f then [s[0]] else []) + WithFreq(s[1..], f)
  }

  lemma {:induction false} NoneWithFreq(s: seq<Tree>, f: nat)
    requires SortedByFreq(s)
    requires |s| > 0 ==> s[0].freq > f
    ensures WithFreq(s, f) == []
  {
    if |s| > 0 {
      assert |s[1..]| > 0 ==> s[1..][0] == s[1];
      NoneWithFreq(s[1..], f);
    }
  }

  /** Tie order of the merge: among equally frequent trees, all those of the right half come
      first, then all those of the left half, each in its own order. */
  lemma {:induction false} MergeTiesRightFirst(a: seq<Tree>, b: seq<Tree>, f: nat)
    requires SortedByFreq(a) && SortedByFreq(b)
    ensures WithFreq(Merge(a, b), f) == WithFreq(b, f) + WithFreq(a, f)
    decreases |a| + |b|, 1
  {
    if |a| == 0 {
      assert WithFreq(a, f) == [];
    } else if |b| == 0 {
      assert WithFreq(b, f) == [];
    } else if a[0].freq < b[0].freq {
      LeftHeadTies(a, b, f);
    } else {
      RightHeadTies(a, b, f);
    }
  }

  lemma {:induction false} LeftHeadTies(a: seq<Tree>, b: seq<Tree>, f: nat)
    requires SortedByFreq(a) && SortedByFreq(b)
    requires |a| > 0 && |b| > 0 && a[0].freq < b[0].freq
    ensures WithFreq(Merge(a, b), f) == WithFreq(b, f) + WithFreq(a, f)
    decreases |a| + |b|, 0
  {
    var rest := Merge(a[1..], b);
    assert Merge(a, b) == [a[0]] + rest;
    SortedTail(a);
    MergeTiesRightFirst(a[1..], b, f);
    WithFreqCons(a[0], rest, f);
    WithFreqCons(a[0], a[1..], f);
    assert [a[0]] + a[1..] == a;
    var hd := if a[0].freq == f then [a[0]] else [];
    if a[0].freq == f {
      NoneWithFreq(b, f);
    }
    SwapEmpty(hd, WithFreq(b, f), WithFreq(a[1..], f));
  }

  lemma SwapEmpty<T>(x: seq<T>, y: seq<T>, z: seq<T>)
    requires x == [] || y == []
    ensures x + (y + z) == y + (x + z)
  {
  }

  lemma {:induction false} RightHeadTies(a: seq<Tree>, b: seq<Tree>, f: nat)
    requires SortedByFreq(a) && SortedByFreq(b)
    requires |a| > 0 && |b| > 0 && a[0].freq >= b[0].freq
    ensures WithFreq(Merge(a, b), f) == WithFreq(b, f) + WithFreq(a, f)
    decreases |a| + |b|, 0
  {
    var rest := Merge(a, b[1..]);
    assert Merge(a, b) == [b[0]] + rest;
    SortedTail(b);
    MergeTiesRightFirst(a, b[1..], f);
    WithFreqCons(b[0], rest, f);
    WithFreqCons(b[0], b[1..], f);
    assert [b[0]] + b[1..] == b;
    var hd := if b[0].freq == f then [b[0]] else [];
    Assoc(hd, WithFreq(b[1..], f), WithFreq(a, f));
  }

  lemma SortedTail(s: seq<Tree>)
    requires SortedByFreq(s) && |s| > 0
    ensures SortedByFreq(s[1..])
  {
    forall i, j | 0 <= i < j < |s| - 1
      ensures s[1..][i].freq <= s[1..][j].freq
    {
      assert s[1..][i] == s[i + 1] && s[1..][j] == s[j + 1];
    }
  }

  lemma Assoc<T>(x: seq<T>, y: seq<T>, z: seq<T>)
    ensures x + (y + z) == (x + y) + z
  {
  }

  lemma WithFreqCons(x: Tree, s: seq<Tree>, f: nat)
    ensures WithFreq([x] + s, f) == (if x.freq == f then [x] else []) + WithFreq(s, f)
  {
    assert ([x] + s)[1..] == s;
  }

  lemma {:induction false} LeafBagAppend(a: seq<Tree>, b: seq<Tree>)
    ensures LeafBag(a + b) == LeafBag(a) + LeafBag(b)
    ensures TotalFreq(a + b) == TotalFreq(a) + TotalFreq(b)
  {
    if |a| == 0 {
      assert a + b == b;
    } else {
      assert (a + b)[1..] == a[1..] + b;
      LeafBagAppend(a[1..], b);
    }
  }

  /** Leaf symbols and total frequency do not depend on the order of the trees. */
  lemma {:induction false} PermutationInvariant(a: seq<Tree>, b: seq<Tree>)
    requires multiset(a) == multiset(b)
    ensures LeafBag(a) == LeafBag(b)
    ensures TotalFreq(a) == TotalFreq(b)
    decreases |a|
  {
    if |a| == 0 {
      assert |multiset(b)| == 0;
    } else {
      var x := a[0];
      assert x in multiset(b);
      var k :| 0 <= k < |b| && b[k] == x;
      var b' := b[..k] + b[k + 1..];
      RemoveOne(a, b, k);
      PermutationInvariant(a[1..], b');
      RemoveAt(b, k);
    }
  }

  lemma RemoveOne(a: seq<Tree>, b: seq<Tree>, k: nat)
    requires |a| > 0 && k < |b| && b[k] == a[0]
    requires multiset(a) == multiset(b)
    ensures multiset(a[1..]) == multiset(b[..k] + b[k + 1..])
  {
    var x := b[k];
    assert b == b[..k] + [x] + b[k + 1..];
    assert a == [x] + a[1..];
    assert multiset(b) == multiset(b[..k]) + multiset{x} + multiset(b[k + 1..]);
    assert multiset(a) == multiset{x} + multiset(a[1..]);
    assert multiset(b[..k] + b[k + 1..]) == multiset(b[..k]) + multiset(b[k + 1..]);
    var lhs := multiset(a[1..]);
    var rhs := multiset(b[..k]) + multiset(b[k + 1..]);
    forall y
      ensures lhs[y] == rhs[y]
    {
      assert multiset(a)[y] == multiset(b)[y];
    }
  }

  lemma RemoveAt(b: seq<Tree>, k: nat)
    requires k < |b|
    ensures LeafBag(b) == LeafBag(b[..k] + b[k + 1..]) + Leaves(b[k])
    ensures TotalFreq(b) == TotalFreq(b[..k] + b[k + 1..]) + b[k].freq
  {
    Around(b, k);
    Reassemble(b[..k], b[k], b[k + 1..]);
  }

  lemma Around<T>(b: seq<T>, k: nat)
    requires k < |b|
    ensures b == b[..k] + ([b[k]] + b[k + 1..])
  {
  }

  lemma Reassemble(pre: seq<Tree>, x: Tree, post: seq<Tree>)
    ensures LeafBag(pre + ([x] + post)) == LeafBag(pre + post) + Leaves(x)
    ensures TotalFreq(pre + ([x] + post)) == TotalFreq(pre + post) + x.freq
  {
    LeafBagAppend(pre, post);
    LeafBagAppend(pre, [x] + post);
    ConsBag(x, post);
    Shuffle(LeafBag(pre), Leaves(x), LeafBag(post));
  }

  lemma ConsBag(x: Tree, post: seq<Tree>)
    ensures LeafBag([x] + post) == Leaves(x) + LeafBag(post)
    ensures TotalFreq([x] + post) == x.freq + TotalFreq(post)
  {
    assert ([x] + post)[1..] == post;
  }

  lemma Shuffle(p: multiset<byte>, x: multiset<byte>, q: multiset<byte>)
    ensures p + (x + q) == (p + q) + x
  {
  }

  /** One iteration of the `form_tree` loop: sort, join the two least frequent trees (the first
      as left child, the second as right), and append the parent at the end. */
  function Step(nodes: seq<Tree>): (r: seq<Tree>)
    requires |nodes| >= 2
    ensures |r| == |nodes| - 1
    ensures r[|r| - 1].Internal?
    ensures r[|r| - 1].freq == r[|r| - 1].left.freq + r[|r| - 1].right.freq
    ensures r[|r| - 1].left.freq <= r[|r| - 1].right.freq
    ensures forall k | 0 <= k < |r| - 1 :: r[|r| - 1].right.freq <= r[k].freq
    ensures multiset(r[..|r| - 1]) + multiset{r[|r| - 1].left, r[|r| - 1].right} == multiset(nodes)
    ensures LeafBag(r) == LeafBag(nodes)
    ensures TotalFreq(r) == TotalFreq(nodes)
    ensures AllWeighted(nodes) ==> AllWeighted(r)
  {
    var s := MergeSort(nodes);
    var parent := Internal(s[0], s[1], s[0].freq + s[1].freq);
    StepPreserves(nodes, s, parent);
    StepChoice(nodes, s, parent);
    s[2..] + [parent]
  }

  /** The parent joins the two least frequent trees, the lighter on the left, and the trees before
      it are what remains of the list once those two are taken out. */
  lemma StepChoice(nodes: seq<Tree>, s: seq<Tree>, parent: Tree)
    requires |s| >= 2 && multiset(s) == multiset(nodes) && SortedByFreq(s)
    requires parent == Internal(s[0], s[1], s[0].freq + s[1].freq)
    ensures var r := s[2..] + [parent];
      && |r| == |nodes| - 1
      && r[|r| - 1] == parent
      && parent.left.freq <= parent.right.freq
      && (forall k | 0 <= k < |r| - 1 :: parent.right.freq <= r[k].freq)
      && multiset(r[..|r| - 1]) + multiset{parent.left, parent.right} == multiset(nodes)
  {
    var r := s[2..] + [parent];
    assert |s| == |multiset(s)| == |multiset(nodes)| == |nodes|;
    assert r[..|r| - 1] == s[2..];
    assert s == [s[0], s[1]] + s[2..];
    forall k | 0 <= k < |r| - 1
      ensures parent.right.freq <= r[k].freq
    {
      assert r[k] == s[k + 2];
    }
  }

  lemma StepPreserves(nodes: seq<Tree>, s: seq<Tree>, parent: Tree)
    requires |s| >= 2 && multiset(s) == multiset(nodes)
    requires parent == Internal(s[0], s[1], s[0].freq + s[1].freq)
    ensures LeafBag(s[2..] + [parent]) == LeafBag(nodes)
    ensures TotalFreq(s[2..] + [parent]) == TotalFreq(nodes)
    ensures AllWeighted(nodes) ==> AllWeighted(s[2..] + [parent])
  {
    PermutationInvariant(s, nodes);
    JoinFirstTwo(s, parent);
    if AllWeighted(nodes) {
      forall k | 0 <= k < |s|
        ensures Weighted(s[k])
      {
        assert s[k] in multiset(nodes);
      }
    }
  }

  lemma JoinFirstTwo(s: seq<Tree>, parent: Tree)
    requires |s| >= 2
    requires parent == Internal(s[0], s[1], s[0].freq + s[1].freq)
    ensures LeafBag(s[2..] + [parent]) == LeafBag(s)
    ensures TotalFreq(s[2..] + [parent]) == TotalFreq(s)
  {
    assert s[1..][1..] == s[2..];
    LeafBagAppend(s[2..], [parent]);
    assert [parent][1..] == [];
  }

  /** Every leaf carries its symbol's entry of the frequency table `freq`. */
  ghost predicate Counted(t: Tree, freq: seq<nat>)
  {
    match t
    case Leaf(c, f) => c < |freq| && f == freq[c]
    case Internal(l, r, _) => Counted(l, freq) && Counted(r, freq)
  }

  ghost predicate AllCounted(s: seq<Tree>, freq: seq<nat>)
  {
    forall k | 0 <= k < |s| :: Counted(s[k], freq)
  }

  /** A step only regroups trees, so leaves keep the counts they were given. */
  lemma StepCounted(nodes: seq<Tree>, freq: seq<nat>)
    requires |nodes| >= 2 && AllCounted(nodes, freq)
    ensures AllCounted(Step(nodes), freq)
  {
    var r := Step(nodes);
    var last := |r| - 1;
    forall k | 0 <= k < |r|
      ensures Counted(r[k], freq)
    {
      if k < last {
        assert r[k] == r[..last][k];
        assert r[k] in multiset(nodes);
      } else {
        assert r[k].left in multiset(nodes);
        assert r[k].right in multiset(nodes);
      }
    }
  }

  /** The root `form_tree` returns keeps the counts of the leaves it was given. */
  lemma {:induction false} FormTreeCounted(nodes: seq<Tree>, freq: seq<nat>)
    requires |nodes| >= 1 && AllCounted(nodes, freq)
    ensures Counted(FormTree(nodes), freq)
    decreases |nodes|
  {
    if |nodes| >= 2 {
      StepCounted(nodes, freq);
      FormTreeCounted(Step(nodes), freq);
    }
  }

  /** `form_tree`: repeat the step until a single root is left. */
  function FormTree(nodes: seq<Tree>): (root: Tree)
    requires |nodes| >= 1
    ensures Leaves(root) == LeafBag(nodes)
    ensures root.freq == TotalFreq(nodes)
    ensures AllWeighted(nodes) ==> Weighted(root)
    ensures |nodes| >= 2 ==> root.Internal?
    decreases |nodes|
  {
    if |nodes| == 1 then
      assert nodes[1..] == [];
      nodes[0]
    else
      var r := Step(nodes);
      FormTree(r)
  }

  /** The symbols 0..n-1 in increasing order. */
  function Upto(n: nat): (r: seq<byte>)
    requires n <= SYMBOLS
    ensures |r| == n
  {
    if n == 0 then [] else Upto(n - 1) + [(n - 1) as byte]
  }

  lemma {:induction false} UptoAt(n: nat)
    requires n <= SYMBOLS
    ensures forall k | 0 <= k < n :: Upto(n)[k] == k
  {
    if n > 0 {
      UptoAt(n - 1);
      assert forall k | 0 <= k < n - 1 :: Upto(n)[k] == Upto(n - 1)[k];
    }
  }

  /** Every symbol 0..255, once. */
  function AllSymbols(): multiset<byte>
  {
    multiset(Upto(SYMBOLS))
  }

  /** One leaf per symbol, in symbol order, carrying the symbol's count (huffman.py:100). */
  function InitialNodes(freq: seq<nat>): (r: seq<Tree>)
    requires |freq| == SYMBOLS
    ensures |r| == SYMBOLS
    ensures LeafBag(r) == AllSymbols()
    ensures TotalFreq(r) == Sum(freq)
    ensures AllWeighted(r)
    ensures forall k | 0 <= k < SYMBOLS :: r[k].Leaf? && r[k].symbol == k && r[k].freq == freq[r[k].symbol]
  {
    var r := seq(SYMBOLS, (c: int) requires 0 <= c < SYMBOLS => Leaf(c, freq[c]));
    var syms := Upto(SYMBOLS);
    UptoAt(SYMBOLS);
    assert forall k | 0 <= k < SYMBOLS :: r[k] == Leaf(syms[k], freq[k]);
    LeavesOfLeaves(r, syms, freq);
    r
  }

  lemma {:induction false} LeavesOfLeaves(s: seq<Tree>, syms: seq<byte>, freq: seq<nat>)
    requires |s| == |syms| == |freq|
    requires forall k | 0 <= k < |s| :: s[k] == Leaf(syms[k], freq[k])
    ensures LeafBag(s) == multiset(syms)
    ensures TotalFreq(s) == Sum(freq)
    ensures AllWeighted(s)
  {
    if |s| > 0 {
      LeavesOfLeaves(s[1..], syms[1..], freq[1..]);
      assert syms == [syms[0]] + syms[1..];
    }
  }

  lemma {:induction false} SymbolCount(n: nat, c: byte)
    requires n <= SYMBOLS
    ensures multiset(Upto(n))[c] == if c < n then 1 else 0
  {
    if n > 0 {
      var last: byte := (n - 1) as byte;
      assert Upto(n) == Upto(n - 1) + [last];
      SnocCount(Upto(n - 1), last, c);
      SymbolCount(n - 1, c);
    }
  }

  lemma SnocCount(a: seq<byte>, x: byte, c: byte)
    ensures multiset(a + [x])[c] == multiset(a)[c] + if x == c then 1 else 0
  {
    assert multiset(a + [x]) == multiset(a) + multiset{x};
  }

  /** Each of the 256 symbols occurs exactly once among the leaves. */
  lemma AllSymbolsOnce(c: byte)
    ensures AllSymbols()[c] == 1
  {
    SymbolCount(SYMBOLS, c);
  }

  /** The tree `compress` builds for `data` (huffman.py:98-102). */
  function HuffmanTree(data: seq<byte>): (root: Tree)
    ensures Leaves(root) == AllSymbols()
    ensures root.freq == |data|
    ensures Weighted(root)
    ensures root.Internal?
    ensures Counted(root, Frequency(data))
  {
    var freq := Frequency(data);
    var nodes := InitialNodes(freq);
    FrequencyTotal(data);
    assert AllCounted(nodes, freq);
    FormTreeCounted(nodes, freq);
    FormTree(nodes)
  }
}
