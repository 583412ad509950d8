/**
 The building half of class `HuffmanTree` (Huffman.h, Huffman.cpp): the
 forest of roots, symbol counting, minimum extraction and the merge loop.

 The object's state is a value `HuffmanTree(isHeap, codeMap, forest)`; each
 member function of the source that mutates the object becomes a function
 from the old state to the new one.
 */
module Forests {
  import opened Wrappers
  import opened Nodes

  /**
   `isHeap` is the frozen flag: set by `heapify`, reset by `clear`. The
   code map is keyed by `char`, so a symbol has at most one code.
   */
  datatype HuffmanTree = HuffmanTree(isHeap: bool, codeMap: map<char, seq<char>>, forest: seq<Node>)

  /** The constructor `HuffmanTree()`: no roots, no codes, not frozen. */
  function Init(): (r: HuffmanTree)
    ensures !r.isHeap && r.forest == [] && r.codeMap == map[]
  {
    HuffmanTree(false, map[], [])
  }

  /** `HuffmanTree::clear`: whatever the state, back to the initial one. */
  function Clear(t: HuffmanTree): (r: HuffmanTree)
    ensures !r.isHeap && r.forest == [] && r.codeMap == map[]
  {
    Init()
  }

  /** Total frequency of a forest. */
  function ForestWeight(f: seq<Node>): nat
    decreases |f|
  {
    if |f| == 0 then 0 else f[0].freq + ForestWeight(f[1..])
  }

  /** All leaves of all roots of a forest. */
  function ForestBag(f: seq<Node>): multiset<Node>
    decreases |f|
  {
    if |f| == 0 then multiset{} else LeafBag(f[0]) + ForestBag(f[1..])
  }

  /** Every root of the forest is well weighted. */
  predicate AllWellWeighted(f: seq<Node>) {
    forall x :: x in f ==> WellWeighted(x)
  }

  /** The forest without its entry at index `i`, others in their order. */
  function Remove(f: seq<Node>, i: nat): (r: seq<Node>)
    requires i < |f|
    ensures |r| == |f| - 1
  {
    f[..i] + f[i + 1..]
  }

  /** Erasing an entry loses exactly that entry and adds nothing. */
  lemma RemoveContents(f: seq<Node>, i: nat)
    requires i < |f|
    ensures multiset(Remove(f, i)) + multiset{f[i]} == multiset(f)
    ensures forall x :: x in Remove(f, i) ==> x in f
  {
    assert f == f[..i] + [f[i]] + f[i + 1..];
  }

  /**
   The scan of `add(char, int)`: the index of the first root whose
   character is `c`, scanning from index `i`, or `|f|` when there is none.
   */
  function FindRoot(f: seq<Node>, c: char, i: nat): (k: nat)
    requires i <= |f|
    ensures i <= k <= |f|
    ensures k < |f| ==> f[k].GetChar() == c
    ensures forall j :: i <= j < k ==> f[j].GetChar() != c
    decreases |f| - i
  {
    if i == |f| then |f|
    else if f[i].GetChar() == c then i
    else FindRoot(f, c, i + 1)
  }

  /**
   `HuffmanTree::add(char, int)`: once frozen, nothing changes. Otherwise
   the first root carrying `c` gains `freq` and nothing else changes, or,
   when no root carries `c`, one leaf `(c, freq)` is appended at the end.
   */
  function Add(t: HuffmanTree, c: char, freq: nat): (r: HuffmanTree)
    ensures t.isHeap ==> r == t
    ensures r.isHeap == t.isHeap && r.codeMap == t.codeMap
    ensures !t.isHeap ==>
      var i := FindRoot(t.forest, c, 0);
      if i < |t.forest| then
        && |r.forest| == |t.forest|
        && r.forest[i].freq == t.forest[i].freq + freq
        && r.forest[i].GetChar() == c && r.forest[i].IsLeaf() == t.forest[i].IsLeaf()
        && (t.forest[i].Internal? ==> r.forest[i].left == t.forest[i].left && r.forest[i].right == t.forest[i].right)
        && (forall j :: 0 <= j < |t.forest| && j != i ==> r.forest[j] == t.forest[j])
      else
        && (forall j :: 0 <= j < |t.forest| ==> t.forest[j].GetChar() != c)
        && r.forest == t.forest + [Leaf(c, freq)]
  {
    if t.isHeap then t
    else
      var i := FindRoot(t.forest, c, 0);
      if i < |t.forest| then
        t.(forest := t.forest[i := SetFreq(t.forest[i], t.forest[i].freq + freq)])
      else
        t.(forest := t.forest + [NewLeaf(c, freq)])
  }

  /** `HuffmanTree::add(Node*)`: appends a non-null node unless frozen. */
  function AddNode(t: HuffmanTree, n: Option<Node>): (r: HuffmanTree)
    ensures r.isHeap == t.isHeap && r.codeMap == t.codeMap
    ensures t.isHeap || n.None? ==> r == t
    ensures !t.isHeap && n.Some? ==> r.forest == t.forest + [n.value]
  {
    if t.isHeap then t
    else if n.Some? then t.(forest := t.forest + [n.value])
    else t
  }

  /**
   The loop of `popMin`: `i` is the best index among `f[..j]`. A later entry
   replaces it only when strictly lighter, so the result is the leftmost
   entry of minimal frequency.
   */
  function MinScan(f: seq<Node>, i: nat, j: nat): (m: nat)
    requires i < |f| && j <= |f|
    requires forall k :: 0 <= k < j ==> f[i].freq <= f[k].freq
    requires forall k :: 0 <= k < i ==> f[k].freq > f[i].freq
    ensures m < |f|
    ensures forall k :: 0 <= k < |f| ==> f[m].freq <= f[k].freq
    ensures forall k :: 0 <= k < m ==> f[k].freq > f[m].freq
    decreases |f| - j
  {
    if j == |f| then i
    else MinScan(f, if f[i].freq > f[j].freq then j else i, j + 1)
  }

  /** Index of the leftmost root of minimal frequency. */
  function MinIndex(f: seq<Node>): (m: nat)
    requires |f| > 0
    ensures m < |f|
    ensures forall k :: 0 <= k < |f| ==> f[m].freq <= f[k].freq
    ensures forall k :: 0 <= k < m ==> f[k].freq > f[m].freq
  {
    MinScan(f, 0, 0)
  }

  /**
   `HuffmanTree::popMin`: on an empty forest, null and no change; otherwise
   the entry found by the scan, removed from the forest.
   */
  function PopMin(f: seq<Node>): (r: (Option<Node>, seq<Node>))
    ensures |f| == 0 ==> r == (None, f)
    ensures |f| > 0 ==> r.0.Some? && |r.1| == |f| - 1
    ensures |f| > 0 ==> multiset(r.1) + multiset{r.0.value} == multiset(f)
  {
    if |f| == 0 then (None, f)
    else
      var i := MinIndex(f);
      assert f == f[..i] + [f[i]] + f[i + 1..];
      (Some(f[i]), Remove(f, i))
  }

  /**
   On a non-empty forest `popMin` removes and returns an entry of minimal
   frequency, the leftmost one among ties; the remaining entries keep their
   relative order, and together with the returned one they are the forest.
   */
  lemma PopMinSpec(f: seq<Node>)
    requires |f| > 0
    ensures var r := PopMin(f);
      && (forall k :: 0 <= k < |f| ==> r.0.value.freq <= f[k].freq)
      && multiset(r.1) + multiset{r.0.value} == multiset(f)
      && (exists i :: 0 <= i < |f| && r.0.value == f[i] && r.1 == f[..i] + f[i + 1..]
           && forall k :: 0 <= k < i ==> f[k].freq > f[i].freq)
  {
    var i := MinIndex(f);
    assert f == f[..i] + [f[i]] + f[i + 1..];
    assert PopMin(f).1 == f[..i] + f[i + 1..];
  }

  /**
   One iteration of the loop of `heapify`: extract the minimum twice, merge
   the second-extracted (left) with the first-extracted (right) and add the
   result back at the end. Unless frozen, the forest shrinks by one.
   */
  function MergeStep(t: HuffmanTree): (r: HuffmanTree)
    requires |t.forest| >= 2
    ensures r.isHeap == t.isHeap && r.codeMap == t.codeMap
    ensures |r.forest| == |t.forest| - (if t.isHeap then 2 else 1)
  {
    var first := PopMin(t.forest);
    var second := PopMin(first.1);
    AddNode(t.(forest := second.1), Merge(second.0, first.0))
  }

  /**
   The node a merge step appends: an internal node weighing the sum of its
   children, whose right child is the first-extracted minimum of the whole
   forest and whose left child is the second-extracted minimum of the rest;
   the other roots are those of the forest minus these two.
   */
  lemma MergeStepShape(t: HuffmanTree)
    requires |t.forest| >= 2 && !t.isHeap
    ensures var r := MergeStep(t).forest;
      var n := r[|r| - 1];
      var rest := r[..|r| - 1];
      && n.Internal?
      && n.freq == n.left.freq + n.right.freq
      && n.right == PopMin(t.forest).0.value
      && n.left == PopMin(PopMin(t.forest).1).0.value
      && (forall k :: 0 <= k < |t.forest| ==> n.right.freq <= t.forest[k].freq)
      && (forall x :: x in rest ==> n.right.freq <= n.left.freq <= x.freq)
      && multiset(rest) + multiset{n.left, n.right} == multiset(t.forest)
  {
    var f := t.forest;
    var i := MinIndex(f);
    var f1 := Remove(f, i);
    var j := MinIndex(f1);
    MergeStepForest(t);
    var r := MergeStep(t).forest;
    assert r[..|r| - 1] == Remove(f1, j);
    assert PopMin(f).0 == Some(f[i]) && PopMin(f).1 == f1;
    assert PopMin(f1).0 == Some(f1[j]);
    MergeOrder(f, i, j);
  }

  /**
   When `i` is a minimum of `f` and `j` a minimum of `f` without it, the
   entry at `j` is no lighter than the one at `i` and no heavier than any
   remaining entry, and the two together with the rest make up `f`.
   */
  lemma MergeOrder(f: seq<Node>, i: nat, j: nat)
    requires i < |f| && j < |f| - 1
    requires forall k :: 0 <= k < |f| ==> f[i].freq <= f[k].freq
    requires forall k :: 0 <= k < |f| - 1 ==> Remove(f, i)[j].freq <= Remove(f, i)[k].freq
    ensures var f1 := Remove(f, i);
      var f2 := Remove(f1, j);
      var a, b := f1[j], f[i];
      && b.freq <= a.freq
      && (forall x :: x in f2 ==> a.freq <= x.freq)
      && multiset(f2) + multiset{a, b} == multiset(f)
  {
    var f1 := Remove(f, i);
    var f2 := Remove(f1, j);
    var a, b := f1[j], f[i];
    RemoveContents(f, i);
    RemoveContents(f1, j);
    assert b.freq <= a.freq by {
      assert a in f1;
    }
    forall x | x in f2
      ensures a.freq <= x.freq
    {
      var k :| 0 <= k < |f2| && f2[k] == x;
      assert x == f1[if k < j then k else k + 1];
    }
    assert multiset(f2) + multiset{a, b} == multiset(f2) + multiset{a} + multiset{b};
  }

  /**
   `HuffmanTree::heapify`: merge until at most one root remains, then set
   the frozen flag. Starting unfrozen from a non-empty forest it ends with
   exactly one root.
   */
  function Heapify(t: HuffmanTree): (r: HuffmanTree)
    ensures r.isHeap && |r.forest| <= 1 && r.codeMap == t.codeMap
    ensures !t.isHeap && |t.forest| > 0 ==> |r.forest| == 1
    ensures |t.forest| <= 1 ==> r.forest == t.forest
    decreases |t.forest|
  {
    if |t.forest| >= 2 then Heapify(MergeStep(t)) else t.(isHeap := true)
  }

  lemma {:induction false} ForestConcat(a: seq<Node>, b: seq<Node>)
    ensures ForestWeight(a + b) == ForestWeight(a) + ForestWeight(b)
    ensures ForestBag(a + b) == ForestBag(a) + ForestBag(b)
    decreases |a|
  {
    if |a| == 0 {
      assert a + b == b;
    } else {
      assert (a + b)[1..] == a[1..] + b;
      ForestConcat(a[1..], b);
    }
  }

  /** A forest cut around its entry at `i`. */
  lemma CutAt(f: seq<Node>, i: nat)
    requires i < |f|
    ensures f == f[..i] + ([f[i]] + f[i + 1..])
    ensures Remove(f, i) == f[..i] + f[i + 1..]
  {
  }

  /** Weight and bag of a forest with one more root in front. */
  lemma ForestCons(x: Node, b: seq<Node>)
    ensures ForestWeight([x] + b) == x.freq + ForestWeight(b)
    ensures ForestBag([x] + b) == LeafBag(x) + ForestBag(b)
  {
    assert ([x] + b)[1..] == b;
  }

  /** Weight and bag of a forest, split at one root. */
  lemma ForestSplit(f: seq<Node>, i: nat)
    requires i < |f|
    ensures ForestWeight(f) == f[i].freq + ForestWeight(Remove(f, i))
    ensures ForestBag(f) == LeafBag(f[i]) + ForestBag(Remove(f, i))
  {
    CutAt(f, i);
    ForestConcat(f[..i], [f[i]] + f[i + 1..]);
    ForestCons(f[i], f[i + 1..]);
    ForestConcat(f[..i], f[i + 1..]);
  }

  /** Updating one root changes the total by that root's change. */
  lemma ForestUpdate(f: seq<Node>, i: nat, x: Node)
    requires i < |f|
    ensures ForestWeight(f[i := x]) + f[i].freq == ForestWeight(f) + x.freq
  {
    ForestSplit(f, i);
    ForestSplit(f[i := x], i);
    assert Remove(f, i) == Remove(f[i := x], i);
  }

  /** `add(c, freq)` before freezing adds exactly `freq` to the total. */
  lemma AddWeight(t: HuffmanTree, c: char, freq: nat)
    requires !t.isHeap
    ensures ForestWeight(Add(t, c, freq).forest) == ForestWeight(t.forest) + freq
  {
    var i := FindRoot(t.forest, c, 0);
    if i < |t.forest| {
      ForestUpdate(t.forest, i, SetFreq(t.forest[i], t.forest[i].freq + freq));
    } else {
      ForestConcat(t.forest, [Leaf(c, freq)]);
    }
  }

  /**
   The forest without its entries at `i` and then at `j`, with their merge
   appended: the entry taken out second is the left child.
   */
  function MergeAt(f: seq<Node>, i: nat, j: nat): seq<Node>
    requires i < |f| && j < |f| - 1
  {
    var f1 := Remove(f, i);
    Remove(f1, j) + [Internal(f1[j].freq + f[i].freq, f1[j], f[i])]
  }

  /** The forest after a merge step, in terms of the two minimum indices. */
  lemma MergeStepForest(t: HuffmanTree)
    requires |t.forest| >= 2 && !t.isHeap
    ensures MergeStep(t).forest == MergeAt(t.forest, MinIndex(t.forest), MinIndex(Remove(t.forest, MinIndex(t.forest))))
  {
    var f := t.forest;
    var i := MinIndex(f);
    var f1 := Remove(f, i);
    var j := MinIndex(f1);
    assert PopMin(f).1 == f1 && PopMin(f).0 == Some(f[i]);
    assert PopMin(f1).1 == Remove(f1, j) && PopMin(f1).0 == Some(f1[j]);
  }

  /** Bag bookkeeping of a merge step: two leaf bags move into one node. */
  lemma BagShuffle(all: multiset<Node>, mid: multiset<Node>, rest: multiset<Node>, after: multiset<Node>,
                   a: multiset<Node>, b: multiset<Node>)
    requires all == b + mid && mid == a + rest && after == rest + (a + b)
    ensures after == all
  {
  }

  /** Taking out two entries and appending their merge conserves the total weight. */
  lemma MergeKeepsWeight(f: seq<Node>, i: nat, j: nat)
    requires i < |f| && j < |f| - 1
    ensures ForestWeight(MergeAt(f, i, j)) == ForestWeight(f)
  {
    ForestSplit(f, i);
    ForestSplit(Remove(f, i), j);
    ForestConcat(Remove(Remove(f, i), j), [Internal(Remove(f, i)[j].freq + f[i].freq, Remove(f, i)[j], f[i])]);
  }

  /** Taking out two entries and appending their merge conserves the bag of leaves. */
  lemma MergeKeepsBag(f: seq<Node>, i: nat, j: nat)
    requires i < |f| && j < |f| - 1
    ensures ForestBag(MergeAt(f, i, j)) == ForestBag(f)
  {
    ForestSplit(f, i);
    ForestSplit(Remove(f, i), j);
    ForestConcat(Remove(Remove(f, i), j), [Internal(Remove(f, i)[j].freq + f[i].freq, Remove(f, i)[j], f[i])]);
    BagShuffle(ForestBag(f), ForestBag(Remove(f, i)), ForestBag(Remove(Remove(f, i), j)),
      ForestBag(MergeAt(f, i, j)), LeafBag(Remove(f, i)[j]), LeafBag(f[i]));
  }

  /**
   A merge step conserves the forest's total weight and its bag of leaves.
   */
  lemma MergeStepConserves(t: HuffmanTree)
    requires |t.forest| >= 2 && !t.isHeap
    ensures ForestWeight(MergeStep(t).forest) == ForestWeight(t.forest)
    ensures ForestBag(MergeStep(t).forest) == ForestBag(t.forest)
  {
    var i := MinIndex(t.forest);
    var j := MinIndex(Remove(t.forest, i));
    MergeStepForest(t);
    MergeKeepsWeight(t.forest, i, j);
    MergeKeepsBag(t.forest, i, j);
  }

  /** A merge step keeps every root well weighted. */
  lemma MergeStepWellWeighted(t: HuffmanTree)
    requires |t.forest| >= 2 && !t.isHeap
    requires AllWellWeighted(t.forest)
    ensures AllWellWeighted(MergeStep(t).forest)
  {
    var f := t.forest;
    var i := MinIndex(f);
    var f1 := Remove(f, i);
    var j := MinIndex(f1);
    MergeStepForest(t);
    RemoveContents(f, i);
    RemoveContents(f1, j);
  }

  /**
   The merge loop conserves the total weight and the bag of leaves of the
   forest, and keeps every root well weighted.
   */
  lemma {:induction false} HeapifyConserves(t: HuffmanTree)
    requires !t.isHeap
    ensures ForestWeight(Heapify(t).forest) == ForestWeight(t.forest)
    ensures ForestBag(Heapify(t).forest) == ForestBag(t.forest)
    ensures AllWellWeighted(t.forest) ==> AllWellWeighted(Heapify(t).forest)
    decreases |t.forest|
  {
    if |t.forest| >= 2 {
      MergeStepConserves(t);
      if AllWellWeighted(t.forest) {
        MergeStepWellWeighted(t);
      }
      HeapifyConserves(MergeStep(t));
    }
  }

  /**
   A non-empty forest of well-weighted trees merges into one well-weighted
   root that holds every leaf of the forest and weighs the whole forest.
   */
  lemma HeapifyRoot(t: HuffmanTree)
    requires !t.isHeap && |t.forest| > 0 && AllWellWeighted(t.forest)
    ensures |Heapify(t).forest| == 1
    ensures LeafBag(Heapify(t).forest[0]) == ForestBag(t.forest)
    ensures Heapify(t).forest[0].freq == ForestWeight(t.forest)
    ensures WellWeighted(Heapify(t).forest[0])
  {
    HeapifyConserves(t);
    var root := Heapify(t).forest[0];
    assert Heapify(t).forest == [root];
    assert ForestWeight([root]) == root.freq;
    assert ForestBag([root]) == LeafBag(root);
    assert root in [root];
  }
}
