/**
 The counting loop of `HuffmanTree::encodeData`: every input character is
 added with the default frequency 1, building one leaf per distinct
 character in the order of first occurrence.
 */
module Counting {
  import opened Nodes
  import opened Forests

  /** Adds every character of `data`, left to right, with `add(ch)`. */
  function CountAll(t: HuffmanTree, data: seq<char>): (r: HuffmanTree)
    ensures r.isHeap == t.isHeap && r.codeMap == t.codeMap
    ensures t.isHeap ==> r == t
    decreases |data|
  {
    if |data| == 0 then t
    else Add(CountAll(t, data[..|data| - 1]), data[|data| - 1], 1)
  }

  /**
   `f` is the forest of leaves that counting `data` must produce: one leaf
   per distinct character of `data`, carrying its number of occurrences, in
   the order in which the characters first occur.
   */
  ghost predicate CountsOf(f: seq<Node>, data: seq<char>)
  {
    && (forall i :: 0 <= i < |f| ==> f[i].Leaf? && f[i].GetChar() in data)
    && (forall i :: 0 <= i < |f| ==> f[i].freq == multiset(data)[f[i].GetChar()])
    && (forall i, j :: 0 <= i < j < |f| ==> f[i].GetChar() != f[j].GetChar())
    && Covers(f, data)
    && FirstOccurrenceOrder(f, data)
  }

  /** Some root of `f` carries `c`. */
  ghost predicate HasRoot(f: seq<Node>, c: char) {
    exists i :: 0 <= i < |f| && f[i].GetChar() == c
  }

  /** Every character of `data` has a root carrying it. */
  ghost predicate Covers(f: seq<Node>, data: seq<char>) {
    forall k :: 0 <= k < |data| ==> HasRoot(f, data[k])
  }

  /** A root's character occurs in `data` before any occurrence of a later root's character. */
  ghost predicate FirstOccurrenceOrder(f: seq<Node>, data: seq<char>) {
    forall i, j, k :: 0 <= i < j < |f| && 0 <= k < |data| && data[k] == f[j].GetChar() ==>
      f[i].GetChar() in data[..k]
  }

  /** Counting an extra character that already has its leaf keeps the cover. */
  lemma KnownCovers(f: seq<Node>, f': seq<Node>, data: seq<char>, idx: nat)
    requires Covers(f, data)
    requires |f'| == |f| && idx < |f|
    requires forall i :: 0 <= i < |f| ==> f'[i].GetChar() == f[i].GetChar()
    ensures Covers(f', data + [f[idx].GetChar()])
  {
  }

  /** Counting an extra character that already has its leaf keeps the order. */
  lemma KnownOrder(f: seq<Node>, f': seq<Node>, data: seq<char>, idx: nat)
    requires forall i :: 0 <= i < |f| ==> f[i].GetChar() in data
    requires FirstOccurrenceOrder(f, data)
    requires |f'| == |f| && idx < |f|
    requires forall i :: 0 <= i < |f| ==> f'[i].GetChar() == f[i].GetChar()
    ensures FirstOccurrenceOrder(f', data + [f[idx].GetChar()])
  {
    var d' := data + [f[idx].GetChar()];
    assert forall k :: 0 <= k <= |data| ==> d'[..k] == data[..k];
    forall i, j, k | 0 <= i < j < |f'| && 0 <= k < |d'| && d'[k] == f'[j].GetChar()
      ensures f'[i].GetChar() in d'[..k]
    {
      if k == |data| {
        assert f[i].GetChar() in data;
      } else {
        assert d'[k] == data[k];
      }
    }
  }

  /** Counting an extra character that already has its leaf. */
  lemma CountsOfKnown(f: seq<Node>, data: seq<char>, c: char, idx: nat)
    requires CountsOf(f, data)
    requires idx < |f| && f[idx].GetChar() == c
    ensures CountsOf(f[idx := SetFreq(f[idx], f[idx].freq + 1)], data + [c])
  {
    var f' := f[idx := SetFreq(f[idx], f[idx].freq + 1)];
    assert forall i :: 0 <= i < |f'| ==> f'[i].GetChar() == f[i].GetChar();
    KnownCovers(f, f', data, idx);
    KnownOrder(f, f', data, idx);
  }

  /** A character without a root does not occur in covered data. */
  lemma FreshAbsent(f: seq<Node>, data: seq<char>, c: char)
    requires Covers(f, data)
    requires forall i :: 0 <= i < |f| ==> f[i].GetChar() != c
    ensures c !in data
  {
  }

  /** Appending a fresh leaf for a fresh character keeps the cover. */
  lemma FreshCovers(f: seq<Node>, data: seq<char>, c: char)
    requires Covers(f, data)
    ensures Covers(f + [Leaf(c, 1)], data + [c])
  {
    var f' := f + [Leaf(c, 1)];
    var d' := data + [c];
    forall k | 0 <= k < |d'|
      ensures HasRoot(f', d'[k])
    {
      if k < |data| {
        assert HasRoot(f, data[k]);
        var i :| 0 <= i < |f| && f[i].GetChar() == data[k];
        assert f'[i].GetChar() == f[i].GetChar() && d'[k] == data[k];
      } else {
        assert f'[|f|].GetChar() == d'[k];
      }
    }
  }

  /** Appending a fresh leaf for a fresh character keeps the order of first occurrence. */
  lemma FreshOrder(f: seq<Node>, data: seq<char>, c: char)
    requires forall i :: 0 <= i < |f| ==> f[i].GetChar() in data
    requires FirstOccurrenceOrder(f, data)
    requires c !in data
    ensures FirstOccurrenceOrder(f + [Leaf(c, 1)], data + [c])
  {
    var f' := f + [Leaf(c, 1)];
    var d' := data + [c];
    assert forall k :: 0 <= k <= |data| ==> d'[..k] == data[..k];
    forall i, j, k | 0 <= i < j < |f'| && 0 <= k < |d'| && d'[k] == f'[j].GetChar()
      ensures f'[i].GetChar() in d'[..k]
    {
      if j == |f| {
        assert d'[k] == c;
        assert k == |data|;
        assert f[i].GetChar() in data;
      } else {
        assert d'[|data|] == c != f'[j].GetChar();
        assert d'[k] == data[k];
      }
    }
  }

  /** Counting an extra character that has no leaf yet. */
  lemma CountsOfFresh(f: seq<Node>, data: seq<char>, c: char)
    requires CountsOf(f, data)
    requires forall i :: 0 <= i < |f| ==> f[i].GetChar() != c
    ensures c !in data
    ensures CountsOf(f + [Leaf(c, 1)], data + [c])
  {
    FreshAbsent(f, data, c);
    FreshCovers(f, data, c);
    FreshOrder(f, data, c);
  }

  /**
   Counting `data` from a cleared object yields exactly one leaf per
   distinct character, carrying its number of occurrences, in order of
   first occurrence.
   */
  lemma {:induction false} CountingForest(data: seq<char>)
    ensures CountsOf(CountAll(Init(), data).forest, data)
    decreases |data|
  {
    if |data| > 0 {
      var pre := data[..|data| - 1];
      var c := data[|data| - 1];
      assert data == pre + [c];
      CountingForest(pre);
      var t := CountAll(Init(), pre);
      assert CountAll(Init(), data) == Add(t, c, 1);
      var idx := FindRoot(t.forest, c, 0);
      if idx < |t.forest| {
        assert Add(t, c, 1).forest == t.forest[idx := SetFreq(t.forest[idx], t.forest[idx].freq + 1)];
        CountsOfKnown(t.forest, pre, c, idx);
      } else {
        assert Add(t, c, 1).forest == t.forest + [Leaf(c, 1)];
        CountsOfFresh(t.forest, pre, c);
      }
    }
  }

  /** Counting `data` puts exactly `|data|` units of weight into the forest. */
  lemma {:induction false} CountingWeight(data: seq<char>)
    ensures ForestWeight(CountAll(Init(), data).forest) == |data|
    decreases |data|
  {
    if |data| > 0 {
      var pre := data[..|data| - 1];
      CountingWeight(pre);
      AddWeight(CountAll(Init(), pre), data[|data| - 1], 1);
    }
  }
}
