/**
 Code-table generation (`HuffmanTree::generateCodeMap` and the recursive
 `HuffmanTree::encode(Node*, string)`): a depth-first walk that appends
 '0' on the way to a left child and '1' on the way to a right child, and
 records the accumulated string at every leaf.
 */
module CodeMaps {
  import opened Nodes
  import opened Forests

  /**
   The walk from `n` with accumulated string `prefix`, writing into `m`.
   The leaf is written first, then the left subtree, then the right one,
   so a later leaf overwrites an earlier leaf with the same symbol.
   */
  function CodeWalk(n: Node, prefix: seq<char>, m: map<char, seq<char>>): (r: map<char, seq<char>>)
    ensures r.Keys == m.Keys + LeafChars(n)
    ensures forall c :: c in m && c !in LeafChars(n) ==> r[c] == m[c]
    decreases n
  {
    match n
    case Leaf(ch, _) => m[ch := prefix]
    case Internal(_, l, rt) => CodeWalk(rt, prefix + ['1'], CodeWalk(l, prefix + ['0'], m))
  }

  /** `code` starts with `prefix`, and the rest of it is a path from `n` to `c`. */
  predicate IsCodeOf(n: Node, prefix: seq<char>, code: seq<char>, c: char) {
    prefix <= code && LeadsTo(n, code[|prefix|..], c)
  }

  /** A code of a child extends to a code of its parent. */
  lemma ChildCode(n: Node, prefix: seq<char>, code: seq<char>, c: char)
    requires n.Internal?
    requires IsCodeOf(n.left, prefix + ['0'], code, c) || IsCodeOf(n.right, prefix + ['1'], code, c)
    ensures IsCodeOf(n, prefix, code, c)
  {
    var bit := if IsCodeOf(n.left, prefix + ['0'], code, c) then '0' else '1';
    var p := prefix + [bit];
    assert code[|prefix|..][0] == code[|prefix|] == p[|prefix|] == bit;
    assert code[|prefix|..][1..] == code[|p|..];
  }

  /** Every symbol the walk records gets the path to one of its leaves. */
  lemma {:induction false} CodeWalkPaths(n: Node, prefix: seq<char>, m: map<char, seq<char>>)
    ensures forall c :: c in LeafChars(n) ==> IsCodeOf(n, prefix, CodeWalk(n, prefix, m)[c], c)
    decreases n
  {
    match n
    case Leaf(ch, _) =>
      assert CodeWalk(n, prefix, m)[ch][|prefix|..] == [];
    case Internal(_, l, rt) =>
      var m1 := CodeWalk(l, prefix + ['0'], m);
      var r := CodeWalk(rt, prefix + ['1'], m1);
      CodeWalkPaths(l, prefix + ['0'], m);
      CodeWalkPaths(rt, prefix + ['1'], m1);
      forall c | c in LeafChars(n)
        ensures IsCodeOf(n, prefix, r[c], c)
      {
        if c in LeafChars(rt) {
          ChildCode(n, prefix, r[c], c);
        } else {
          assert r[c] == m1[c];
          ChildCode(n, prefix, r[c], c);
        }
      }
  }

  /**
   `HuffmanTree::generateCodeMap`: run the merge loop, then walk the single
   root, if any, with the empty string.
   */
  function GenerateCodeMap(t: HuffmanTree): (r: HuffmanTree)
    ensures r.isHeap && |r.forest| <= 1
    ensures r.forest == Heapify(t).forest
    ensures |r.forest| == 0 ==> r.codeMap == t.codeMap
    ensures |r.forest| == 1 ==> r.codeMap.Keys == t.codeMap.Keys + LeafChars(r.forest[0])
  {
    var h := Heapify(t);
    if |h.forest| > 0 then h.(codeMap := CodeWalk(h.forest[0], [], h.codeMap)) else h
  }

  /** Every code of a fresh walk from `root` is the path to its symbol. */
  lemma CodePaths(root: Node, m: map<char, seq<char>>)
    requires m == CodeWalk(root, [], map[])
    ensures forall c :: c in m ==> LeadsTo(root, m[c], c)
  {
    CodeWalkPaths(root, [], map[]);
    forall c | c in m
      ensures LeadsTo(root, m[c], c)
    {
      assert m[c][0..] == m[c];
    }
  }

  /** No code of a fresh walk is a prefix of another symbol's code. */
  lemma CodePrefixFree(root: Node, m: map<char, seq<char>>)
    requires m == CodeWalk(root, [], map[])
    ensures forall a, b :: a in m && b in m && a != b ==> !(m[a] <= m[b])
  {
    CodePaths(root, m);
    forall a, b | a in m && b in m && a != b
      ensures !(m[a] <= m[b])
    {
      if m[a] <= m[b] {
        assert m[b] == m[a] + m[b][|m[a]|..];
        NoPathExtendsAnother(root, m[a], m[b][|m[a]|..], a, b);
      }
    }
  }

  /**
   The code table of a fresh walk from `root`: its keys are exactly the leaf
   symbols; every code is a string over '0' and '1' that is the path from
   the root to a leaf with that symbol; no code is a prefix of the code of
   another symbol; and a root that is itself a leaf gets the empty code.
   */
  lemma CodeTable(root: Node)
    ensures var m := CodeWalk(root, [], map[]);
      && m.Keys == LeafChars(root)
      && (forall c :: c in m ==> LeadsTo(root, m[c], c))
      && (forall c, i :: c in m && 0 <= i < |m[c]| ==> m[c][i] == '0' || m[c][i] == '1')
      && (forall a, b :: a in m && b in m && a != b ==> !(m[a] <= m[b]))
      && (root.Leaf? ==> m == map[root.ch := []])
  {
    var m := CodeWalk(root, [], map[]);
    CodePaths(root, m);
    CodePrefixFree(root, m);
    forall c, i | c in m && 0 <= i < |m[c]|
      ensures m[c][i] == '0' || m[c][i] == '1'
    {
      PathIsBits(root, m[c], c);
    }
  }
}
