/**
 The `Option` wrapper stands for a pointer that may be null.
 */
module Wrappers {

  datatype Option<+T> = None | Some(value: T)
}

/**
 Nodes of a Huffman tree (class `Node` of Huffman.h).

 A node built from a symbol and a frequency alone has no children and is a
 leaf; a node built by merging has two children. The datatype makes this
 shape structural: an `Internal` node always has exactly two children, and
 a `Leaf` none. The source marks internal nodes with the character '\0';
 here the constructor tells the two kinds apart, and `GetChar` reports the
 marker only to mirror `Node::getChar`.
 */
module Nodes {
  import opened Wrappers

  datatype Node =
    | Leaf(ch: char, freq: nat)
    | Internal(freq: nat, left: Node, right: Node)
  {
    /** `Node::isLeaf`: true exactly when the node has no children. */
    predicate IsLeaf() {
      Leaf?
    }

    /** `Node::getChar`: the symbol of a leaf, the marker '\0' otherwise. */
    function GetChar(): char {
      if Leaf? then ch else '\0'
    }
  }

  /** `Node::setFreq`: replaces the frequency and keeps the shape. */
  function SetFreq(n: Node, newFreq: nat): (r: Node)
    ensures r.freq == newFreq
    ensures r.IsLeaf() == n.IsLeaf() && r.GetChar() == n.GetChar()
    ensures n.Internal? ==> r.left == n.left && r.right == n.right
  {
    n.(freq := newFreq)
  }

  /** `new Node(ch, freq)` with the default null children. */
  function NewLeaf(ch: char, freq: nat): (n: Node)
    ensures n.IsLeaf() && n.GetChar() == ch && n.freq == freq
    ensures LeafBag(n) == multiset{n} && LeafChars(n) == {ch}
  {
    Leaf(ch, freq)
  }

  /** The leaves of a tree, with their frequencies, as a bag. */
  function LeafBag(n: Node): multiset<Node>
    decreases n
  {
    match n
    case Leaf(_, _) => multiset{n}
    case Internal(_, l, r) => LeafBag(l) + LeafBag(r)
  }

  /** The symbols carried by the leaves of a tree. */
  function LeafChars(n: Node): set<char>
    decreases n
  {
    match n
    case Leaf(c, _) => {c}
    case Internal(_, l, r) => LeafChars(l) + LeafChars(r)
  }

  /** Every internal node weighs the sum of its two children. */
  predicate WellWeighted(n: Node)
    decreases n
  {
    match n
    case Leaf(_, _) => true
    case Internal(w, l, r) => w == l.freq + r.freq && WellWeighted(l) && WellWeighted(r)
  }

  /**
   `HuffmanTree::merge`: a new internal node whose left child is `a`, whose
   right child is `b` and whose frequency is their sum; null when either
   operand is null.
   */
  function Merge(a: Option<Node>, b: Option<Node>): (r: Option<Node>)
    ensures r.Some? <==> a.Some? && b.Some?
    ensures r.Some? ==> r.value.Internal? && r.value.left == a.value && r.value.right == b.value
    ensures r.Some? ==> r.value.freq == a.value.freq + b.value.freq
    ensures r.Some? ==> LeafBag(r.value) == LeafBag(a.value) + LeafBag(b.value)
    ensures r.Some? ==> (WellWeighted(r.value) <==> WellWeighted(a.value) && WellWeighted(b.value))
  {
    if a.Some? && b.Some? then
      Some(Internal(a.value.freq + b.value.freq, a.value, b.value))
    else
      None
  }

  /**
   `path` spells the way from `n` down to a leaf carrying `c`: '0' steps to
   the left child, '1' to the right child, and the path ends at the leaf.
   */
  predicate LeadsTo(n: Node, path: seq<char>, c: char)
    decreases n
  {
    match n
    case Leaf(ch, _) => path == [] && ch == c
    case Internal(_, l, r) =>
      && |path| > 0
      && ((path[0] == '0' && LeadsTo(l, path[1..], c)) || (path[0] == '1' && LeadsTo(r, path[1..], c)))
  }

  /** A path to a leaf is a string over the two bits '0' and '1'. */
  lemma {:induction false} PathIsBits(n: Node, path: seq<char>, c: char)
    requires LeadsTo(n, path, c)
    ensures forall i :: 0 <= i < |path| ==> path[i] == '0' || path[i] == '1'
    decreases n
  {
    match n
    case Leaf(_, _) =>
    case Internal(_, l, r) =>
      if path[0] == '0' && LeadsTo(l, path[1..], c) {
        PathIsBits(l, path[1..], c);
      } else {
        PathIsBits(r, path[1..], c);
      }
      assert forall i :: 1 <= i < |path| ==> path[i] == path[1..][i - 1];
  }

  /** Only leaves of the tree are reached by a path. */
  lemma {:induction false} PathEndsAtLeafChar(n: Node, path: seq<char>, c: char)
    requires LeadsTo(n, path, c)
    ensures c in LeafChars(n)
    decreases n
  {
    match n
    case Leaf(_, _) =>
    case Internal(_, l, r) =>
      if path[0] == '0' && LeadsTo(l, path[1..], c) {
        PathEndsAtLeafChar(l, path[1..], c);
      } else {
        PathEndsAtLeafChar(r, path[1..], c);
      }
  }

  /**
   Prefix freedom of tree paths: a path that reaches a leaf cannot be
   extended to reach another leaf, so a path that starts with a leaf's path
   is that same path to that same symbol.
   */
  lemma {:induction false} NoPathExtendsAnother(n: Node, p: seq<char>, s: seq<char>, a: char, b: char)
    requires LeadsTo(n, p, a) && LeadsTo(n, p + s, b)
    ensures s == [] && a == b
    decreases n
  {
    match n
    case Leaf(_, _) =>
    case Internal(_, l, r) =>
      assert (p + s)[0] == p[0];
      assert (p + s)[1..] == p[1..] + s;
      if p[0] == '0' {
        NoPathExtendsAnother(l, p[1..], s, a, b);
      } else {
        NoPathExtendsAnother(r, p[1..], s, a, b);
      }
  }

  /** The leaf characters are exactly the characters of the leaf bag. */
  lemma {:induction false} LeafCharsOfBag(n: Node)
    ensures forall x :: x in LeafBag(n) ==> x.Leaf? && x.ch in LeafChars(n)
    ensures forall c :: c in LeafChars(n) ==> exists x :: x in LeafBag(n) && x.Leaf? && x.ch == c
    decreases n
  {
    match n
    case Leaf(_, _) =>
    case Internal(_, l, r) =>
      LeafCharsOfBag(l);
      LeafCharsOfBag(r);
  }
}
