/**
 The public codec of class `HuffmanTree`: `encodeData`, which rebuilds the
 tree and code table from its input and writes every code followed by the
 delimiter, and `decodeData`, which splits its input at every delimiter and
 walks the current tree once per piece.
 */
module Codec {
  import opened Wrappers
  import opened Nodes
  import opened Forests
  import opened Counting
  import opened CodeMaps

  /** `DELIM` of Huffman.h: a space, which is neither '0' nor '1'. */
  const DELIM: char := ' '

  /**
   `HuffmanTree::encode(char)`: the code stored for `key`. For a key that
   is not in the table, `std::map::operator[]` yields the empty string.
   */
  function Lookup(m: map<char, seq<char>>, key: char): (code: seq<char>)
    ensures key in m ==> code == m[key]
    ensures key !in m ==> code == []
  {
    if key in m then m[key] else []
  }

  /**
   The text the output loop of `encodeData` writes: each piece followed by
   the delimiter, in order. No pieces give the empty text; otherwise the
   text ends in a delimiter.
   */
  function Join(pieces: seq<seq<char>>): (r: seq<char>)
    ensures |pieces| == 0 ==> r == []
    ensures |pieces| > 0 ==> |r| > 0 && r[|r| - 1] == DELIM
    decreases |pieces|
  {
    if |pieces| == 0 then [] else pieces[0] + [DELIM] + Join(pieces[1..])
  }

  /** The code of every character of `data`, in input order. */
  function Codes(m: map<char, seq<char>>, data: seq<char>): (r: seq<seq<char>>)
    ensures |r| == |data|
    ensures forall k :: 0 <= k < |data| ==> r[k] == Lookup(m, data[k])
  {
    seq(|data|, k requires 0 <= k < |data| => Lookup(m, data[k]))
  }

  /** Index of the first delimiter of `s`, or `|s|` when there is none. */
  function DelimIndex(s: seq<char>): (k: nat)
    ensures k <= |s|
    ensures forall j :: 0 <= j < k ==> s[j] != DELIM
    ensures k < |s| ==> s[k] == DELIM
    decreases |s|
  {
    if |s| == 0 then 0
    else if s[0] == DELIM then 0
    else 1 + DelimIndex(s[1..])
  }

  /**
   The pieces the loop of `decodeData` decodes: every delimiter ends a
   piece, empty pieces included, and a last piece not followed by a
   delimiter is decoded as well. No piece holds a delimiter, and only the
   empty text has no pieces.
   */
  function Tokens(s: seq<char>): (r: seq<seq<char>>)
    ensures forall i :: 0 <= i < |r| ==> DELIM !in r[i]
    ensures |r| == 0 <==> |s| == 0
    decreases |s|
  {
    if |s| == 0 then []
    else
      var k := DelimIndex(s);
      if k == |s| then [s] else [s[..k]] + Tokens(s[k + 1..])
  }

  /**
   Splitting is inverse to joining: joining the pieces of `s` gives back
   `s`, with a delimiter added only when `s` does not already end in one.
   */
  lemma {:induction false} JoinTokens(s: seq<char>)
    ensures Join(Tokens(s)) == if |s| == 0 || s[|s| - 1] == DELIM then s else s + [DELIM]
    decreases |s|
  {
    if |s| > 0 {
      var k := DelimIndex(s);
      if k == |s| {
        assert s[|s| - 1] != DELIM;
        assert Tokens(s) == [s];
        assert Join([s]) == s + [DELIM] + Join([]);
      } else {
        JoinAfterDelim(s, k);
      }
    }
  }

  /** The step of `JoinTokens` past the first delimiter, at index `k`. */
  lemma {:induction false} JoinAfterDelim(s: seq<char>, k: nat)
    requires k < |s| && k == DelimIndex(s)
    ensures Join(Tokens(s)) == if s[|s| - 1] == DELIM then s else s + [DELIM]
    decreases |s|, 0
  {
    var head, rest := s[..k], s[k + 1..];
    assert s == head + [DELIM] + rest;
    assert ([head] + Tokens(rest))[1..] == Tokens(rest);
    JoinTokens(rest);
    if |rest| > 0 {
      assert s[|s| - 1] == rest[|rest| - 1];
    }
  }

  /** The first delimiter of `p + [DELIM] + rest` when `p` has none. */
  lemma CutAtDelim(p: seq<char>, rest: seq<char>)
    requires DELIM !in p
    ensures var s := p + [DELIM] + rest;
      DelimIndex(s) == |p| && s[..|p|] == p && s[|p| + 1..] == rest
  {
    var s := p + [DELIM] + rest;
    assert s[|p|] == DELIM;
    assert forall j :: 0 <= j < |p| ==> s[j] == p[j];
  }

  /** Joining delimiter-free pieces and splitting again gives the pieces. */
  lemma {:induction false} TokensJoin(pieces: seq<seq<char>>)
    requires forall i :: 0 <= i < |pieces| ==> DELIM !in pieces[i]
    ensures Tokens(Join(pieces)) == pieces
    decreases |pieces|
  {
    if |pieces| > 0 {
      var p, tail := pieces[0], pieces[1..];
      CutAtDelim(p, Join(tail));
      TokensJoin(tail);
      assert pieces == [p] + tail;
    }
  }

  /** The number of delimiters in a join of delimiter-free pieces. */
  lemma {:induction false} JoinDelims(pieces: seq<seq<char>>)
    requires forall i :: 0 <= i < |pieces| ==> DELIM !in pieces[i]
    ensures multiset(Join(pieces))[DELIM] == |pieces|
    decreases |pieces|
  {
    if |pieces| > 0 {
      JoinDelims(pieces[1..]);
      assert multiset(Join(pieces)) == multiset(pieces[0]) + multiset{DELIM} + multiset(Join(pieces[1..]));
    }
  }

  /**
   Where the walk of `decode(Node*, string)` is defined: it never reaches an
   internal node with all bits consumed, where the source erases the first
   character of an empty string.
   */
  predicate WalkDefined(n: Node, code: seq<char>)
    decreases n
  {
    match n
    case Leaf(_, _) => true
    case Internal(_, l, r) =>
      && |code| > 0
      && (code[0] == '0' ==> WalkDefined(l, code[1..]))
      && (code[0] == '1' ==> WalkDefined(r, code[1..]))
  }

  /** What one walk of the source does: undefined behaviour, or return a result. */
  datatype WalkOutcome = Undefined | Decoded(sym: Option<char>)

  /**
   `HuffmanTree::decode(Node*, string)` as written. A leaf with no bits left
   returns its symbol; otherwise the first bit is taken and erased, '0' and
   '1' step to the left and right child, a null child and any other bit give
   '\0' (`None`). An internal node reached with no bits left erases from an
   empty string, which is `Undefined`. Wherever the source is defined, it
   agrees with the corrected walk `DecodeWalk`.
   */
  function DecodeWalkAsWritten(n: Node, code: seq<char>): (r: WalkOutcome)
    ensures r.Undefined? <==> !WalkDefined(n, code)
    ensures r.Decoded? ==> r.sym == DecodeWalk(n, code)
    decreases n
  {
    match n
    case Leaf(ch, _) => if |code| == 0 then Decoded(Some(ch)) else Decoded(None)
    case Internal(_, l, r) =>
      if |code| == 0 then Undefined
      else if code[0] == '0' then DecodeWalkAsWritten(l, code[1..])
      else if code[0] == '1' then DecodeWalkAsWritten(r, code[1..])
      else Decoded(None)
  }

  /**
   The walk of `decode(Node*, string)` with its undefined case corrected to
   the failure value: '0' goes left, '1' goes right; the symbol of the leaf
   reached exactly when the bits run out, and `None` (the source's '\0') in
   every other case. The result is a symbol exactly when the code is the
   path to a leaf with that symbol.
   */
  function DecodeWalk(n: Node, code: seq<char>): (r: Option<char>)
    ensures r.Some? ==> LeadsTo(n, code, r.value)
    ensures forall c :: LeadsTo(n, code, c) ==> r == Some(c)
    decreases n
  {
    match n
    case Leaf(ch, _) => if |code| == 0 then Some(ch) else None
    case Internal(_, l, r) =>
      if |code| == 0 then None
      else if code[0] == '0' then DecodeWalk(l, code[1..])
      else if code[0] == '1' then DecodeWalk(r, code[1..])
      else None
  }

  /** A path to a leaf followed by anything is a walk without undefined steps. */
  lemma {:induction false} PathDefined(n: Node, p: seq<char>, s: seq<char>, c: char)
    requires LeadsTo(n, p, c)
    ensures WalkDefined(n, p + s)
    decreases n
  {
    match n
    case Leaf(_, _) =>
    case Internal(_, l, r) =>
      assert (p + s)[0] == p[0];
      assert (p + s)[1..] == p[1..] + s;
      if p[0] == '0' {
        PathDefined(l, p[1..], s, c);
      } else {
        PathDefined(r, p[1..], s, c);
      }
  }

  /**
   The failures of the walk: a character other than '0' and '1' anywhere in
   the code gives `None`; so do bits left over after a leaf has been
   reached, and a code that stops short of a leaf.
   */
  lemma DecodeWalkFailures(n: Node, code: seq<char>, k: nat, p: seq<char>, s: seq<char>, c: char)
    ensures k < |code| && code[k] != '0' && code[k] != '1' ==> DecodeWalk(n, code) == None
    ensures LeadsTo(n, p, c) && |s| > 0 ==> DecodeWalk(n, p + s) == None
    ensures LeadsTo(n, p + s, c) && |s| > 0 ==> DecodeWalk(n, p) == None
  {
    if k < |code| && code[k] != '0' && code[k] != '1' {
      var r := DecodeWalk(n, code);
      if r.Some? {
        PathIsBits(n, code, r.value);
      }
    }
    if LeadsTo(n, p, c) && |s| > 0 {
      var r := DecodeWalk(n, p + s);
      if r.Some? {
        NoPathExtendsAnother(n, p, s, c, r.value);
      }
    }
    if LeadsTo(n, p + s, c) && |s| > 0 {
      var r := DecodeWalk(n, p);
      if r.Some? {
        NoPathExtendsAnother(n, p, s, r.value, c);
      }
    }
  }

  /**
   `HuffmanTree::decode(string)`: before `heapify` has run, or with no root,
   nothing is decoded; otherwise the result is the symbol whose leaf the code
   leads to from the root.
   */
  function Decode(t: HuffmanTree, code: seq<char>): (r: Option<char>)
    ensures !t.isHeap || |t.forest| == 0 ==> r == None
    ensures t.isHeap && |t.forest| > 0 ==> forall c :: r == Some(c) <==> LeadsTo(t.forest[0], code, c)
  {
    if t.isHeap && |t.forest| > 0 then DecodeWalk(t.forest[0], code) else None
  }

  /**
   `HuffmanTree::encodeData`: clear, count every character, build the tree
   and code table, then write each character's code followed by `DELIM`.
   Returns the text and the object's new state.
   */
  function EncodeData(t: HuffmanTree, data: seq<char>): (r: (seq<char>, HuffmanTree))
    ensures r.1.isHeap && |r.1.forest| <= 1
    ensures |data| == 0 ==> r.0 == [] && r.1.forest == [] && r.1.codeMap == map[]
  {
    var built := GenerateCodeMap(CountAll(Clear(t), data));
    (Join(Codes(built.codeMap, data)), built)
  }

  /**
   `HuffmanTree::decodeData`: one output character per piece of `data`,
   the decoded symbol or '\0' where decoding fails.
   */
  function DecodeData(t: HuffmanTree, data: seq<char>): (r: seq<char>)
    ensures |r| == |Tokens(data)|
    ensures forall k :: 0 <= k < |r| && r[k] != '\0' ==> Decode(t, Tokens(data)[k]) == Some(r[k])
    ensures forall k :: 0 <= k < |r| && Decode(t, Tokens(data)[k]) == None ==> r[k] == '\0'
    ensures forall k, c :: 0 <= k < |r| && Decode(t, Tokens(data)[k]) == Some(c) ==> r[k] == c
  {
    var pieces := Tokens(data);
    seq(|pieces|, k requires 0 <= k < |pieces| =>
      match Decode(t, pieces[k])
      case Some(c) => c
      case None => '\0')
  }
}
