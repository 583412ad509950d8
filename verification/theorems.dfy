/**
 End-to-end properties of `HuffmanTree::encodeData` and
 `HuffmanTree::decodeData`: the tree that encoding builds, the shape of the
 encoded text, and the round trip.
 */
module Theorems {
  import opened Wrappers
  import opened Nodes
  import opened Forests
  import opened Counting
  import opened CodeMaps
  import opened Codec

  /** A forest of leaves holds exactly its roots as leaves. */
  lemma {:induction false} LeafForestBag(f: seq<Node>)
    requires forall i :: 0 <= i < |f| ==> f[i].Leaf?
    ensures ForestBag(f) == multiset(f)
    decreases |f|
  {
    if |f| > 0 {
      LeafForestBag(f[1..]);
      assert f == [f[0]] + f[1..];
    }
  }

  /** Pairwise distinct entries each occur once. */
  lemma {:induction false} DistinctOnce(f: seq<Node>)
    requires forall i, j :: 0 <= i < j < |f| ==> f[i] != f[j]
    ensures forall x :: x in multiset(f) ==> multiset(f)[x] == 1
    decreases |f|
  {
    if |f| > 0 {
      DistinctOnce(f[1..]);
      assert f == [f[0]] + f[1..];
      assert f[0] !in f[1..];
    }
  }

  /** A forest of leaves with distinct symbols has no entry twice. */
  lemma DistinctLeaves(f: seq<Node>)
    requires forall i :: 0 <= i < |f| ==> f[i].Leaf?
    requires forall i, j :: 0 <= i < j < |f| ==> f[i].GetChar() != f[j].GetChar()
    ensures forall x :: x in multiset(f) ==> multiset(f)[x] == 1
  {
    forall i, j | 0 <= i < j < |f|
      ensures f[i] != f[j]
    {
      assert f[i].GetChar() != f[j].GetChar();
    }
    DistinctOnce(f);
  }

  /** The facts of `CountsOf`, restated over the forest as a bag. */
  lemma CountsBag(f: seq<Node>, data: seq<char>)
    requires CountsOf(f, data)
    ensures forall x :: x in multiset(f) ==>
      x.Leaf? && x.ch in data && x.freq == multiset(data)[x.ch] && multiset(f)[x] == 1
    ensures forall c :: c in data ==> Leaf(c, multiset(data)[c]) in multiset(f)
  {
    DistinctLeaves(f);
    forall x | x in multiset(f)
      ensures x.Leaf? && x.ch in data && x.freq == multiset(data)[x.ch]
    {
      var i :| 0 <= i < |f| && f[i] == x;
    }
    forall c | c in data
      ensures Leaf(c, multiset(data)[c]) in multiset(f)
    {
      var k :| 0 <= k < |data| && data[k] == c;
      var i :| 0 <= i < |f| && f[i].GetChar() == data[k];
      assert f[i] == Leaf(c, multiset(data)[c]);
    }
  }

  /** A forest of leaves is well weighted and is its own bag of leaves. */
  lemma LeafForestShape(f: seq<Node>, data: seq<char>)
    requires CountsOf(f, data)
    ensures AllWellWeighted(f)
    ensures ForestBag(f) == multiset(f)
  {
    LeafForestBag(f);
    forall x | x in f
      ensures WellWeighted(x)
    {
      var i :| 0 <= i < |f| && f[i] == x;
    }
  }

  /** Counting builds a forest of well-weighted leaves weighing `|data|`. */
  lemma CountedShape(data: seq<char>)
    ensures var f := CountAll(Init(), data).forest;
      && AllWellWeighted(f)
      && ForestBag(f) == multiset(f)
      && ForestWeight(f) == |data|
  {
    CountingForest(data);
    CountingWeight(data);
    LeafForestShape(CountAll(Init(), data).forest, data);
  }

  /**
   The forest that counting `data` builds, as a bag: one leaf per distinct
   character of `data`, carrying its number of occurrences, each once.
   */
  lemma CountedBag(data: seq<char>)
    ensures var f := CountAll(Init(), data).forest;
      && (forall x :: x in multiset(f) ==>
            x.Leaf? && x.ch in data && x.freq == multiset(data)[x.ch] && multiset(f)[x] == 1)
      && (forall c :: c in data ==> Leaf(c, multiset(data)[c]) in multiset(f))
  {
    CountingForest(data);
    CountsBag(CountAll(Init(), data).forest, data);
  }

  /** The state `encodeData` leaves behind, in terms of the counted forest. */
  lemma BuiltFromCounting(t: HuffmanTree, data: seq<char>)
    ensures var counted := CountAll(Init(), data);
      var built := EncodeData(t, data).1;
      && built.forest == Heapify(counted).forest
      && (|built.forest| == 1 ==> built.codeMap == CodeWalk(built.forest[0], [], map[]))
  {
  }

  /**
   On non-empty data, `encodeData` leaves one root that holds the counted
   leaves, weighs the length of the data, is well weighted, and whose walk
   gives the code table.
   */
  lemma BuiltRoot(t: HuffmanTree, data: seq<char>)
    requires |data| > 0
    ensures var built := EncodeData(t, data).1;
      && |built.forest| == 1
      && LeafBag(built.forest[0]) == multiset(CountAll(Init(), data).forest)
      && built.forest[0].freq == |data|
      && WellWeighted(built.forest[0])
      && built.codeMap == CodeWalk(built.forest[0], [], map[])
  {
    var counted := CountAll(Init(), data);
    CountedShape(data);
    BuiltFromCounting(t, data);
    assert counted.forest != [];
    HeapifyRoot(counted);
  }

  /** The code table `encodeData` leaves has exactly the characters of the data as keys. */
  lemma BuiltKeys(t: HuffmanTree, data: seq<char>)
    ensures forall c :: c in EncodeData(t, data).1.codeMap <==> c in data
  {
    var built := EncodeData(t, data).1;
    if |data| > 0 {
      BuiltRoot(t, data);
      CountedBag(data);
      KeysOfRoot(built.forest[0], multiset(CountAll(Init(), data).forest), data);
    }
  }

  /**
   The keys of a fresh walk from a root whose leaves are the counted leaves
   of `data` are the characters of `data`.
   */
  lemma KeysOfRoot(root: Node, bag: multiset<Node>, data: seq<char>)
    requires LeafBag(root) == bag
    requires forall x :: x in bag ==> x.Leaf? && x.ch in data
    requires forall c :: c in data ==> Leaf(c, multiset(data)[c]) in bag
    ensures forall c :: c in CodeWalk(root, [], map[]) <==> c in data
  {
    LeafCharsOfBag(root);
    CodeTable(root);
    forall c | c in LeafChars(root)
      ensures c in data
    {
      var x :| x in LeafBag(root) && x.Leaf? && x.ch == c;
    }
  }

  /**
   The tree `encodeData` builds from non-empty data: a single root whose
   frequency is the length of the data; every internal node weighs the sum
   of its children; its leaves correspond one-to-one with the distinct
   characters of the data, each carrying its number of occurrences; and the
   code table has exactly those characters as keys.
   */
  lemma BuiltTree(t: HuffmanTree, data: seq<char>)
    requires |data| > 0
    ensures var built := EncodeData(t, data).1;
      && |built.forest| == 1
      && built.forest[0].freq == |data|
      && WellWeighted(built.forest[0])
      && (forall x :: x in LeafBag(built.forest[0]) ==>
            && x.Leaf? && x.ch in data && x.freq == multiset(data)[x.ch]
            && LeafBag(built.forest[0])[x] == 1)
      && (forall c :: c in data ==> Leaf(c, multiset(data)[c]) in LeafBag(built.forest[0]))
      && (forall c :: c in built.codeMap <==> c in data)
  {
    BuiltRoot(t, data);
    CountedBag(data);
    BuiltKeys(t, data);
  }

  /**
   Decoding the codes of a walk from `root`, joined with delimiters, on a
   frozen state whose single root is `root`, gives back the characters.
   */
  lemma DecodeCodes(built: HuffmanTree, root: Node, data: seq<char>, text: seq<char>)
    requires built.isHeap && built.forest == [root]
    requires built.codeMap == CodeWalk(root, [], map[])
    requires forall c :: c in data ==> c in built.codeMap
    requires text == Join(Codes(built.codeMap, data))
    ensures DecodeData(built, text) == data
  {
    var m := built.codeMap;
    CodeTable(root);
    var codes := Codes(m, data);
    forall k | 0 <= k < |codes|
      ensures codes[k] == m[data[k]] && LeadsTo(root, codes[k], data[k]) && DELIM !in codes[k]
    {
      assert data[k] in data;
    }
    TokensJoin(codes);
    forall k | 0 <= k < |codes|
      ensures Decode(built, codes[k]) == Some(data[k])
    {
    }
  }

  /** The round trip on non-empty data. */
  lemma RoundTripNonEmpty(t: HuffmanTree, data: seq<char>)
    requires |data| > 0
    ensures DecodeData(EncodeData(t, data).1, EncodeData(t, data).0) == data
  {
    var built := EncodeData(t, data).1;
    BuiltRoot(t, data);
    BuiltKeys(t, data);
    DecodeCodes(built, built.forest[0], data, EncodeData(t, data).0);
  }

  /**
   `decodeData(encodeData(s)) == s` for every `s`, on the state that
   `encodeData` leaves behind, whatever the state before it.
   */
  lemma RoundTrip(t: HuffmanTree, data: seq<char>)
    ensures var (text, built) := EncodeData(t, data);
      DecodeData(built, text) == data
  {
    if |data| == 0 {
      assert Tokens([]) == [];
    } else {
      RoundTripNonEmpty(t, data);
    }
  }

  /** No code of a walk from a root holds the delimiter. */
  lemma CodesDelimFree(root: Node, data: seq<char>)
    ensures var codes := Codes(CodeWalk(root, [], map[]), data);
      forall k :: 0 <= k < |codes| ==> DELIM !in codes[k]
  {
    var m := CodeWalk(root, [], map[]);
    CodeTable(root);
    var codes := Codes(m, data);
    forall k | 0 <= k < |codes|
      ensures DELIM !in codes[k]
    {
      if data[k] in m {
        assert forall i :: 0 <= i < |m[data[k]]| ==> m[data[k]][i] != DELIM;
      }
    }
  }

  /** The join of delimiter-free pieces, read back. */
  lemma JoinShape(pieces: seq<seq<char>>)
    requires forall k :: 0 <= k < |pieces| ==> DELIM !in pieces[k]
    ensures Tokens(Join(pieces)) == pieces
    ensures multiset(Join(pieces))[DELIM] == |pieces|
    ensures |pieces| > 0 ==> |Join(pieces)| > 0 && Join(pieces)[|Join(pieces)| - 1] == DELIM
  {
    TokensJoin(pieces);
    JoinDelims(pieces);
    JoinTokens(Join(pieces));
    if |pieces| > 0 {
      assert |Join(pieces)| > 0;
    }
  }

  /** `encodeData` clears the object first, so the state before it does not matter. */
  lemma EncodeIgnoresState(t: HuffmanTree, data: seq<char>)
    ensures EncodeData(t, data) == EncodeData(Init(), data)
  {
    assert Clear(t) == Clear(Init());
  }

  /**
   The text `encodeData` writes is the join of the codes of the input
   characters, none of which holds the delimiter.
   */
  lemma EncodedPieces(t: HuffmanTree, data: seq<char>)
    ensures var codes := Codes(EncodeData(t, data).1.codeMap, data);
      && EncodeData(t, data).0 == Join(codes)
      && forall k :: 0 <= k < |codes| ==> DELIM !in codes[k]
  {
    if |data| > 0 {
      BuiltRoot(t, data);
      CodesDelimFree(EncodeData(t, data).1.forest[0], data);
    }
  }

  /**
   The text `encodeData` writes: the codes of the input characters, in
   input order, each followed by the delimiter; so it holds exactly one
   delimiter per input character, ends in a delimiter unless empty, and
   depends only on the data, not on the state before the call.
   */
  lemma EncodedText(t: HuffmanTree, data: seq<char>)
    ensures var (text, built) := EncodeData(t, data);
      && Tokens(text) == Codes(built.codeMap, data)
      && multiset(text)[DELIM] == |data|
      && (|data| > 0 ==> text[|text| - 1] == DELIM)
      && EncodeData(t, data) == EncodeData(Init(), data)
  {
    EncodedPieces(t, data);
    JoinShape(Codes(EncodeData(t, data).1.codeMap, data));
    EncodeIgnoresState(t, data);
  }

  /** Joining empty pieces gives one delimiter per piece. */
  lemma {:induction false} JoinOfEmpties(pieces: seq<seq<char>>)
    requires forall i :: 0 <= i < |pieces| ==> pieces[i] == []
    ensures Join(pieces) == seq(|pieces|, _ => DELIM)
    decreases |pieces|
  {
    if |pieces| > 0 {
      JoinOfEmpties(pieces[1..]);
    }
  }

  /**
   With a single distinct character the lone leaf is the root, its code is
   the empty string, and every occurrence is written as a bare delimiter;
   the round trip still holds because each delimiter ends an empty piece
   that decodes to the root leaf.
   */
  lemma SingleSymbol(t: HuffmanTree, data: seq<char>, c: char)
    requires |data| > 0 && forall k :: 0 <= k < |data| ==> data[k] == c
    ensures var (text, built) := EncodeData(t, data);
      && built.forest == [Leaf(c, |data|)]
      && built.codeMap == map[c := []]
      && text == seq(|data|, _ => DELIM)
  {
    var built := EncodeData(t, data).1;
    CountedSingle(data, c);
    BuiltFromCounting(t, data);
    EncodedPieces(t, data);
    JoinOfEmpties(Codes(built.codeMap, data));
  }

  /** Counting a run of one character gives one leaf carrying the run's length. */
  lemma CountedSingle(data: seq<char>, c: char)
    requires |data| > 0 && forall k :: 0 <= k < |data| ==> data[k] == c
    ensures CountAll(Init(), data).forest == [Leaf(c, |data|)]
  {
  }

  /**
   On every piece of the text `encodeData` writes, the walk of the source is
   defined and returns the input character: the undefined step of
   `decode(Node*, string)` is never reached by a round trip.
   */
  lemma EncodedWalksDefined(t: HuffmanTree, data: seq<char>)
    requires |data| > 0
    ensures var (text, built) := EncodeData(t, data);
      && |Tokens(text)| == |data|
      && forall k :: 0 <= k < |data| ==>
           DecodeWalkAsWritten(built.forest[0], Tokens(text)[k]) == Decoded(Some(data[k]))
  {
    var (text, built) := EncodeData(t, data);
    BuiltRoot(t, data);
    BuiltKeys(t, data);
    EncodedText(t, data);
    var root := built.forest[0];
    CodeTable(root);
    forall k | 0 <= k < |data|
      ensures DecodeWalkAsWritten(root, Tokens(text)[k]) == Decoded(Some(data[k]))
    {
      var code := Tokens(text)[k];
      assert data[k] in data;
      assert code == built.codeMap[data[k]];
      PathDefined(root, code, [], data[k]);
      assert code + [] == code;
    }
  }

  /**
   Once `encodeData` has seen two distinct characters, the root is an
   internal node, and an empty piece, such as the one a lone delimiter
   makes, walks the source into erasing from an empty string. The
   corrected walk fails instead, and `decodeData` writes '\0'.
   */
  lemma EmptyPieceUndefined(t: HuffmanTree, data: seq<char>, a: char, b: char)
    requires a in data && b in data && a != b
    ensures var built := EncodeData(t, data).1;
      && |built.forest| == 1
      && built.forest[0].Internal?
      && Tokens([DELIM]) == [[]]
      && DecodeWalkAsWritten(built.forest[0], []) == Undefined
      && DecodeData(built, [DELIM]) == ['\0']
  {
    var built := EncodeData(t, data).1;
    BuiltRoot(t, data);
    BuiltKeys(t, data);
    CodeTable(built.forest[0]);
    assert a in LeafChars(built.forest[0]) && b in LeafChars(built.forest[0]);
    assert Tokens([DELIM]) == [[]] + Tokens([]);
  }
}
