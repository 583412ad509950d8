# Huffman coding engine of `HuffmanTree`

This project models the core of the C++ class `HuffmanTree` (Huffman.h,
Huffman.cpp) and its tree node class `Node`. `encodeData` counts the
characters of a string and merges a forest of leaves into one Huffman tree.
It then derives a prefix code table by walking the tree and writes each
input character's code, followed by the delimiter `DELIM` (a space).
`decodeData` splits a text at every delimiter and walks the current tree
once per piece.

The model is written in Dafny and is purely functional:

- The object's state `(isHeap, codeMap, forest)` is the value
  `Forests.HuffmanTree`. Every member function that mutates the object
  becomes a function from the old state to the new one.
- Pointers that may be null are `Option<Node>`.
- A node is `Leaf(ch, freq)` or `Internal(freq, left, right)`. The source
  builds internal nodes with the character 0 and a leaf as a node without
  children. `GetChar` returns '\0' for an internal node, as `Node::getChar`
  does.
- A decoding failure, where the source writes the character 0, is `None`
  in `Codec.Decode` and '\0' in the output of `Codec.DecodeData`.

Modules, in dependency order:

- `Wrappers` and `Nodes` (node.dfy): nodes, `merge`, and paths from a root
  to a leaf.
- `Forests` (forest.dfy): the state, `clear`, both `add` overloads,
  `popMin`, and the merge loop `heapify`.
- `Counting` (counting.dfy): the counting loop of `encodeData`.
- `CodeMaps` (codemap.dfy): `generateCodeMap` and the recursive
  `encode(Node*, string)`.
- `Codec` (codec.dfy): `encode(char)`, `decode(string)`,
  `decode(Node*, string)`, `encodeData` and `decodeData`.
- `Theorems` (theorems.dfy): end-to-end properties, including the round
  trip `decodeData(encodeData(s)) == s`.

The model follows the code in three behaviours that are easy to get wrong
when reading only the interface:

- The only character of a single-symbol input gets the empty code, not
  "0". Its encoded text is one delimiter per occurrence, and the round trip
  still holds (`Theorems.SingleSymbol`, `Theorems.RoundTrip`).
- A failed decode writes a 0 character into the output instead of
  reporting an error.
- `encode(char)` on a key that is not in the table yields the empty string.

## Model

| member | source | states |
|---|---|---|
| Nodes.SetFreq | Huffman.cpp:51-53 | replaces only the frequency; the symbol, leaf status and children are unchanged |
| Nodes.NewLeaf | Huffman.cpp:3-8 | a node built from a symbol and frequency with the default null children is a leaf carrying exactly that symbol and frequency |
| Nodes.Merge | Huffman.cpp:216-221 | the result is non-null exactly when both operands are; its left child is the first operand and its right child the second; it weighs their sum and holds both operands' leaves; it is well weighted exactly when both operands are |
| Nodes.PathIsBits | Huffman.cpp:154-164 | every path from a root to a leaf is a string over '0' and '1' |
| Nodes.PathEndsAtLeafChar | Huffman.cpp:154-164 | a path only ever reaches a symbol that some leaf of the tree carries |
| Nodes.NoPathExtendsAnother | Huffman.cpp:154-164 | tree paths are prefix-free: a path that extends another leaf's path is that same path, to that same symbol |
| Forests.Init | Huffman.cpp:67-69 | a new object is not frozen and has no roots and no codes |
| Forests.Clear | Huffman.cpp:75-86 | from any state, the result has no roots, no codes and is not frozen |
| Forests.Remove | Huffman.cpp:235 | erasing one entry shortens the forest by one |
| Forests.RemoveContents | Huffman.cpp:235 | the erased entry and the remaining entries together are the old forest as a multiset, and nothing new appears |
| Forests.FindRoot | Huffman.cpp:185-193 | the scan stops at the first root carrying the character, or past the end when no root carries it |
| Forests.Add | Huffman.cpp:182-198 | a frozen object is unchanged; otherwise the first root carrying the character gains the frequency and keeps its symbol, kind and children, and every other root is unchanged, or a new leaf is appended when no root carries the character |
| Forests.AddNode | Huffman.cpp:200-203 | appends a non-null node at the end unless the object is frozen; otherwise nothing changes |
| Forests.AddWeight | Huffman.cpp:182-198 | adding a character with a frequency before freezing raises the forest's total weight by exactly that frequency |
| Forests.MinScan | Huffman.cpp:227-232 | the scan with strict `>` ends at an entry of minimal frequency that is lighter than every entry before it, so the leftmost minimum wins a tie |
| Forests.MinIndex | Huffman.cpp:224-232 | the index the scan picks on a non-empty forest is the leftmost entry of minimal frequency |
| Forests.PopMin | Huffman.cpp:223-237 | an empty forest gives null and is unchanged; a non-empty one loses exactly one entry, which is returned: the rest plus the returned entry is the old forest as a multiset |
| Forests.PopMinSpec | Huffman.cpp:223-237 | the returned entry is a leftmost minimum; the rest keeps its order, and the rest plus the returned entry is the old forest as a multiset |
| Forests.MergeStep | Huffman.cpp:206-212 | one loop iteration shortens an unfrozen forest by one and a frozen one by two; the frozen flag and the code table stay as they were |
| Forests.MergeStepShape | Huffman.cpp:206-212 | the appended node is internal and weighs the sum of its children; its right child is the first minimum and its left child the second; neither child is heavier than any remaining root; the two children plus the remaining roots are the old forest as a multiset |
| Forests.MergeOrder | Huffman.cpp:206-210 | a second minimum is never lighter than the first and never heavier than any remaining root, and the two with the rest make up the forest |
| Forests.MergeStepForest | Huffman.cpp:206-212 | the forest after one iteration is the forest without the two extracted minima, with their merge appended last |
| Forests.MergeKeepsWeight | Huffman.cpp:206-212 | taking out two entries and appending their merge keeps the total weight |
| Forests.MergeKeepsBag | Huffman.cpp:206-212 | taking out two entries and appending their merge keeps the bag of leaves |
| Forests.MergeStepConserves | Huffman.cpp:206-212 | one iteration keeps the forest's total weight and its bag of leaves |
| Forests.MergeStepWellWeighted | Huffman.cpp:206-212 | one iteration keeps every root well weighted (each internal node weighs the sum of its children) |
| Forests.Heapify | Huffman.cpp:205-214 | afterwards the object is frozen with at most one root and an unchanged code table; a non-empty unfrozen forest ends with exactly one root; a forest with at most one root is left as it is |
| Forests.HeapifyConserves | Huffman.cpp:205-214 | the merge loop keeps the total weight and the bag of leaves, and keeps every root well weighted |
| Forests.HeapifyRoot | Huffman.cpp:205-214 | a non-empty unfrozen forest of well-weighted trees becomes one well-weighted root that holds every leaf of the forest and weighs the whole forest |
| Counting.CountAll | Huffman.cpp:92-93 | counting never changes the frozen flag or the code table, and does nothing to a frozen object |
| Counting.CountingForest | Huffman.cpp:89-93 | counting from a cleared object gives one leaf per distinct character, carrying its number of occurrences, with no character twice, in order of first occurrence |
| Counting.CountingWeight | Huffman.cpp:89-93 | the counted forest weighs exactly the length of the input |
| CodeMaps.CodeWalk | Huffman.cpp:154-164 | the walk adds exactly the tree's leaf symbols as keys and leaves every other key untouched |
| CodeMaps.CodeWalkPaths | Huffman.cpp:154-164 | every symbol recorded by a walk with an accumulated prefix gets that prefix followed by the path to one of its leaves |
| CodeMaps.GenerateCodeMap | Huffman.cpp:148-152 | the object ends frozen with the merged forest, and the walk of its root adds exactly the root's leaf symbols to the table |
| CodeMaps.CodePaths | Huffman.cpp:148-164 | every code of a fresh walk from a root is the path from that root to a leaf carrying the code's symbol |
| CodeMaps.CodePrefixFree | Huffman.cpp:148-164 | no code of a fresh walk is a prefix of another symbol's code |
| CodeMaps.CodeTable | Huffman.cpp:148-164 | the keys are exactly the leaf symbols; every code is a string over '0' and '1' that leads to its symbol; the table is prefix-free; a root that is itself a leaf gets the empty code |
| Codec.Lookup | Huffman.cpp:118-120 | a key in the table gives its stored code, and any other key the empty string |
| Codec.Codes | Huffman.cpp:96-97 | one code per input character, in input order |
| Codec.DelimIndex | Huffman.cpp:108-111 | the inner loop stops at the first delimiter, or at the end when there is none |
| Codec.Tokens | Huffman.cpp:105-111 | no piece that `decodeData` decodes contains the delimiter, and only the empty text yields no pieces |
| Codec.Join | Huffman.cpp:96-97 | the written text is empty for no characters and otherwise ends in a delimiter |
| Codec.JoinTokens | Huffman.cpp:102-116 | writing the pieces back, each followed by the delimiter, restores the text, plus one delimiter when the text did not already end in one |
| Codec.TokensJoin | Huffman.cpp:96-116 | splitting a text written as delimiter-free pieces, each followed by the delimiter, gives exactly those pieces |
| Codec.JoinDelims | Huffman.cpp:96-97 | such a text holds one delimiter per piece |
| Codec.DecodeWalkAsWritten | Huffman.cpp:130-147 | the source walk has undefined behaviour exactly when it reaches an internal node with no bits left; wherever it is defined it returns what the corrected walk returns |
| Codec.DecodeWalk | Huffman.cpp:130-147 | the walk returns a symbol only when the code is the path to a leaf with that symbol, and always does so when it is |
| Codec.PathDefined | Huffman.cpp:133-139 | a path to a leaf, followed by anything, never reaches the undefined step of the source walk |
| Codec.DecodeWalkFailures | Huffman.cpp:138-144 | any character other than '0' and '1' makes the walk fail, and so do bits left over at a leaf and a code that stops short of a leaf |
| Codec.Decode | Huffman.cpp:122-128 | nothing is decoded before freezing or without a root; otherwise the result is a symbol exactly when the code leads from the root to that symbol's leaf |
| Codec.EncodeData | Huffman.cpp:88-100 | the object ends frozen with at most one root; empty input gives empty text, no roots and an empty table |
| Codec.DecodeData | Huffman.cpp:102-116 | one output character per piece; a piece that decodes to a symbol is written as that symbol, a piece that fails gives the zero character, and a non-zero output character is what its piece decodes to |
| Theorems.CountedBag | Huffman.cpp:89-93 | the counted forest, as a bag, holds one leaf per distinct character with its number of occurrences, each exactly once |
| Theorems.CountedShape | Huffman.cpp:89-93 | the counted forest is well weighted, is its own bag of leaves and weighs the length of the input |
| Theorems.BuiltRoot | Huffman.cpp:88-94 | on non-empty input the object ends with one well-weighted root that holds the counted leaves and weighs the input length, and the table is the walk of that root |
| Theorems.BuiltKeys | Huffman.cpp:88-94 | the table built by `encodeData` has exactly the characters of the input as keys |
| Theorems.BuiltTree | Huffman.cpp:88-94 | the tree built from non-empty input has one root weighing the input length, is well weighted, and its leaves match the input's distinct characters one-to-one with their counts |
| Theorems.DecodeCodes | Huffman.cpp:96-116 | decoding the codes of the input characters, written with delimiters, on the frozen tree gives back the characters |
| Theorems.RoundTrip | Huffman.cpp:88-116 | `decodeData` on the text `encodeData` writes returns the original input, for every input shorter than 2^31 characters and whatever the state before encoding |
| Theorems.EncodeIgnoresState | Huffman.cpp:88-89 | the result of `encodeData` does not depend on the state before the call |
| Theorems.EncodedPieces | Huffman.cpp:96-99 | the encoded text is the code of each input character followed by the delimiter, and no code holds the delimiter |
| Theorems.EncodedText | Huffman.cpp:96-99 | splitting the encoded text gives the input's codes in order; it holds one delimiter per input character, ends in a delimiter unless empty, and does not depend on the previous state |
| Theorems.SingleSymbol | Huffman.cpp:148-164 | a run of one character builds a single leaf root with the empty code, so the text is one delimiter per character |
| Theorems.CountedSingle | Huffman.cpp:182-198 | counting a run of one character gives one leaf carrying the run's length |
| Theorems.EncodedWalksDefined | Huffman.cpp:130-147 | on every piece of an encoded text, the source walk is defined and returns the input character at that position |
| Theorems.EmptyPieceUndefined | Huffman.cpp:133-139 | after encoding two distinct characters, the root is internal, and the source walk of an empty piece is undefined; the corrected walk fails and `decodeData` writes the zero character |

## Left out

- Main.cpp, the command-line driver with its command-line argument and console I/O, is not part of this model.
- `print` and `printForest`, and `Node::print`, only write to the console.
- Heap management is not modelled: destructors, `delete` in `clear`, the deep-copying `Node(const Node&)` constructor (Huffman.cpp:10-29), and ownership of popped nodes. Nodes are values here.
- Codec.EncodeData, Codec.DecodeData, Theorems.RoundTrip, Counting.CountingWeight: the source keeps string lengths in `int` (Huffman.cpp:91, 104, 132). For inputs of 2^31 characters or more, that conversion truncates, so only a prefix of the input, or nothing, is processed. Here lengths and frequencies are unbounded, so these contracts describe the program only for inputs shorter than 2^31 characters. Below that length, no frequency or merged sum can overflow its `int`.
- Codec.Lookup: the entry that `std::map::operator[]` inserts for a missing key is not modelled. `encodeData` only looks up characters it has just counted, which are all in the table (`Theorems.BuiltKeys`).
- Optimality of the code (minimal weighted path length) is not stated. The model proves the greedy choice of each step (`Forests.MergeStepShape`), but not the exchange argument.
- A `char` in the source is one byte; Dafny's `char` is a Unicode scalar value. No byte encoding is modelled.
- Codec.DecodeData: the model decodes with the corrected walk. On a piece where the source has undefined behaviour, the model writes the zero character. The two agree on every piece of an encoded text (see Findings).

## Findings

| source | as written | input that shows it | evidently intended | confidence | as-written member | corrected member |
|---|---|---|---|---|---|---|
| Huffman.cpp:133-139 | when the walk reaches an internal node with no bits left, it reads `code[0]` and calls `code.erase(code.begin())` on an empty string, which is undefined behaviour | `decodeData(" ")` after `encodeData("ab")`, or any empty piece or piece that stops short of a leaf, once the tree has two or more symbols | fail like every other walk that does not end at a leaf, returning the character 0 | high; not executed | Codec.DecodeWalkAsWritten, Theorems.EmptyPieceUndefined | Codec.DecodeWalk, Theorems.RoundTrip |
