# RNAContract in Dafny

RNAContract compresses an RNA molecule: its base sequence over `a c g u`, and its
secondary structure in dot-bracket notation (`.` for an unpaired base, `(` and `)` for
the two ends of a base pair). The compressor works in these steps:

1. It lower-cases the sequence.
2. It builds a *strictly ranked tree*, with one node per position and a final `e` leaf:
   - an unpaired base becomes a unary node;
   - a pair becomes a binary node whose key (`p q r s x y`) names the pair;
   - a node's left child continues inside the pair and its right child continues after it.
3. It *contracts* that tree: each chain of unary nodes becomes one supernode labelled with
   the chain's bases, and each left spine of stacked pairs becomes one binary supernode.
4. It writes the contracted tree in one of two formats:
   - the standard format: the tree's topology as one bit per bracket, then the labels of
     all nodes as one stream of context-dependent Huffman codes;
   - the alternative format: each inner node in preorder, as an arity bit, the Huffman
     code of its label, and one "is not an `e` leaf" bit per child.
5. It pads the bits with zeros to whole bytes and writes them MSB-first.

Decompression reverses each step. It rebuilds the tree and spells it back as an
upper-case sequence and a structure.

This project models that core:

- the `Node` tree: an arena of nodes updated in place, and its traversals;
- the tree builders;
- both codecs with their Huffman tables;
- the read-back of a tree as RNA;
- the bit helpers of `Utils`.

It proves:

- every in-place operation equals an independent functional definition;
- both formats round trip (with the restriction under "## Findings");
- the Huffman tables are prefix-free and the decoding tables invert the coding tables;
- the bytes that `writeBits` packs are read back by `readBits` as the padded list.

Each module corresponds to part of the source:

- **Trees, Arenas** (`Node.java`): the `Tree` value, and the `Arena` class whose methods
  are `Node`'s methods.
- **StrictTrees, StrictShapes** (`buildStrictlyRankedTree`).
- **Contraction** (`buildContractedTree`, `copyToContractedTree`).
- **Topology** (`compressUnlabeledTree`, `decompressUnlabeledTree`).
- **HuffmanMaps** (`HuffmanMaps.java`).
- **LabelCodec** (`compressLabels`, `decompressLabels`, `decompressNode`).
- **Reconstruction** (`treeToRNA`).
- **Codec** (`compress`, `decompress`).
- **Alternative, AlternativeDecoding** (`compressAlternative`, `decompressAlternative`).
- **BitStreams** (`Utils.java`: `intToBinary`, `binaryToInt`, the loops of `writeBits`
  and `readBits`).
- **RnaFiles** (`compressFile`, `decompressFile`).

Some conventions of the model:

- A decoder takes a ghost `target` tree. Its contract says that it rebuilds `target`
  whenever the bits begin with `target`'s code.
- Every decoder also states what it returns on any input.
- An input on which the source throws yields `None` (or `ok == false`).

## Model

| member | source | states |
|---|---|---|
| Arenas.Arena.NewNode | src/main/java/de/techfak/jfriemel/rnacontract/Node.java:12-15 | appends one node with the given key, no parent and no children; the arena stays valid |
| Arenas.Arena.AddChild | src/main/java/de/techfak/jfriemel/rnacontract/Node.java:22-25 | appends c to p's children and sets c's parent to p; keys and all other nodes are unchanged |
| Arenas.Arena.SetKey | src/main/java/de/techfak/jfriemel/rnacontract/Node.java:9 | changes exactly the key of node x |
| Arenas.Arena.GeneratePreorder | src/main/java/de/techfak/jfriemel/rnacontract/Node.java:68-73 | the traversal is extended by the preorder of the subtree's keys |
| Arenas.Arena.GetPreorder | src/main/java/de/techfak/jfriemel/rnacontract/Node.java:56-60 | the keys of the subtree in preorder |
| Arenas.Arena.Size | src/main/java/de/techfak/jfriemel/rnacontract/Node.java:153-155 | the number of nodes of the subtree |
| Arenas.Arena.GeneratePreorderNodes | src/main/java/de/techfak/jfriemel/rnacontract/Node.java:92-97 | the traversal is extended by the subtree's nodes in preorder |
| Arenas.Arena.GetPreorderNodes | src/main/java/de/techfak/jfriemel/rnacontract/Node.java:80-84 | the subtree's nodes in preorder |
| Arenas.Arena.PreorderDistinct | src/main/java/de/techfak/jfriemel/rnacontract/Node.java:92-97 | the preorder of a subtree visits every node at most once |
| Arenas.Arena.GenerateAllSubChildren | src/main/java/de/techfak/jfriemel/rnacontract/Node.java:44-49 | the list is extended by the subtree's nodes, root first |
| Arenas.Arena.GetAllSubChildren | src/main/java/de/techfak/jfriemel/rnacontract/Node.java:32-36 | the same nodes in the same order as getPreorderNodes |
| Arenas.Arena.GeneratePreorderLeaves | src/main/java/de/techfak/jfriemel/rnacontract/Node.java:116-124 | the traversal is extended by the subtree's leaves, left to right |
| Arenas.Arena.GetPreorderLeaves | src/main/java/de/techfak/jfriemel/rnacontract/Node.java:104-108 | the leaves of the subtree, left to right |
| Arenas.Arena.LeavesArePreorderLeaves | src/main/java/de/techfak/jfriemel/rnacontract/Node.java:104-124 | the leaves are exactly the childless nodes of the preorder, in preorder |
| Arenas.Arena.BracketRecursion | src/main/java/de/techfak/jfriemel/rnacontract/Node.java:163-171 | the buffer is extended by the subtree's bracket string, in which a binary node closes only when balanced |
| Arenas.Arena.GetBrackets | src/main/java/de/techfak/jfriemel/rnacontract/Node.java:131-135 | a balanced bracket string of length twice the size |
| Arenas.Arena.GetImbalancedBrackets | src/main/java/de/techfak/jfriemel/rnacontract/Node.java:142-146 | the imbalanced string: length twice the size minus the binary nodes, starting with '(' |
| Trees.BracketsBalanced | src/main/java/de/techfak/jfriemel/rnacontract/Node.java:163-171 | the balanced string has length 2·size and is balanced |
| Trees.ImbalancedBracketsLength | src/main/java/de/techfak/jfriemel/rnacontract/Node.java:163-171 | the imbalanced string has length 2·size − binary nodes and begins with '(' |
| StrictTrees.BuildStrictlyRankedTree | src/main/java/de/techfak/jfriemel/rnacontract/RNAContract.java:441-513 | the arena built in one pass with the two stacks is the tree StrictAt of the input, whose node k is position k |
| StrictTrees.ReadDot | src/main/java/de/techfak/jfriemel/rnacontract/RNAContract.java:452-458 | a '.' keeps the builder's state invariant for one more position |
| StrictTrees.ReadOpen | src/main/java/de/techfak/jfriemel/rnacontract/RNAContract.java:459-480 | a '(' keys the node by its base, pushes it and the single depth, and keeps the invariant |
| StrictTrees.ReadClose | src/main/java/de/techfak/jfriemel/rnacontract/RNAContract.java:481-506 | a ')' pops the open pair, refines its key, climbs back and hangs the right child, keeping the invariant |
| StrictTrees.Climb | src/main/java/de/techfak/jfriemel/rnacontract/RNAContract.java:496-499 | climbs exactly singleDepth parents |
| StrictTrees.Hang | src/main/java/de/techfak/jfriemel/rnacontract/RNAContract.java:453-456 | sets the current key and hangs a new 'e' leaf under the given parent |
| StrictShapes.StrictTreeShape | src/main/java/de/techfak/jfriemel/rnacontract/RNAContract.java:441-513 | the strict tree of a well-formed input has |structure| + 1 nodes, is the 'f' leaf when the structure is empty, and is strictly ranked otherwise |
| StrictShapes.KeyChangesAtClose | src/main/java/de/techfak/jfriemel/rnacontract/RNAContract.java:483-495 | a pair's key changes exactly at its own ')', from s to y on u and from q to x on g |
| Contraction.BuildContractedTree | src/main/java/de/techfak/jfriemel/rnacontract/RNAContract.java:523-525 | the contracted tree is Contract of the strict tree of the input |
| Contraction.BuildContractedTreeFrom | src/main/java/de/techfak/jfriemel/rnacontract/RNAContract.java:534-541 | copies under an 'f' root and returns its first child: Contract of the source tree |
| Contraction.CopyToContractedTree | src/main/java/de/techfak/jfriemel/rnacontract/RNAContract.java:549-577 | appends Contract of the source subtree as the new last child of croot and changes nothing else |
| Contraction.CopyChain | src/main/java/de/techfak/jfriemel/rnacontract/RNAContract.java:554-563 | a unary chain becomes one supernode keyed by its bases, above the contracted rest |
| Contraction.CopySpine | src/main/java/de/techfak/jfriemel/rnacontract/RNAContract.java:564-576 | a left spine of pairs becomes one binary supernode above the contracted spine end and right side |
| Contraction.CollectChain | src/main/java/de/techfak/jfriemel/rnacontract/RNAContract.java:556-560 | the chain's keys and the node where it ends |
| Contraction.CollectSpine | src/main/java/de/techfak/jfriemel/rnacontract/RNAContract.java:566-571 | the spine's keys and the node where it ends |
| Contraction.ContractShape | src/main/java/de/techfak/jfriemel/rnacontract/RNAContract.java:549-577 | contracting a strict tree gives e leaves, unary nodes with a base label above a non-unary child, and binary nodes with a pair label |
| Contraction.ContractedTreeShape | src/main/java/de/techfak/jfriemel/rnacontract/RNAContract.java:523-541 | an empty structure contracts to the 'f' leaf, any other well-formed input to a contracted tree |
| Topology.CompressUnlabeledTree | src/main/java/de/techfak/jfriemel/rnacontract/RNAContract.java:198-205 | the topology code of the tree |
| Topology.TopologyCodeOfBrackets | src/main/java/de/techfak/jfriemel/rnacontract/RNAContract.java:199-203 | the topology code is the imbalanced bracket string without its first character, '(' read as true |
| Topology.TopologyCodeLength | src/main/java/de/techfak/jfriemel/rnacontract/RNAContract.java:198-205 | the code has 2·size − binary nodes − 1 bits |
| Topology.CodeIsBrackets | src/main/java/de/techfak/jfriemel/rnacontract/Node.java:163-171 | the recursive code of a tree is its imbalanced bracket string as bits |
| Topology.DecompressUnlabeledTree | src/main/java/de/techfak/jfriemel/rnacontract/RNAContract.java:242-261 | on any input: a tree with at most two children per node, and the unread suffix; on any bits that begin with a tree's topology code: exactly that code is consumed and the tree has that shape |
| Topology.ReadBits | src/main/java/de/techfak/jfriemel/rnacontract/RNAContract.java:245-258 | the loop reads exactly the topology code of the guiding tree and builds its shape |
| Topology.ReadBit | src/main/java/de/techfak/jfriemel/rnacontract/RNAContract.java:247-256 | one bit: a new child for true, a climb to the parent for false, then past full binary nodes; the guided invariant is kept |
| Topology.Climb | src/main/java/de/techfak/jfriemel/rnacontract/RNAContract.java:254-256 | climbs to the first ancestor that is not full, or past the root |
| LabelCodec.CompressLabels | src/main/java/de/techfak/jfriemel/rnacontract/RNAContract.java:213-234 | the Huffman code of every adjacent pair of ";" + labels joined by ";" + ";", labels in preorder |
| LabelCodec.LeavesSilent | src/main/java/de/techfak/jfriemel/rnacontract/RNAContract.java:225-232 | the leaf labels e and f emit no bits |
| LabelCodec.FindSymbol | src/main/java/de/techfak/jfriemel/rnacontract/RNAContract.java:314-318 | the shortest prefix from start that is a key of the table, or None when the bits run out |
| LabelCodec.MatchFinds | src/main/java/de/techfak/jfriemel/rnacontract/RNAContract.java:314-318 | if a code word lies at start and no shorter prefix is a key then the search finds exactly that word |
| LabelCodec.DecompressSymbols | src/main/java/de/techfak/jfriemel/rnacontract/RNAContract.java:306-325 | decodes symbols, switching table by the previous symbol, up to the ';' |
| LabelCodec.DecompressNode | src/main/java/de/techfak/jfriemel/rnacontract/RNAContract.java:299-327 | the decoded label and the index after it |
| LabelCodec.DecodeNodeComplete | src/main/java/de/techfak/jfriemel/rnacontract/RNAContract.java:299-327 | bits that begin with the code of a unary/binary label at start decode to exactly that label and advance by its code length |
| LabelCodec.DecodeNodeSound | src/main/java/de/techfak/jfriemel/rnacontract/RNAContract.java:299-327 | whatever decodes is a label of the right kind whose code is exactly the bits read |
| LabelCodec.DecompressLabel | src/main/java/de/techfak/jfriemel/rnacontract/RNAContract.java:274-286 | one node: e for a leaf, a decoded label for a unary or binary node, the key kept otherwise; the shape is unchanged |
| LabelCodec.RelabelNodes | src/main/java/de/techfak/jfriemel/rnacontract/RNAContract.java:272-287 | the loop over the preorder succeeds exactly when the label stream decodes and writes the decoded labels to those nodes |
| LabelCodec.DecompressLabels | src/main/java/de/techfak/jfriemel/rnacontract/RNAContract.java:269-289 | succeeds exactly when the bits decode, and then the preorder of keys is the decoded list and the shape is unchanged |
| LabelCodec.DecodeLabelsComplete | src/main/java/de/techfak/jfriemel/rnacontract/RNAContract.java:269-289 | bits beginning with the label codes of a list of fitting labels decode to that list |
| LabelCodec.LabelsRoundTrip | src/main/java/de/techfak/jfriemel/rnacontract/RNAContract.java:213-289 | decoding the label code of a labelled tree, plus any bits after it, gives the tree's preorder labels |
| HuffmanMaps.UnaryKeys | src/main/java/de/techfak/jfriemel/rnacontract/HuffmanMaps.java:73-104 | unaryC has a code exactly for ';' then a base, and for a base then a base or ';' |
| HuffmanMaps.BinaryKeys | src/main/java/de/techfak/jfriemel/rnacontract/HuffmanMaps.java:106-163 | binaryC has a code exactly for ';' then a pair symbol, and for a pair symbol then a pair symbol or ';' |
| HuffmanMaps.TablesDisjoint | src/main/java/de/techfak/jfriemel/rnacontract/HuffmanMaps.java:73-163 | no key is in both tables, so the unary-first lookup of compressLabels is unambiguous |
| HuffmanMaps.CodeLengths | src/main/java/de/techfak/jfriemel/rnacontract/HuffmanMaps.java:73-163 | unary codes have 1 to 4 bits, binary codes 2 to 5 |
| HuffmanMaps.UnaryPrefixFree | src/main/java/de/techfak/jfriemel/rnacontract/HuffmanMaps.java:165-185 | within one unary decoding table no code is a prefix of another |
| HuffmanMaps.BinaryPrefixFree | src/main/java/de/techfak/jfriemel/rnacontract/HuffmanMaps.java:187-215 | within one binary decoding table no code is a prefix of another |
| HuffmanMaps.UnaryDecodeInverts | src/main/java/de/techfak/jfriemel/rnacontract/HuffmanMaps.java:165-185 | the unary decoding table of a pair's first symbol maps the pair's code to its second symbol |
| HuffmanMaps.BinaryDecodeInverts | src/main/java/de/techfak/jfriemel/rnacontract/HuffmanMaps.java:187-215 | the binary decoding table of a pair's first symbol maps the pair's code to its second symbol |
| HuffmanMaps.UnaryDecodeExact | src/main/java/de/techfak/jfriemel/rnacontract/HuffmanMaps.java:41-53 | every entry of a unary decoding table is the code of the pair it decodes |
| HuffmanMaps.BinaryDecodeExact | src/main/java/de/techfak/jfriemel/rnacontract/HuffmanMaps.java:55-71 | every entry of a binary decoding table is the code of the pair it decodes |
| HuffmanMaps.UnaryContext | src/main/java/de/techfak/jfriemel/rnacontract/HuffmanMaps.java:41-53 | a base selects its own table; any other character the ';' table |
| HuffmanMaps.BinaryContext | src/main/java/de/techfak/jfriemel/rnacontract/HuffmanMaps.java:55-71 | a pair symbol selects its own table; any other character the ';' table |
| Reconstruction.TreeToRna | src/main/java/de/techfak/jfriemel/rnacontract/RNAContract.java:585-599 | the sequence and structure spelled by the tree |
| Reconstruction.RecursiveTreeToRna | src/main/java/de/techfak/jfriemel/rnacontract/RNAContract.java:609-632 | the builders are extended by the spelling of the subtree |
| Reconstruction.AppendDots | src/main/java/de/techfak/jfriemel/rnacontract/RNAContract.java:613-615 | one '.' per base of a unary label |
| Reconstruction.PushPairs | src/main/java/de/techfak/jfriemel/rnacontract/RNAContract.java:619-624 | the opening bases and brackets of a binary label, and the closing bases in reverse |
| Reconstruction.PopAll | src/main/java/de/techfak/jfriemel/rnacontract/RNAContract.java:626-629 | the closing bases in stack order, and one ')' each |
| Reconstruction.RnaLengths | src/main/java/de/techfak/jfriemel/rnacontract/RNAContract.java:609-632 | any spelled tree gives a sequence and a dot-bracket structure of equal length |
| Reconstruction.ContractRna | src/main/java/de/techfak/jfriemel/rnacontract/RNAContract.java:549-632 | spelling the contracted tree gives what the strict tree spells |
| Reconstruction.StrictRnaAt | src/main/java/de/techfak/jfriemel/rnacontract/RNAContract.java:441-513 | the strict tree from position i spells the input from i to the end of i's level (canonical pairs) |
| Reconstruction.RnaRoundTrip | src/main/java/de/techfak/jfriemel/rnacontract/RNAContract.java:523-632 | treeToRNA(buildContractedTree(lower(s), d)) is (upper(s), d) for well-formed canonical inputs |
| Reconstruction.NonCanonicalPairLost | src/main/java/de/techfak/jfriemel/rnacontract/RNAContract.java:461-495 | the well-formed non-canonical "ac", "()" is spelled back as "AU" |
| Reconstruction.UpperLower | src/main/java/de/techfak/jfriemel/rnacontract/RNAContract.java:168 | upper-casing after lower-casing is upper-casing |
| Codec.Compress | src/main/java/de/techfak/jfriemel/rnacontract/RNAContract.java:167-175 | the topology code then the label code of the contracted tree of the lower-cased input |
| Codec.Decompress | src/main/java/de/techfak/jfriemel/rnacontract/RNAContract.java:183-189 | on any input, a result is a sequence and a dot-bracket structure of equal length; [] gives two empty strings; bits that begin with a tree's encoding give that tree's spelling |
| Codec.CompressionEncodes | src/main/java/de/techfak/jfriemel/rnacontract/RNAContract.java:167-175 | the compression, followed by any bits, encodes the tree that is read back, and that tree spells (upper(s), d) |
| Codec.RoundTrip | src/main/java/de/techfak/jfriemel/rnacontract/RNAContract.java:167-189 | decompress(compress(s, d) + padding) is (upper(s), d) for well-formed canonical inputs |
| Alternative.CompressAlternative | src/main/java/de/techfak/jfriemel/rnacontract/RNAContract.java:339-362 | the alternative code of the contracted tree: each inner node's arity bit, label code and child flags, in preorder |
| Alternative.AlternativeNodes | src/main/java/de/techfak/jfriemel/rnacontract/RNAContract.java:344-360 | the loop's bits are the concatenated node bits of the visited nodes |
| Alternative.AlternativeNode | src/main/java/de/techfak/jfriemel/rnacontract/RNAContract.java:345-359 | the bits of one node |
| Alternative.HuffmanLabel | src/main/java/de/techfak/jfriemel/rnacontract/RNAContract.java:348-350 | the inner loop gives the label's Huffman code |
| Alternative.AltCodeViews | src/main/java/de/techfak/jfriemel/rnacontract/RNAContract.java:344-360 | the recursive alternative code equals the node-by-node emission over the preorder |
| AlternativeDecoding.DecompressAlternative | src/main/java/de/techfak/jfriemel/rnacontract/RNAContract.java:370-430 | on any input, a result is a sequence and a dot-bracket structure of equal length; [] gives two empty strings; bits beginning with an inner contracted tree's code give that tree's spelling |
| AlternativeDecoding.BuildAlternative | src/main/java/de/techfak/jfriemel/rnacontract/RNAContract.java:371-428 | the loop builds a tree without pending nodes, and that tree is the guiding tree whenever the bits begin with its code |
| AlternativeDecoding.Round | src/main/java/de/techfak/jfriemel/rnacontract/RNAContract.java:376-427 | one round of the loop keeps the guided invariant and moves forward |
| AlternativeDecoding.UnaryRound | src/main/java/de/techfak/jfriemel/rnacontract/RNAContract.java:377-395 | a unary node: label, one child, its flag; the invariant is kept |
| AlternativeDecoding.BinaryRound | src/main/java/de/techfak/jfriemel/rnacontract/RNAContract.java:396-426 | a binary node: label, two children, their flags; the invariant is kept |
| AlternativeDecoding.ReadHead | src/main/java/de/techfak/jfriemel/rnacontract/RNAContract.java:377-380 | reads the label after the arity bit; when the expected label is there it is read exactly |
| AlternativeDecoding.ReadLabel | src/main/java/de/techfak/jfriemel/rnacontract/RNAContract.java:378 | decompressNode as the alternative decoder uses it: complete and of the right kind |
| AlternativeDecoding.HangUnary | src/main/java/de/techfak/jfriemel/rnacontract/RNAContract.java:379-389 | sets the key and hangs one child, keyed e when its flag is false |
| AlternativeDecoding.HangBinary | src/main/java/de/techfak/jfriemel/rnacontract/RNAContract.java:398-418 | sets the key and hangs two children, each keyed e when its flag is false |
| AlternativeDecoding.AdvanceUnary | src/main/java/de/techfak/jfriemel/rnacontract/RNAContract.java:385-395 | the next node and the stack together are the flagged child before the stack; done exactly when nothing is pending |
| AlternativeDecoding.AdvanceBinary | src/main/java/de/techfak/jfriemel/rnacontract/RNAContract.java:403-426 | the flagged left child, then the flagged right child, before the stack; done exactly when nothing is pending |
| AlternativeDecoding.AltStart | src/main/java/de/techfak/jfriemel/rnacontract/RNAContract.java:371-374 | the root alone is pending, and on track when the bits begin with the target's code |
| AlternativeDecoding.AltEnd | src/main/java/de/techfak/jfriemel/rnacontract/RNAContract.java:375-428 | on track, the loop can only stop when done, and the tree is then the target |
| RnaFiles.AltRoundTrip | src/main/java/de/techfak/jfriemel/rnacontract/RNAContract.java:339-430 | decompressAlternative(compressAlternative(s, d) + padding) is (upper(s), d) for well-formed canonical inputs |
| RnaFiles.CompressFile | src/main/java/de/techfak/jfriemel/rnacontract/RNAContract.java:80-93 | the bytes unpack to the padded code of the chosen format |
| RnaFiles.DecompressFile | src/main/java/de/techfak/jfriemel/rnacontract/RNAContract.java:101-111 | unpacks the bytes and decodes them in the chosen format, with that decoder's guarantees |
| RnaFiles.FileRoundTrip | src/main/java/de/techfak/jfriemel/rnacontract/RNAContract.java:80-115 | decompressFile(compressFile(s, d)) is (upper(s), d) in both formats for well-formed canonical inputs |
| BitStreams.Wrap | src/main/java/de/techfak/jfriemel/rnacontract/Utils.java:168 | an int congruent to x modulo 2^32, and x itself when x is an int |
| BitStreams.ShiftOne | src/main/java/de/techfak/jfriemel/rnacontract/Utils.java:187 | 1 << k is an int, and 2^k for 0 ≤ k ≤ 30 |
| BitStreams.IntToBinary | src/main/java/de/techfak/jfriemel/rnacontract/Utils.java:182-196 | bitSize bits; the binary code of a number that fits into at most 31 bits; 1 then 31 zeros for any non-negative number with bitSize 32 |
| BitStreams.WideFive | src/main/java/de/techfak/jfriemel/rnacontract/Utils.java:187-191 | 5 fits into 32 bits, and its 32-bit code is not 1 followed by 31 zeros |
| BitStreams.IntToBinaryWide | src/main/java/de/techfak/jfriemel/rnacontract/Utils.java:182-196 | without the overflow: the binary code of every number that fits into bitSize bits |
| BitStreams.BinaryToInt | src/main/java/de/techfak/jfriemel/rnacontract/Utils.java:162-172 | an int; for up to 31 bits the number they stand for, below 2^|bits| |
| BitStreams.IntRoundTrip | src/main/java/de/techfak/jfriemel/rnacontract/Utils.java:162-196 | binaryToInt(intToBinary(n, k)) is n for 0 ≤ n < 2^k, k ≤ 31 |
| BitStreams.ValueBound | src/main/java/de/techfak/jfriemel/rnacontract/Utils.java:162-172 | k bits stand for a number below 2^k |
| BitStreams.ValueBits | src/main/java/de/techfak/jfriemel/rnacontract/Utils.java:162-196 | the value of the k-bit code of n < 2^k is n |
| BitStreams.BitsValue | src/main/java/de/techfak/jfriemel/rnacontract/Utils.java:162-196 | the |b|-bit code of the value of b is b |
| BitStreams.Padded | src/main/java/de/techfak/jfriemel/rnacontract/Utils.java:135-137 | a multiple of 8 long, fewer than 8 bits added, all false, the list itself as prefix |
| BitStreams.BitList.Add | src/main/java/de/techfak/jfriemel/rnacontract/Utils.java:136 | appends one bit to the list |
| BitStreams.WriteBits | src/main/java/de/techfak/jfriemel/rnacontract/Utils.java:134-145 | pads the list in place, and bit j (MSB first) of byte i is set exactly when bit 8i + j of the padded list is |
| BitStreams.Pack | src/main/java/de/techfak/jfriemel/rnacontract/Utils.java:138-145 | a new array of |bits|/8 bytes whose bit j of byte i is bit 8i + j |
| BitStreams.PackByte | src/main/java/de/techfak/jfriemel/rnacontract/Utils.java:140-144 | sets the eight bits of one byte and leaves the other bytes alone |
| BitStreams.OrMask | src/main/java/de/techfak/jfriemel/rnacontract/Utils.java:142 | ORing in 128 >> j sets bit j and no other |
| BitStreams.ReadBitIsBit | src/main/java/de/techfak/jfriemel/rnacontract/Utils.java:118 | the test with (byte) (128 / (1 << j)) on the promoted ints is bit j of the byte, also for the negative mask of j = 0 |
| BitStreams.ReadBits | src/main/java/de/techfak/jfriemel/rnacontract/Utils.java:116-120 | every byte's eight bits, most significant first |
| BitStreams.UnpackPacked | src/main/java/de/techfak/jfriemel/rnacontract/Utils.java:116-145 | bytes whose bits are a list's, byte after byte, unpack to that list |
| BitStreams.Transfer | src/main/java/de/techfak/jfriemel/rnacontract/Utils.java:110-145 | readBits after writeBits gives the padded list |

## Left out

- File and console I/O are not modelled:
  - `readFile`, `writeFile` and `getDirectoryList`;
  - the streams, the `IOException` paths and `System.exit` of `readBits` and `writeBits`;
  - `printBits`, `printStatistics` and `humanReadableByteCount`;
  - `main`, its command-line parsing and `swapFileEndings`;
  - `createXML` with `generateXML`, and `Node.toString`.
  The byte arrays stand in for the files' contents.
- RnaFiles.CompressFile: the run-time clock and the debug printing are not modelled. The `alternative` and `debug` flags are static fields in the source; here `alternative` is a parameter.
- StrictTrees.BuildStrictlyRankedTree: requires `Buildable`. The source behaves differently on inputs outside it:
  - sequence and structure must be of equal length, while the source reads `sequence.length()` characters of the structure, so it ignores a longer structure's tail and throws on a shorter one;
  - the structure may hold only `.`, `(` and `)`, while the source's `switch` skips any other character and drops its base;
  - a base is required at every `(`, while the source keeps the previous pair key for any other character (initially `' '`);
  - an unmatched `)` is excluded, while the source's `pop` throws on the empty stack.
- Contraction.BuildContractedTree: the same `Buildable` requirement.
- Codec.Compress: the same `Buildable` requirement.
- Alternative.CompressAlternative: requires a well-formed input. For a non-base in a unary label, `huffmanUnary.get` returns null and `addAll` throws; the model has no such path.
- Codec.Decompress: the source's exceptions on malformed bits become `None`. This covers running out of bits in `subList`, `get` and `pop`.
- AlternativeDecoding.DecompressAlternative: the same substitution of `None` for the source's exceptions.
- Codec.Decompress: an empty structure contracts to the `f` leaf. That leaf is decoded as an `e` leaf. Both spell the empty RNA, so only the tree differs, not the result.
- RnaFiles.AltRoundTrip: for the empty structure it requires `padding == []`.
  - The alternative code of the `f` leaf is empty, so the decoder would read any padding as a node; the source does the same.
  - RnaFiles.FileRoundTrip covers the file case, because `writeBits` adds no padding to an empty list.
- Reconstruction.RnaRoundTrip: requires `Canonical`. So do Codec.CompressionEncodes, Codec.RoundTrip, RnaFiles.AltRoundTrip and RnaFiles.FileRoundTrip. A non-canonical pair does not survive; see "## Findings".
- Topology.DecompressUnlabeledTree: returns the unread suffix. The source instead deletes the read prefix from the caller's list (`subList(0, i).clear()`).
- LabelCodec.DecompressLabels: the final `compressed.clear()`, which empties the caller's list, is not modelled. No caller reads the list afterwards.
- AlternativeDecoding.BuildAlternative: the `Deque` of pending nodes is a sequence used as a stack, and the nodes are arena indices.
- Reconstruction.Upper: maps ASCII letters only; Java's `toUpperCase` is Unicode-wide. Reconstruction.Lower has the same limit with respect to `toLowerCase`.
- Reconstruction.TreeToRna: `VARIABLE_MAP`, which the source refills on every call, is a fixed function from pair key to bases.
- The static counters (`numberOfNodes`, `numberOfUnaryNodes`, `numberOfBinaryNodes`) and the `runtime` field are not modelled.
- BitStreams.BinaryToInt: its value is stated only for lists of up to 31 bits. Longer lists overflow Java's int, and for them only "an int" is stated. A list's length is an int, hence its requirement below 2^31.
- BitStreams.IntToBinary: for negative numbers, and for numbers that do not fit into bitSize when bitSize ≤ 31, only the length of the result is stated.
- HuffmanMaps: the coding tables and decoding tables are map values, not `HashMap` objects built by streams. The decoding tables' correspondence with the coding tables is proved.

## Findings

| source | as written | input that shows it | evidently intended | confidence | as-written member | corrected member |
|---|---|---|---|---|---|---|
| src/main/java/de/techfak/jfriemel/rnacontract/RNAContract.java:461-495 | a pair's key is chosen from its opening base alone (p q r s), and the closing base only turns s into y on u and q into x on g, so a pair that is not one of au ua cg gc gu ug is coded as a canonical one | sequence "ac", structure "()" decompresses to "AU", "()" | decompress(compress(s, d)) gives back (upper(s), d) for every input: this holds for inputs whose pairs are canonical | medium; not executed | Reconstruction.NonCanonicalPairLost | Reconstruction.RnaRoundTrip (with Codec.RoundTrip and RnaFiles.AltRoundTrip), proved under Canonical |
| src/main/java/de/techfak/jfriemel/rnacontract/Utils.java:182-196 | for bitSize 32 the first power `1 << 31` overflows to −2^31, every number passes `number >= powerOf2`, and the subtraction wraps to a negative number | intToBinary(5, 32) gives 1 followed by 31 zeros | the 32-bit code of 5: 29 zeros, then 1 0 1 | low; not executed; intToBinary has no caller in the repository | BitStreams.IntToBinary, BitStreams.WideFive | BitStreams.IntToBinaryWide |
