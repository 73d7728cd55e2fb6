/**
 * The order-1 Huffman label codec of RNAContract.java: compressLabels,
 * decompressNode and decompressLabels.  All labels of a tree are coded as one
 * stream: the preorder labels are joined into ";l1;l2;...;ln;" and every
 * overlapping pair of characters is replaced by its code, so a label L costs
 * the codes of the pairs of ";" + L + ";".
 */
module LabelCodec {
  import opened Wrappers
  import opened Trees
  import opened HuffmanMaps
  import opened Arenas

  /** The string compressLabels builds: ';', then each label followed by ';'. */
  function Joined(labels: seq<string>): (s: string)
    ensures |s| >= 1 && s[|s| - 1] == ';'
  {
    if labels == [] then ";" else Joined(labels[..|labels| - 1]) + labels[|labels| - 1] + ";"
  }

  /** One pair's code: from the unary table, else from the binary table, else nothing. */
  function PairCode(pair: string): seq<bool>
  {
    if UnaryC(pair).Some? then UnaryC(pair).value
    else if BinaryC(pair).Some? then BinaryC(pair).value
    else []
  }

  /** The codes, under `code`, of the overlapping pairs s[i..i+2], left to right. */
  function Pairs(code: string -> seq<bool>, s: string): seq<bool>
  {
    if |s| < 2 then [] else code(s[..2]) + Pairs(code, s[1..])
  }

  /** One step of the pair scan at position i. */
  lemma PairsStep(code: string -> seq<bool>, s: string, i: nat)
    requires i + 2 <= |s|
    ensures Pairs(code, s[i..]) == code(s[i..i + 2]) + Pairs(code, s[i + 1..])
  {
    assert s[i..][..2] == s[i..i + 2] && s[i..][1..] == s[i + 1..];
  }

  /** The pair codes of a string under the Huffman tables. */
  function PairsCode(s: string): seq<bool>
  {
    Pairs(PairCode, s)
  }

  /** The bits one node label costs. */
  function NodeCode(lbl: string): seq<bool>
  {
    PairsCode(";" + lbl + ";")
  }

  /** The bits compressLabels emits for a preorder list of labels. */
  function LabelCode(labels: seq<string>): seq<bool>
  {
    PairsCode(Joined(labels))
  }

  /** A label a unary node can carry: non-empty, over a, c, g, u. */
  predicate UnaryLabel(lbl: string)
  {
    |lbl| > 0 && forall i :: 0 <= i < |lbl| ==> lbl[i] in "acgu"
  }

  /** A label a binary node can carry: non-empty, over p, q, r, s, x, y. */
  predicate BinaryLabel(lbl: string)
  {
    |lbl| > 0 && forall i :: 0 <= i < |lbl| ==> lbl[i] in "pqrsxy"
  }

  /** Splitting a string at a shared character splits its pair code. */
  lemma {:induction false} PairsSplit(code: string -> seq<bool>, a: string, c: char, b: string)
    ensures Pairs(code, a + [c] + b) == Pairs(code, a + [c]) + Pairs(code, [c] + b)
  {
    if a != [] {
      assert (a + [c] + b)[1..] == a[1..] + [c] + b;
      assert (a + [c])[1..] == a[1..] + [c];
      if |a| == 1 {
        assert (a + [c] + b)[..2] == (a + [c])[..2];
      } else {
        assert (a + [c] + b)[..2] == a[..2] == (a + [c])[..2];
      }
      PairsSplit(code, a[1..], c, b);
    } else {
      assert a + [c] + b == [c] + b;
      assert Pairs(code, a + [c]) == [];
    }
  }

  /** Appending a label appends its node code (the labels share the ';' between them). */
  lemma LabelCodeSnoc(labels: seq<string>, lbl: string)
    ensures LabelCode(labels + [lbl]) == LabelCode(labels) + NodeCode(lbl)
  {
    var j := Joined(labels);
    var front := j[..|j| - 1];
    assert (labels + [lbl])[..|labels|] == labels;
    assert j == front + [';'];
    assert Joined(labels + [lbl]) == front + [';'] + (lbl + ";");
    PairsSplit(PairCode, front, ';', lbl + ";");
    assert [';'] + (lbl + ";") == ";" + lbl + ";";
  }

  /** The whole stream is the node codes of the labels, one after another. */
  lemma {:induction false} LabelCodeNodes(labels: seq<string>)
    ensures LabelCode(labels) == Flatten(seq(|labels|, i requires 0 <= i < |labels| => NodeCode(labels[i])))
  {
    var cs := seq(|labels|, i requires 0 <= i < |labels| => NodeCode(labels[i]));
    if labels == [] {
      assert PairsCode(";") == [];
    } else {
      var init := labels[..|labels| - 1];
      LabelCodeNodes(init);
      LabelCodeSnoc(init, labels[|labels| - 1]);
      assert init + [labels[|labels| - 1]] == labels;
      var ci := seq(|init|, i requires 0 <= i < |init| => NodeCode(init[i]));
      assert cs == ci + [NodeCode(labels[|labels| - 1])];
      FlattenAppend(ci, NodeCode(labels[|labels| - 1]));
    }
  }

  /** Leaves cost nothing: neither ";e", "e;", ";f" nor "f;" is in a table. */
  lemma LeavesSilent()
    ensures NodeCode("e") == [] && NodeCode("f") == []
  {
    PairsStep(PairCode, ";e;", 0);
    PairsStep(PairCode, ";e;", 1);
    assert ";e;"[2..] == ";" && ";" + "e" + ";" == ";e;";
    PairsStep(PairCode, ";f;", 0);
    PairsStep(PairCode, ";f;", 1);
    assert ";f;"[2..] == ";" && ";" + "f" + ";" == ";f;";
  }

  /**
   * compressLabels: joins the preorder labels with ';' and looks every
   * overlapping pair up in the unary table, then in the binary table.
   */
  method CompressLabels(tree: Arena<string>, root: nat) returns (result: seq<bool>)
    requires tree.Valid() && root < |tree.keys|
    ensures result == LabelCode(Preorder(tree.TreeAt(root)))
  {
    var preorder := tree.GetPreorder(root);
    var labels := ";";
    var k := 0;
    while k < |preorder|
      invariant 0 <= k <= |preorder|
      invariant labels == Joined(preorder[..k])
    {
      assert preorder[..k + 1][..k] == preorder[..k];
      labels := labels + preorder[k] + ";";
      k := k + 1;
    }
    assert preorder[..k] == preorder;
    result := [];
    var i := 0;
    while i < |labels| - 1
      invariant 0 <= i <= |labels| - 1
      invariant result + PairsCode(labels[i..]) == PairsCode(labels)
    {
      var pair := labels[i..i + 2];
      PairsStep(PairCode, labels, i);
      // PairCode is the source's unary-then-binary lookup
      result := result + PairCode(pair);
      i := i + 1;
    }
  }

  // ---------------------------------------------------------------------
  // Decoding one node label (decompressNode)
  // ---------------------------------------------------------------------

  /** A decoded label together with the index of the first bit after it. */
  datatype KeyAndIndex = KeyAndIndex(key: string, index: nat)

  /**
   * The inner search of decompressNode: the shortest prefix of bits[start..]
   * longer than `size` bits that `table` holds, with its length.  None where
   * the source's subList would run past the end of the stream.
   */
  function Match(table: map<seq<bool>, char>, bits: seq<bool>, start: nat, size: nat): (r: Option<(char, nat)>)
    requires start <= |bits|
    ensures r.Some? ==> size < r.value.1 && start + r.value.1 <= |bits|
    ensures r.Some? ==> bits[start..start + r.value.1] in table && table[bits[start..start + r.value.1]] == r.value.0
    decreases |bits| - start - size
  {
    if start + size + 1 > |bits| then None
    else if bits[start..start + size + 1] in table then Some((table[bits[start..start + size + 1]], size + 1))
    else Match(table, bits, start, size + 1)
  }

  /** The decode tables of decompressNode, by the previous character. */
  function Tables(unary: bool): char -> map<seq<bool>, char>
  {
    if unary then UnaryD else BinaryD
  }

  /** The prefix length decompressNode starts its search from: unary codes have at least 1 bit, binary ones at least 2. */
  function FirstSize(unary: bool): nat
  {
    if unary then 0 else 1
  }

  /**
   * The outer loop of decompressNode from bit `start`, with the last decoded
   * character `previous` choosing the table and `key` decoded so far; a decoded
   * ';' ends the label.
   */
  function DecodeFrom(tables: char -> map<seq<bool>, char>, size0: nat, bits: seq<bool>, start: nat, previous: char, key: string): (r: Option<KeyAndIndex>)
    requires start <= |bits|
    ensures r.Some? ==> start < r.value.index <= |bits|
    decreases |bits| - start
  {
    var m := Match(tables(previous), bits, start, size0);
    if m.None? then None
    else if m.value.0 == ';' then Some(KeyAndIndex(key, start + m.value.1))
    else DecodeFrom(tables, size0, bits, start + m.value.1, m.value.0, key + [m.value.0])
  }

  /** decompressNode as a function: the label starting at bit `start`, or None where the source throws. */
  function DecodeNode(bits: seq<bool>, unary: bool, start: nat): Option<KeyAndIndex>
    requires start <= |bits|
  {
    DecodeFrom(Tables(unary), FirstSize(unary), bits, start, ';', "")
  }

  /**
   * The do-while loop of decompressNode: grows the prefix from `size0` bits
   * until `huffman` holds it.  None is the IndexOutOfBoundsException of subList
   * at the end of the stream.
   */
  method FindSymbol(huffman: map<seq<bool>, char>, compressed: seq<bool>, start: nat, size0: nat) returns (r: Option<(char, nat)>)
    requires start <= |compressed|
    ensures r == Match(huffman, compressed, start, size0)
  {
    var subSize := size0;
    var current: Option<char> := None;
    while current.None?
      invariant current.None? ==> Match(huffman, compressed, start, size0) == Match(huffman, compressed, start, subSize)
      invariant current.Some? ==> start + subSize <= |compressed| && Match(huffman, compressed, start, size0) == Some((current.value, subSize))
      decreases |compressed| + 1 - start - subSize
    {
      subSize := subSize + 1;
      if start + subSize > |compressed| {
        return None;
      }
      var prefix := compressed[start..start + subSize];
      current := if prefix in huffman then Some(huffman[prefix]) else None;
    }
    r := Some((current.value, subSize));
  }

  /**
   * The body of decompressNode for a given choice of tables: decodes
   * characters, each in the table `tables(previous)` of the previous one and
   * searching from `size0` bits, until a ';' ends the label.
   */
  method DecompressSymbols(tables: char -> map<seq<bool>, char>, size0: nat, compressed: seq<bool>, start0: nat)
    returns (r: Option<KeyAndIndex>)
    requires start0 <= |compressed|
    ensures r == DecodeFrom(tables, size0, compressed, start0, ';', "")
  {
    var start := start0;
    var seqBuilder := "";
    var previous := ';';
    while true
      invariant start <= |compressed|
      invariant DecodeFrom(tables, size0, compressed, start, previous, seqBuilder) == DecodeFrom(tables, size0, compressed, start0, ';', "")
      decreases |compressed| - start
    {
      var huffman := tables(previous);
      var found := FindSymbol(huffman, compressed, start, size0);
      if found.None? {
        return None;
      }
      var current := found.value.0;
      start := start + found.value.1;
      if current == ';' {
        break;
      }
      seqBuilder := seqBuilder + [current];
      previous := current;
    }
    r := Some(KeyAndIndex(seqBuilder, start));
  }

  /**
   * decompressNode: the unary tables (search from 1 bit) or the binary tables
   * (search from 2 bits).  None is the exception of the source.
   */
  method DecompressNode(compressed: seq<bool>, unary: bool, start: nat) returns (r: Option<KeyAndIndex>)
    requires start <= |compressed|
    ensures r == DecodeNode(compressed, unary, start)
  {
    r := DecompressSymbols(Tables(unary), FirstSize(unary), compressed, start);
  }

  /** A prefix-free table code at the head of the stream is found, with its length. */
  lemma {:induction false} MatchFinds(table: map<seq<bool>, char>, bits: seq<bool>, start: nat, size: nat, w: seq<bool>)
    requires start + |w| <= |bits| && bits[start..start + |w|] == w
    requires w in table && size < |w|
    requires forall m :: size < m < |w| ==> w[..m] !in table
    ensures Match(table, bits, start, size).Some?
    ensures Match(table, bits, start, size).value.0 == table[w] && Match(table, bits, start, size).value.1 == |w|
    decreases |w| - size
  {
    assert bits[start..start + size + 1] == w[..size + 1];
    if size + 1 < |w| {
      MatchFinds(table, bits, start, size + 1, w);
    } else {
      assert w[..size + 1] == w;
    }
  }

  /** The characters of ";" + lbl + ";" by position. */
  lemma Framed(lbl: string, w: string)
    requires w == ";" + lbl + ";"
    ensures |w| == |lbl| + 2 && w[0] == ';' && w[|lbl| + 1] == ';'
    ensures forall j :: 1 <= j <= |lbl| ==> w[j] == lbl[j - 1]
  {
  }

  /** The code of a key at the head of the stream decodes, in its context's table, to the key's second character. */
  lemma MatchPair(bits: seq<bool>, unary: bool, p: nat, pair: string)
    requires p <= |bits|
    requires if unary then UnaryC(pair).Some? else BinaryC(pair).Some?
    requires IsPrefix(PairCode(pair), bits[p..])
    ensures |PairCode(pair)| > 0
    ensures Match(Tables(unary)(pair[0]), bits, p, FirstSize(unary)).Some?
    ensures Match(Tables(unary)(pair[0]), bits, p, FirstSize(unary)).value.0 == pair[1]
    ensures Match(Tables(unary)(pair[0]), bits, p, FirstSize(unary)).value.1 == |PairCode(pair)|
  {
    var code := PairCode(pair);
    CodeLengths(pair);
    assert bits[p..][..|code|] == bits[p..p + |code|];
    if unary {
      UnaryDecodeInverts(pair);
      forall m | 0 < m < |code| ensures code[..m] !in UnaryD(pair[0]) {
        UnaryNoProperPrefix(pair[0], code, m);
      }
      MatchFinds(UnaryD(pair[0]), bits, p, 0, code);
    } else {
      TablesDisjoint(pair);
      BinaryDecodeInverts(pair);
      forall m | 1 < m < |code| ensures code[..m] !in BinaryD(pair[0]) {
        BinaryNoProperPrefix(pair[0], code, m);
      }
      MatchFinds(BinaryD(pair[0]), bits, p, 1, code);
    }
  }

  /** The pair of w at j, if its code heads bits[q..], decodes to w's next character. */
  ghost predicate StepAt(code: string -> seq<bool>, tables: char -> map<seq<bool>, char>, size0: nat, bits: seq<bool>, w: string, j: nat, q: nat)
    requires j + 2 <= |w| && q <= |bits|
  {
    IsPrefix(code(w[j..j + 2]), bits[q..]) ==>
      Match(tables(w[j]), bits, q, size0).Some? &&
      Match(tables(w[j]), bits, q, size0).value.0 == w[j + 1] &&
      Match(tables(w[j]), bits, q, size0).value.1 == |code(w[j..j + 2])| > 0
  }

  /** Every pair of w, wherever its code heads the stream, decodes to its second character. */
  ghost predicate Steps(code: string -> seq<bool>, tables: char -> map<seq<bool>, char>, size0: nat, bits: seq<bool>, w: string)
  {
    forall j: nat, q: nat | j + 2 <= |w| && q <= |bits| :: StepAt(code, tables, size0, bits, w, j, q)
  }

  /** The Huffman tables decode every pair of a valid label. */
  lemma StepsHold(bits: seq<bool>, unary: bool, lbl: string)
    requires if unary then UnaryLabel(lbl) else BinaryLabel(lbl)
    ensures Steps(PairCode, Tables(unary), FirstSize(unary), bits, ";" + lbl + ";")
    ensures forall i :: 0 <= i < |lbl| ==> lbl[i] != ';'
  {
    var w := ";" + lbl + ";";
    Framed(lbl, w);
    forall j: nat, q: nat | j + 2 <= |w| && q <= |bits|
      ensures StepAt(PairCode, Tables(unary), FirstSize(unary), bits, w, j, q)
    {
      var pair := w[j..j + 2];
      assert pair[0] == w[j] && pair[1] == w[j + 1];
      if j > 0 {
        assert w[j] == lbl[j - 1];
      }
      if j < |lbl| {
        assert w[j + 1] == lbl[j];
      }
      if unary {
        UnaryKeys(pair);
      } else {
        BinaryKeys(pair);
      }
      if IsPrefix(PairCode(pair), bits[q..]) {
        MatchPair(bits, unary, q, pair);
      }
    }
  }

  /** Decoding resumes correctly after the first k characters of a label, for any tables that decode its pairs. */
  lemma {:induction false} DecodeFromComplete(code: string -> seq<bool>, tables: char -> map<seq<bool>, char>, size0: nat, bits: seq<bool>, lbl: string, k: nat, p: nat)
    requires Steps(code, tables, size0, bits, ";" + lbl + ";")
    requires forall i :: 0 <= i < |lbl| ==> lbl[i] != ';'
    requires k <= |lbl| && p <= |bits|
    requires IsPrefix(Pairs(code, (";" + lbl + ";")[k..]), bits[p..])
    ensures DecodeFrom(tables, size0, bits, p, (";" + lbl + ";")[k], lbl[..k])
         == Some(KeyAndIndex(lbl, p + |Pairs(code, (";" + lbl + ";")[k..])|))
    decreases |lbl| - k
  {
    var w := ";" + lbl + ";";
    Framed(lbl, w);
    var pair := w[k..k + 2];
    var c := w[k + 1];
    PairsStep(code, w, k);
    var bitsOfPair := code(pair);
    var rest := Pairs(code, w[k + 1..]);
    assert bits[p..][..|bitsOfPair|] == bits[p..][..|bitsOfPair| + |rest|][..|bitsOfPair|];
    assert IsPrefix(bitsOfPair, bits[p..]);
    assert StepAt(code, tables, size0, bits, w, k, p);
    var m := Match(tables(w[k]), bits, p, size0);
    assert m.Some? && m.value.0 == c && m.value.1 == |bitsOfPair| > 0;
    if k < |lbl| {
      assert c == lbl[k];
      assert lbl[..k] + [c] == lbl[..k + 1];
      assert bits[p + |bitsOfPair|..][..|rest|] == bits[p..][..|bitsOfPair| + |rest|][|bitsOfPair|..];
      DecodeFromComplete(code, tables, size0, bits, lbl, k + 1, p + |bitsOfPair|);
    } else {
      assert lbl[..k] == lbl;
      assert w[k + 1..] == ";";
    }
  }

  /** A whole label decodes from context ';', for any tables that decode its pairs. */
  lemma DecodeLabelFrom(code: string -> seq<bool>, tables: char -> map<seq<bool>, char>, size0: nat, bits: seq<bool>, lbl: string, start: nat)
    requires Steps(code, tables, size0, bits, ";" + lbl + ";")
    requires forall i :: 0 <= i < |lbl| ==> lbl[i] != ';'
    requires start <= |bits| && IsPrefix(Pairs(code, ";" + lbl + ";"), bits[start..])
    ensures DecodeFrom(tables, size0, bits, start, ';', "") == Some(KeyAndIndex(lbl, start + |Pairs(code, ";" + lbl + ";")|))
  {
    var w := ";" + lbl + ";";
    assert w[0..] == w && lbl[..0] == "" && w[0] == ';';
    DecodeFromComplete(code, tables, size0, bits, lbl, 0, start);
  }

  /** Completeness: a valid label's code at bit `start` decodes to that label and the next index. */
  lemma DecodeNodeComplete(bits: seq<bool>, unary: bool, start: nat, lbl: string)
    requires if unary then UnaryLabel(lbl) else BinaryLabel(lbl)
    requires start <= |bits| && IsPrefix(NodeCode(lbl), bits[start..])
    ensures DecodeNode(bits, unary, start) == Some(KeyAndIndex(lbl, start + |NodeCode(lbl)|))
  {
    var n := |NodeCode(lbl)|;
    assert n == |Pairs(PairCode, ";" + lbl + ";")|;
    StepsHold(bits, unary, lbl);
    DecodeLabelFrom(PairCode, Tables(unary), FirstSize(unary), bits, lbl, start);
    DecodeNodeIs(bits, unary, start, Some(KeyAndIndex(lbl, start + n)));
  }

  lemma DecodeNodeIs(bits: seq<bool>, unary: bool, start: nat, r: Option<KeyAndIndex>)
    requires start <= |bits| && DecodeFrom(Tables(unary), FirstSize(unary), bits, start, ';', "") == r
    ensures DecodeNode(bits, unary, start) == r
  {
  }

  /** The table entry u of context prev decodes to a character whose pair with prev is coded by u. */
  ghost predicate SoundAt(code: string -> seq<bool>, tables: char -> map<seq<bool>, char>, alphabet: string, prev: char, u: seq<bool>)
  {
    u in tables(prev) ==>
      code([prev, tables(prev)[u]]) == u &&
      tables(prev)[u] in alphabet + ";" &&
      (prev == ';' ==> tables(prev)[u] != ';')
  }

  /** Every entry of the tables of the contexts ';' and `alphabet` is SoundAt. */
  ghost predicate Sound(code: string -> seq<bool>, tables: char -> map<seq<bool>, char>, alphabet: string)
  {
    forall prev, u | prev in ";" + alphabet :: SoundAt(code, tables, alphabet, prev, u)
  }

  /** The alphabet of unary or of binary labels. */
  function Alphabet(unary: bool): string
  {
    if unary then "acgu" else "pqrsxy"
  }

  /** The decode tables of HuffmanMaps invert its code tables. */
  lemma SoundHolds(unary: bool)
    ensures Sound(PairCode, Tables(unary), Alphabet(unary))
  {
    forall prev, u | prev in ";" + Alphabet(unary)
      ensures SoundAt(PairCode, Tables(unary), Alphabet(unary), prev, u)
    {
      if u in Tables(unary)(prev) {
        var c := Tables(unary)(prev)[u];
        var pair := [prev, c];
        if unary {
          UnaryDecodeExact(prev, u);
          assert UnaryContext(prev) == prev;
          UnaryKeys(pair);
        } else {
          BinaryDecodeExact(prev, u);
          assert BinaryContext(prev) == prev;
          BinaryKeys(pair);
          TablesDisjoint(pair);
        }
      }
    }
  }

  /**
   * Decoding from context `previous` only ever reads the code of the pairs of
   * [previous] + (new characters) + ";", and the new characters are in the alphabet.
   */
  lemma {:induction false} DecodeFromSound(code: string -> seq<bool>, tables: char -> map<seq<bool>, char>, alphabet: string,
                                           size0: nat, bits: seq<bool>, start: nat, previous: char, key: string)
    requires Sound(code, tables, alphabet) && previous in ";" + alphabet
    requires start <= |bits| && DecodeFrom(tables, size0, bits, start, previous, key).Some?
    ensures var r := DecodeFrom(tables, size0, bits, start, previous, key).value;
      |key| <= |r.key| && r.key[..|key|] == key &&
      (previous == ';' ==> |key| < |r.key|) &&
      (forall i :: |key| <= i < |r.key| ==> r.key[i] in alphabet) &&
      bits[start..r.index] == Pairs(code, [previous] + r.key[|key|..] + ";")
    decreases |bits| - start
  {
    var r := DecodeFrom(tables, size0, bits, start, previous, key).value;
    var m := Match(tables(previous), bits, start, size0);
    var c := m.value.0;
    var n := m.value.1;
    var u := bits[start..start + n];
    assert SoundAt(code, tables, alphabet, previous, u);
    PairOfTwo(code, previous, c);
    if c == ';' {
      assert r == KeyAndIndex(key, start + n);
      assert key[..|key|] == key && r.key[|key|..] == [];
      assert [previous] + r.key[|key|..] + ";" == [previous, c];
    } else {
      assert c in ";" + alphabet;
      DecodeFromSound(code, tables, alphabet, size0, bits, start + n, c, key + [c]);
      assert r == DecodeFrom(tables, size0, bits, start + n, c, key + [c]).value;
      SoundTail(code, alphabet, bits, start, n, previous, c, key, r.key, r.index);
    }
  }

  /** The code of a two-character string is the code of that pair. */
  lemma PairOfTwo(code: string -> seq<bool>, a: char, b: char)
    ensures Pairs(code, [a, b]) == code([a, b])
  {
    PairsStep(code, [a, b], 0);
    assert [a, b][0..2] == [a, b] && [a, b][1..] == [b];
  }

  /** The step of DecodeFromSound that decodes a non-final character c after `previous`. */
  lemma SoundTail(code: string -> seq<bool>, alphabet: string, bits: seq<bool>, start: nat, n: nat,
                  previous: char, c: char, key: string, rkey: string, index: nat)
    requires start + n <= index <= |bits| && c in alphabet && code([previous, c]) == bits[start..start + n]
    requires |key + [c]| <= |rkey| && rkey[..|key + [c]|] == key + [c]
    requires forall i :: |key + [c]| <= i < |rkey| ==> rkey[i] in alphabet
    requires bits[start + n..index] == Pairs(code, [c] + rkey[|key + [c]|..] + ";")
    ensures |key| < |rkey| && rkey[..|key|] == key
    ensures forall i :: |key| <= i < |rkey| ==> rkey[i] in alphabet
    ensures bits[start..index] == Pairs(code, [previous] + rkey[|key|..] + ";")
  {
    var tail := rkey[|key| + 1..];
    assert rkey[..|key|] == (key + [c])[..|key|] == key;
    assert rkey[|key|..] == [c] + tail;
    forall i | |key| <= i < |rkey| ensures rkey[i] in alphabet {
      if i == |key| {
        assert rkey[i] == (key + [c])[|key|];
      }
    }
    PairsSplit(code, [previous], c, tail + ";");
    assert [previous] + [c] + (tail + ";") == [previous] + rkey[|key|..] + ";";
    assert [c] + (tail + ";") == [c] + tail + ";";
    assert Pairs(code, [c]) == [];
    assert [previous] + [c] == [previous, c];
    PairOfTwo(code, previous, c);
    assert bits[start..index] == bits[start..start + n] + bits[start + n..index];
  }

  /** Soundness: whatever decompressNode returns is a valid label, and the bits it consumed are that label's code. */
  lemma DecodeNodeSound(bits: seq<bool>, unary: bool, start: nat)
    requires start <= |bits| && DecodeNode(bits, unary, start).Some?
    ensures var r := DecodeNode(bits, unary, start).value;
      (if unary then UnaryLabel(r.key) else BinaryLabel(r.key)) && start < r.index <= |bits| &&
      bits[start..r.index] == NodeCode(r.key)
  {
    SoundHolds(unary);
    DecodeFromSound(PairCode, Tables(unary), Alphabet(unary), FirstSize(unary), bits, start, ';', "");
    var r := DecodeNode(bits, unary, start).value;
    assert r.key[0..] == r.key;
    assert [';'] + r.key + ";" == ";" + r.key + ";";
  }

  // ---------------------------------------------------------------------
  // Decoding all labels of a tree (decompressLabels)
  // ---------------------------------------------------------------------

  /**
   * One node of decompressLabels: a leaf becomes "e", a unary or binary node
   * decodes its label from bit `start`, any other node keeps its key.
   */
  function LabelStep(bits: seq<bool>, arity: nat, key: string, start: nat): (r: Option<KeyAndIndex>)
    requires start <= |bits|
    ensures r.Some? ==> start <= r.value.index <= |bits|
  {
    if arity == 0 then Some(KeyAndIndex("e", start))
    else if arity == 1 then DecodeNode(bits, true, start)
    else if arity == 2 then DecodeNode(bits, false, start)
    else Some(KeyAndIndex(key, start))
  }

  /**
   * decompressLabels over the preorder child counts and keys of a tree: the
   * new keys in preorder, or None where decompressNode throws.
   */
  function DecodeLabels(bits: seq<bool>, arities: seq<nat>, keys: seq<string>, start: nat): (r: Option<seq<string>>)
    requires |arities| == |keys| && start <= |bits|
    ensures r.Some? ==> |r.value| == |arities|
    decreases |arities|
  {
    if arities == [] then Some([])
    else
      var step := LabelStep(bits, arities[0], keys[0], start);
      if step.None? then None
      else
        var rest := DecodeLabels(bits, arities[1..], keys[1..], step.value.index);
        if rest.None? then None else Some([step.value.key] + rest.value)
  }

  /** `done` put in front of a decoding result. */
  function Prepend(done: seq<string>, r: Option<seq<string>>): Option<seq<string>>
  {
    if r.None? then None else Some(done + r.value)
  }

  /** One node of the label stream at position k. */
  lemma DecodeLabelsAt(bits: seq<bool>, ar: seq<nat>, olds: seq<string>, k: nat, start: nat)
    requires |ar| == |olds| && k < |ar| && start <= |bits|
    ensures var step := LabelStep(bits, ar[k], olds[k], start);
      DecodeLabels(bits, ar[k..], olds[k..], start) ==
      (if step.None? then None else Prepend([step.value.key], DecodeLabels(bits, ar[k + 1..], olds[k + 1..], step.value.index)))
  {
    assert ar[k..][0] == ar[k] && olds[k..][0] == olds[k];
    assert ar[k..][1..] == ar[k + 1..] && olds[k..][1..] == olds[k + 1..];
  }

  lemma PrependPrepend(done: seq<string>, key: string, r: Option<seq<string>>)
    ensures Prepend(done, Prepend([key], r)) == Prepend(done + [key], r)
  {
    if r.Some? {
      assert done + ([key] + r.value) == done + [key] + r.value;
    }
  }

  /** The label a node with `arity` children carries in a contracted tree. */
  predicate Fits(arity: nat, lbl: string)
  {
    (arity == 0 && lbl == "e") || (arity == 1 && UnaryLabel(lbl)) || (arity == 2 && BinaryLabel(lbl))
  }

  /** Every node carries the label its child count calls for. */
  ghost predicate Labelled(t: Tree<string>)
  {
    Fits(|t.children|, t.key) && forall i :: 0 <= i < |t.children| ==> Labelled(t.children[i])
  }

  ghost predicate AllFit(ar: seq<nat>, ls: seq<string>)
  {
    |ar| == |ls| && forall k :: 0 <= k < |ar| ==> Fits(ar[k], ls[k])
  }

  lemma AllFitConcat(a1: seq<nat>, l1: seq<string>, a2: seq<nat>, l2: seq<string>)
    requires AllFit(a1, l1) && AllFit(a2, l2)
    ensures AllFit(a1 + a2, l1 + l2)
  {
    forall k | 0 <= k < |a1 + a2| ensures Fits((a1 + a2)[k], (l1 + l2)[k]) {
      if k >= |a1| {
        assert (a1 + a2)[k] == a2[k - |a1|] && (l1 + l2)[k] == l2[k - |l1|];
      }
    }
  }

  lemma {:induction false} AllFitFlatten(as_: seq<seq<nat>>, ls: seq<seq<string>>)
    requires |as_| == |ls| && forall i :: 0 <= i < |as_| ==> AllFit(as_[i], ls[i])
    ensures AllFit(Flatten(as_), Flatten(ls))
  {
    if as_ != [] {
      AllFitFlatten(as_[1..], ls[1..]);
      AllFitConcat(as_[0], ls[0], Flatten(as_[1..]), Flatten(ls[1..]));
    }
  }

  /** In a labelled tree the preorder labels fit the preorder child counts. */
  lemma {:induction false} LabelledFits(t: Tree<string>)
    requires Labelled(t)
    ensures AllFit(Arities(t), Preorder(t))
  {
    var a := ArityTree(t);
    var as_, ls := ChildPreorders(a), ChildPreorders(t);
    forall i | 0 <= i < |as_| ensures AllFit(as_[i], ls[i]) {
      LabelledFits(t.children[i]);
    }
    AllFitFlatten(as_, ls);
    AllFitConcat([a.key], [t.key], Flatten(as_), Flatten(ls));
  }

  /** The node codes of a list of labels. */
  function NodeCodes(ls: seq<string>): (r: seq<seq<bool>>)
    ensures |r| == |ls| && forall i :: 0 <= i < |ls| ==> r[i] == NodeCode(ls[i])
  {
    seq(|ls|, i requires 0 <= i < |ls| => NodeCode(ls[i]))
  }

  /** A fitting label whose code heads the stream decodes back to itself. */
  lemma LabelStepComplete(bits: seq<bool>, arity: nat, key: string, start: nat, lbl: string)
    requires Fits(arity, lbl) && start <= |bits| && IsPrefix(NodeCode(lbl), bits[start..])
    ensures LabelStep(bits, arity, key, start) == Some(KeyAndIndex(lbl, start + |NodeCode(lbl)|))
  {
    if arity == 0 {
      LeavesSilent();
    } else if arity == 1 {
      DecodeNodeComplete(bits, true, start, lbl);
    } else {
      DecodeNodeComplete(bits, false, start, lbl);
    }
  }

  /** Fitting labels whose codes head the stream decode back to themselves. */
  lemma DecodeLabelsComplete(bits: seq<bool>, ar: seq<nat>, ls: seq<string>, olds: seq<string>, start: nat)
    requires AllFit(ar, ls) && |olds| == |ls| && start <= |bits|
    requires IsPrefix(Flatten(NodeCodes(ls)), bits[start..])
    ensures DecodeLabels(bits, ar, olds, start) == Some(ls)
  {
    var codes := NodeCodes(ls);
    var step := StepIn(bits);
    forall i, p: nat | 0 <= i < |ls| && p <= |bits| && IsPrefix(codes[i], bits[p..])
      ensures step(ar[i], olds[i], p) == Some(KeyAndIndex(ls[i], p + |codes[i]|))
    {
      assert Fits(ar[i], ls[i]);
      LabelStepComplete(bits, ar[i], olds[i], p, ls[i]);
    }
    DecodeAllComplete(step, bits, ar, ls, olds, codes, start);
    DecodeLabelsAll(bits, ar, olds, start);
  }

  /** LabelStep made total: None past the end of the stream. */
  function StepIn(bits: seq<bool>): (nat, string, nat) -> Option<KeyAndIndex>
  {
    (arity: nat, key: string, start: nat) => if start <= |bits| then LabelStep(bits, arity, key, start) else None
  }

  /** The walk of decompressLabels over the nodes, for any one-node decoder `step`. */
  function DecodeAll(step: (nat, string, nat) -> Option<KeyAndIndex>, arities: seq<nat>, keys: seq<string>, start: nat): Option<seq<string>>
    requires |arities| == |keys|
    decreases |arities|
  {
    if arities == [] then Some([])
    else
      var s := step(arities[0], keys[0], start);
      if s.None? then None
      else
        var rest := DecodeAll(step, arities[1..], keys[1..], s.value.index);
        if rest.None? then None else Some([s.value.key] + rest.value)
  }

  lemma {:induction false} DecodeLabelsAll(bits: seq<bool>, ar: seq<nat>, olds: seq<string>, start: nat)
    requires |ar| == |olds| && start <= |bits|
    ensures DecodeLabels(bits, ar, olds, start) == DecodeAll(StepIn(bits), ar, olds, start)
    decreases |ar|
  {
    if ar != [] {
      var s := LabelStep(bits, ar[0], olds[0], start);
      assert StepIn(bits)(ar[0], olds[0], start) == s;
      if s.Some? {
        DecodeLabelsAll(bits, ar[1..], olds[1..], s.value.index);
      }
    }
  }

  /** Labels whose codes head the stream, one after another, decode back to themselves. */
  lemma {:induction false} DecodeAllComplete(step: (nat, string, nat) -> Option<KeyAndIndex>, bits: seq<bool>, ar: seq<nat>, ls: seq<string>,
                                             olds: seq<string>, codes: seq<seq<bool>>, start: nat)
    requires |ar| == |ls| && |olds| == |ls| && |codes| == |ls| && start <= |bits|
    requires forall i, p: nat | 0 <= i < |ls| && p <= |bits| && IsPrefix(codes[i], bits[p..]) ::
      step(ar[i], olds[i], p) == Some(KeyAndIndex(ls[i], p + |codes[i]|))
    requires IsPrefix(Flatten(codes), bits[start..])
    ensures DecodeAll(step, ar, olds, start) == Some(ls)
    decreases |ls|
  {
    if ls != [] {
      var head, tail := codes[0], Flatten(codes[1..]);
      assert Flatten(codes) == head + tail;
      assert bits[start..][..|head|] == bits[start..][..|head| + |tail|][..|head|];
      var next := start + |head|;
      assert bits[next..][..|tail|] == bits[start..][..|head| + |tail|][|head|..];
      assert step(ar[0], olds[0], start) == Some(KeyAndIndex(ls[0], next));
      forall i, p: nat | 0 <= i < |ls| - 1 && p <= |bits| && IsPrefix(codes[1..][i], bits[p..])
        ensures step(ar[1..][i], olds[1..][i], p) == Some(KeyAndIndex(ls[1..][i], p + |codes[1..][i]|))
      {
        assert IsPrefix(codes[i + 1], bits[p..]);
      }
      DecodeAllComplete(step, bits, ar[1..], ls[1..], olds[1..], codes[1..], next);
      assert ls == [ls[0]] + ls[1..];
    }
  }

  /**
   * Round trip of the label stream: decompressLabels on a tree of the right
   * shape restores every label of a labelled tree, whatever bits follow the
   * stream and whatever the keys were before.
   */
  lemma LabelsRoundTrip(t: Tree<string>, rest: seq<bool>, olds: seq<string>)
    requires Labelled(t) && |olds| == Size(t)
    ensures DecodeLabels(LabelCode(Preorder(t)) + rest, Arities(t), olds, 0) == Some(Preorder(t))
  {
    var ls := Preorder(t);
    var bits := LabelCode(ls) + rest;
    LabelledFits(t);
    LabelCodeNodes(ls);
    assert NodeCodes(ls) == seq(|ls|, i requires 0 <= i < |ls| => NodeCode(ls[i]));
    assert bits[0..][..|LabelCode(ls)|] == LabelCode(ls);
    DecodeLabelsComplete(bits, Arities(t), ls, olds, 0);
  }

  /**
   * The body of the loop of decompressLabels for one node: a leaf gets "e", a
   * unary or binary node the label decompressNode reads from bit `start`, any
   * other node keeps its key.  None where decompressNode throws.
   */
  method DecompressLabel(compressed: seq<bool>, tree: Arena<string>, node: nat, start: nat) returns (kai: Option<KeyAndIndex>)
    requires tree.Valid() && node < |tree.keys| && start <= |compressed|
    modifies tree
    ensures tree.Valid() && tree.parent == old(tree.parent) && tree.children == old(tree.children)
    ensures kai == LabelStep(compressed, |tree.children[node]|, old(tree.keys[node]), start)
    ensures kai.Some? ==> tree.keys == old(tree.keys)[node := kai.value.key]
  {
    if |tree.children[node]| == 0 {
      tree.SetKey(node, "e");
      kai := Some(KeyAndIndex("e", start));
    } else if |tree.children[node]| == 1 {
      kai := DecompressNode(compressed, true, start);
      if kai.Some? {
        tree.SetKey(node, kai.value.key);
      }
    } else if |tree.children[node]| == 2 {
      kai := DecompressNode(compressed, false, start);
      if kai.Some? {
        tree.SetKey(node, kai.value.key);
      }
    } else {
      kai := Some(KeyAndIndex(tree.keys[node], start));
    }
  }

  /**
   * The loop of decompressLabels: runs DecompressLabel on the given nodes in
   * order, each starting where the previous one stopped.  `ok` is false where
   * decompressNode throws.
   */
  method RelabelNodes(compressed: seq<bool>, tree: Arena<string>, nodes: seq<nat>, ghost ar: seq<nat>, ghost olds: seq<string>)
    returns (ok: bool, ghost done: seq<string>)
    requires tree.Valid() && Distinct(nodes) && |ar| == |nodes| && |olds| == |nodes|
    requires forall j :: 0 <= j < |nodes| ==>
      nodes[j] < |tree.keys| && ar[j] == |tree.children[nodes[j]]| && olds[j] == tree.keys[nodes[j]]
    modifies tree
    ensures tree.Valid() && tree.parent == old(tree.parent) && tree.children == old(tree.children)
    ensures ok == DecodeLabels(compressed, ar, olds, 0).Some?
    ensures ok ==> |done| == |nodes| && done == DecodeLabels(compressed, ar, olds, 0).value
    ensures ok ==> tree.keys == Relabel(old(tree.keys), nodes, done)
  {
    ghost var keys0 := tree.keys;
    ghost var result := DecodeLabels(compressed, ar, olds, 0);
    done := [];
    var start: nat := 0;
    var k := 0;
    assert ar[0..] == ar && olds[0..] == olds;
    assert result.Some? ==> [] + result.value == result.value;
    while k < |nodes|
      invariant 0 <= k <= |nodes| && start <= |compressed| && |done| == k
      invariant tree.Valid() && |tree.keys| == |keys0|
      invariant tree.parent == old(tree.parent) && tree.children == old(tree.children)
      invariant tree.keys == Relabel(keys0, nodes[..k], done)
      invariant result == Prepend(done, DecodeLabels(compressed, ar[k..], olds[k..], start))
    {
      var node := nodes[k];
      assert node !in nodes[..k];
      RelabelOutside(keys0, nodes[..k], done, node);
      assert ar[k] == |tree.children[node]| && olds[k] == tree.keys[node];
      DecodeLabelsAt(compressed, ar, olds, k, start);
      var kai := DecompressLabel(compressed, tree, node, start);
      if kai.None? {
        return false, done;
      }
      PrependPrepend(done, kai.value.key, DecodeLabels(compressed, ar[k + 1..], olds[k + 1..], kai.value.index));
      RelabelSnoc(keys0, nodes, done, kai.value.key);
      start := kai.value.index;
      done := done + [kai.value.key];
      k := k + 1;
    }
    ok := true;
    assert nodes[..k] == nodes;
  }

  /**
   * decompressLabels: relabels the nodes below root in preorder.  `ok` is
   * false where decompressNode throws.
   */
  method DecompressLabels(compressed: seq<bool>, tree: Arena<string>, root: nat) returns (ok: bool)
    requires tree.Valid() && root < |tree.keys|
    modifies tree
    ensures tree.Valid() && |tree.keys| == old(|tree.keys|)
    ensures tree.parent == old(tree.parent) && tree.children == old(tree.children)
    ensures ok == DecodeLabels(compressed, old(Arities(tree.TreeAt(root))), old(Preorder(tree.TreeAt(root))), 0).Some?
    ensures ok ==> Preorder(tree.TreeAt(root)) == DecodeLabels(compressed, old(Arities(tree.TreeAt(root))), old(Preorder(tree.TreeAt(root))), 0).value
    ensures ok ==> Blank(tree.TreeAt(root)) == Blank(old(tree.TreeAt(root)))
  {
    var nodes := tree.GetPreorderNodes(root);
    tree.PreorderDistinct(root);
    tree.PreorderOfNodes(root);
    ghost var keys0 := tree.keys;
    ghost var ar := Arities(tree.TreeAt(root));
    ghost var olds := Preorder(tree.TreeAt(root));
    ghost var done;
    ok, done := RelabelNodes(compressed, tree, nodes, ar, olds);
    if ok {
      RelabelMapsTo(keys0, nodes, done);
      UnfoldMapsTo(tree.keys, tree.children, root);
      BlankUnfold(tree.keys, keys0, tree.children, root);
    }
  }
}
