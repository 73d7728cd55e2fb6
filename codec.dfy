/**
 * The standard format of RNAContract: compress and decompress.  The bits are
 * the topology code of the contracted tree followed by one preorder stream of
 * label codes; decompress reads the shape, relabels it and spells it out.
 */
module Codec {
  import opened Wrappers
  import opened Trees
  import opened Arenas
  import opened StrictTrees
  import opened StrictShapes
  import opened LabelCodec
  import opened Topology
  import opened Contraction
  import opened Reconstruction

  // ---------------------------------------------------------------------
  // Compression
  // ---------------------------------------------------------------------

  /** The contracted tree compress builds for the lower-cased sequence. */
  function ContractedOf(sequence: string, structure: string): Tree<string>
    requires |sequence| == |structure|
  {
    Contract(StrictAt(Lower(sequence), structure, 0))
  }

  /** The bits of the standard format: the topology code, then the label stream. */
  function Compression(sequence: string, structure: string): seq<bool>
    requires |sequence| == |structure|
  {
    var t := ContractedOf(sequence, structure);
    TopologyCode(t) + LabelCode(Preorder(t))
  }

  /** compress: builds the contracted tree and concatenates its two codes. */
  method Compress(sequence: string, structure: string) returns (compression: seq<bool>)
    requires Buildable(Lower(sequence), structure)
    ensures compression == Compression(sequence, structure)
  {
    var tree, root := BuildContractedTree(Lower(sequence), structure);
    var topology := CompressUnlabeledTree(tree, root);
    var labels := CompressLabels(tree, root);
    compression := topology + labels;
  }

  /** A closed structure is nested: it never closes more pairs than it opened. */
  lemma {:induction false} ClosedNested(d: string, x: nat, c: nat)
    requires x <= |d| && Closed(d, x, c)
    ensures Nested(d, x, c)
    decreases |d| - x
  {
    if x < |d| {
      if d[x] == '.' {
        ClosedNested(d, x + 1, c);
      } else if d[x] == '(' {
        ClosedNested(d, x + 1, c + 1);
      } else {
        ClosedNested(d, x + 1, c - 1);
      }
    }
  }

  /** Every well-formed input, in lower case, is one compress accepts. */
  lemma WellFormedBuildable(sequence: string, structure: string)
    requires WellFormed(Lower(sequence), structure)
    ensures Buildable(Lower(sequence), structure)
  {
    ClosedNested(structure, 0, 0);
  }

  // ---------------------------------------------------------------------
  // What a contracted tree offers the decoders
  // ---------------------------------------------------------------------

  /** A contracted tree has at most two children per node. */
  lemma {:induction false} ContractedRanked(t: Tree<string>)
    requires Contracted(t)
    ensures Ranked(t)
  {
    forall i | 0 <= i < |t.children| ensures Ranked(t.children[i]) {
      ContractedRanked(t.children[i]);
    }
  }

  /** A contracted tree carries at every node the label its child count calls for. */
  lemma {:induction false} ContractedLabelled(t: Tree<string>)
    requires Contracted(t)
    ensures Labelled(t)
  {
    forall i | 0 <= i < |t.children| ensures Labelled(t.children[i]) {
      ContractedLabelled(t.children[i]);
    }
  }

  // ---------------------------------------------------------------------
  // Decoded labels always spell out
  // ---------------------------------------------------------------------

  /** Every node with two children carries a label of pair symbols. */
  ghost predicate PairsFit(ar: seq<nat>, ls: seq<string>)
  {
    |ar| == |ls| && forall k :: 0 <= k < |ar| && ar[k] == 2 ==> PairKeys(ls[k])
  }

  lemma PairsFitSplit(a1: seq<nat>, l1: seq<string>, a2: seq<nat>, l2: seq<string>)
    requires |a1| == |l1| && |a2| == |l2| && PairsFit(a1 + a2, l1 + l2)
    ensures PairsFit(a1, l1) && PairsFit(a2, l2)
  {
    forall k | 0 <= k < |a2| && a2[k] == 2 ensures PairKeys(l2[k]) {
      assert (a1 + a2)[|a1| + k] == a2[k] && (l1 + l2)[|l1| + k] == l2[k];
    }
    forall k | 0 <= k < |a1| && a1[k] == 2 ensures PairKeys(l1[k]) {
      assert (a1 + a2)[k] == a1[k] && (l1 + l2)[k] == l1[k];
    }
  }

  lemma {:induction false} PairsFitFlatten(as_: seq<seq<nat>>, ls: seq<seq<string>>)
    requires |as_| == |ls| && forall i :: 0 <= i < |as_| ==> |as_[i]| == |ls[i]|
    requires PairsFit(Flatten(as_), Flatten(ls))
    ensures forall i :: 0 <= i < |as_| ==> PairsFit(as_[i], ls[i])
  {
    if as_ != [] {
      var ns := seq(|as_| - 1, i requires 0 <= i < |as_| - 1 => |as_[i + 1]|);
      FlattenLengths(as_[1..], ns);
      FlattenLengths(ls[1..], ns);
      PairsFitSplit(as_[0], ls[0], Flatten(as_[1..]), Flatten(ls[1..]));
      PairsFitFlatten(as_[1..], ls[1..]);
      forall i | 1 <= i < |as_| ensures PairsFit(as_[i], ls[i]) {
        assert as_[1..][i - 1] == as_[i] && ls[1..][i - 1] == ls[i];
      }
    }
  }

  /** A tree whose preorder labels fit its preorder child counts spells out. */
  lemma {:induction false} SpellableOfFit(t: Tree<string>)
    requires PairsFit(Arities(t), Preorder(t))
    ensures Spellable(t)
  {
    var a := ArityTree(t);
    var as_, ls := ChildPreorders(a), ChildPreorders(t);
    assert Arities(t)[0] == |t.children| && Preorder(t)[0] == t.key;
    forall i | 0 <= i < |as_| ensures |as_[i]| == |ls[i]| && as_[i] == Arities(t.children[i]) {
      assert a.children[i] == ArityTree(t.children[i]);
      assert as_[i] == Preorder(a.children[i]) && ls[i] == Preorder(t.children[i]);
      assert |Arities(t.children[i])| == Size(t.children[i]);
    }
    FlattenLengths(as_, seq(|as_|, i requires 0 <= i < |as_| => |as_[i]|));
    FlattenLengths(ls, seq(|as_|, i requires 0 <= i < |as_| => |as_[i]|));
    PairsFitSplit([a.key], [t.key], Flatten(as_), Flatten(ls));
    PairsFitFlatten(as_, ls);
    forall i | 0 <= i < |t.children| ensures Spellable(t.children[i]) {
      SpellableOfFit(t.children[i]);
    }
  }

  /** Whatever decompressLabels produces gives a label of pair symbols to every binary node. */
  lemma {:induction false} DecodedPairsFit(bits: seq<bool>, ar: seq<nat>, olds: seq<string>, start: nat)
    requires |ar| == |olds| && start <= |bits| && DecodeLabels(bits, ar, olds, start).Some?
    ensures PairsFit(ar, DecodeLabels(bits, ar, olds, start).value)
    decreases |ar|
  {
    if ar != [] {
      var step := LabelStep(bits, ar[0], olds[0], start).value;
      if ar[0] == 2 {
        DecodeNodeSound(bits, false, start);
      }
      DecodedPairsFit(bits, ar[1..], olds[1..], step.index);
      var ls := DecodeLabels(bits, ar, olds, start).value;
      assert ls == [step.key] + DecodeLabels(bits, ar[1..], olds[1..], step.index).value;
      forall k | 1 <= k < |ar| && ar[k] == 2 ensures PairKeys(ls[k]) {
        assert ar[1..][k - 1] == ar[k];
      }
    }
  }

  // ---------------------------------------------------------------------
  // Decompression
  // ---------------------------------------------------------------------

  /**
   * The bits start with the standard code of the ranked, labelled tree t:
   * its topology code, then its label stream, then anything.
   */
  ghost predicate Encodes(t: Tree<string>, bits: seq<bool>)
  {
    Guides(t, bits) && Labelled(t) &&
    var code, rest := LabelCode(Preorder(t)), Rest(t, bits);
    |code| <= |rest| && rest[..|code|] == code
  }

  lemma {:induction false} BlankBlank(t: Tree<string>)
    ensures Blank(Blank(t)) == Blank(t)
  {
    forall i | 0 <= i < |t.children| ensures Blank(Blank(t)).children[i] == Blank(t).children[i] {
      BlankBlank(t.children[i]);
    }
  }

  /** On the shape decoded from an encoding of t, decompressLabels reads back t's labels. */
  lemma EncodedLabels(target: Tree<string>, compressed: seq<bool>, remaining: seq<bool>, shape: Tree<string>)
    requires Guides(target, compressed) ==> remaining == compressed[|TopologyCode(target)|..] && shape == Blank(target)
    ensures Encodes(target, compressed) ==>
      DecodeLabels(remaining, Arities(shape), Preorder(shape), 0) == Some(Preorder(target))
  {
    if Encodes(target, compressed) {
      var code := LabelCode(Preorder(target));
      var rest := remaining[|code|..];
      assert remaining == code + rest;
      BlankBlank(target);
      ArityOfShape(shape, target);
      SizeOfShape(shape, target);
      LabelsRoundTrip(target, rest, Preorder(shape));
    }
  }

  /** A decoded leaf is labelled "e", whatever the bits. */
  lemma LeafDecodes(bits: seq<bool>, shape: Tree<string>)
    ensures |shape.children| == 0 ==> DecodeLabels(bits, Arities(shape), Preorder(shape), 0) == Some(["e"])
  {
    if |shape.children| == 0 {
      assert Arities(shape) == [0] && Preorder(shape) == [shape.key];
      assert LabelStep(bits, 0, shape.key, 0) == Some(KeyAndIndex("e", 0));
      assert DecodeLabels(bits, [0][1..], [shape.key][1..], 0) == Some([]);
      assert DecodeLabels(bits, [0], [shape.key], 0) == Some(["e"] + []);
      assert ["e"] + [] == ["e"];
    }
  }

  /** A tree with t's shape and t's preorder labels is t. */
  lemma Rebuilt(target: Tree<string>, shape: Tree<string>, final: Tree<string>)
    requires Blank(final) == Blank(shape)
    ensures shape == Blank(target) && Preorder(final) == Preorder(target) ==> final == target
  {
    if shape == Blank(target) && Preorder(final) == Preorder(target) {
      BlankBlank(target);
      ShapeAndPreorder(final, target);
    }
  }

  /**
   * decompress: reads the shape (which drops the topology bits), relabels it
   * from the remaining bits and spells it out; None where the source throws.
   * `target` is ghost: when the bits encode it, the result is its reading.
   */
  method Decompress(compressed: seq<bool>, ghost target: Tree<string>) returns (r: Option<(string, string)>)
    ensures r.Some? ==> |r.value.0| == |r.value.1| && forall i :: 0 <= i < |r.value.1| ==> r.value.1[i] in ".()"
    ensures |compressed| == 0 ==> r == Some(("", ""))
    ensures Encodes(target, compressed) ==> Spellable(target) && r == Some(Rna(target))
  {
    var tree, remaining := DecompressUnlabeledTree(compressed, target);
    ghost var shape := tree.TreeAt(0);
    EncodedLabels(target, compressed, remaining, shape);
    LeafDecodes(remaining, shape);
    var ok := DecompressLabels(remaining, tree, 0);
    if !ok {
      return None;
    }
    ghost var final := tree.TreeAt(0);
    DecodedPairsFit(remaining, Arities(shape), Preorder(shape), 0);
    ArityOfShape(final, shape);
    SpellableOfFit(final);
    Rebuilt(target, shape, final);
    RnaLengths(final);
    var sequence, structure := TreeToRna(tree, 0);
    r := Some((sequence, structure));
  }

  // ---------------------------------------------------------------------
  // The round trip
  // ---------------------------------------------------------------------

  /**
   * The tree decompress reads back from compress: the contracted tree, except
   * that the "f" leaf of the empty structure comes back as an "e" leaf.
   */
  function ReadBack(sequence: string, structure: string): Tree<string>
    requires |sequence| == |structure|
  {
    if |structure| == 0 then Node("e", []) else ContractedOf(sequence, structure)
  }

  /** The standard code of a ranked, labelled tree, followed by any padding, encodes it. */
  lemma CodeEncodes(t: Tree<string>, padding: seq<bool>)
    requires Ranked(t) && Labelled(t)
    ensures Encodes(t, TopologyCode(t) + LabelCode(Preorder(t)) + padding)
  {
    var code, labels := TopologyCode(t), LabelCode(Preorder(t));
    var bits := code + labels + padding;
    assert bits == code + (labels + padding);
    assert bits[..|code|] == code;
    assert Rest(t, bits) == labels + padding;
  }

  /** The code of the "f" leaf, followed by any padding, encodes the "e" leaf. */
  lemma LeafEncodes(padding: seq<bool>)
    ensures Encodes(Node("e", []), TopologyCode(Node("f", [])) + LabelCode(Preorder(Node("f", []))) + padding)
  {
    var e, f := Node("e", []), Node("f", []);
    assert TopologyCode(e) == TopologyCode(f) == [false];
    LeavesSilent();
    assert Preorder(f) == ["f"] && Preorder(e) == ["e"];
    assert Joined(["f"]) == ";" + "f" + ";" && Joined(["e"]) == ";" + "e" + ";";
    assert LabelCode(Preorder(f)) == [] && LabelCode(Preorder(e)) == [];
    CodeEncodes(e, padding);
  }

  /**
   * The output of compress, followed by any padding, encodes the tree read
   * back, and that tree spells out the input in upper case.
   */
  lemma CompressionEncodes(sequence: string, structure: string, padding: seq<bool>)
    requires WellFormed(Lower(sequence), structure) && Canonical(Lower(sequence), structure)
    ensures Encodes(ReadBack(sequence, structure), Compression(sequence, structure) + padding)
    ensures Spellable(ReadBack(sequence, structure))
    ensures Rna(ReadBack(sequence, structure)) == (Upper(sequence), structure)
  {
    var t := ContractedOf(sequence, structure);
    ContractedTreeShape(Lower(sequence), structure);
    RnaRoundTrip(sequence, structure);
    if |structure| == 0 {
      LeafEncodes(padding);
      assert Upper(sequence) == "";
    } else {
      ContractedRanked(t);
      ContractedLabelled(t);
      CodeEncodes(t, padding);
    }
  }

  /**
   * decompress(compress(sequence, structure)), with any bits after the code:
   * the upper-cased sequence and the structure, for every well-formed input
   * whose pairs are canonical.
   */
  method RoundTrip(sequence: string, structure: string, padding: seq<bool>) returns (r: Option<(string, string)>)
    requires WellFormed(Lower(sequence), structure) && Canonical(Lower(sequence), structure)
    ensures r == Some((Upper(sequence), structure))
  {
    WellFormedBuildable(sequence, structure);
    var compression := Compress(sequence, structure);
    CompressionEncodes(sequence, structure, padding);
    r := Decompress(compression + padding, ReadBack(sequence, structure));
  }
}
