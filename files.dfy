// The two formats end to end: the alternative round trip, and compressFile /
// decompressFile with the bit list written and read as bytes (files are not
// modelled: the bytes are the file's contents).

module RnaFiles {
  import opened Wrappers
  import opened Trees
  import opened StrictTrees
  import opened StrictShapes
  import opened Contraction
  import opened Reconstruction
  import opened Codec
  import opened Alternative
  import opened AlternativeDecoding
  import opened BitStreams

  /** The contracted tree of a non-empty well-formed input is one the alternative decoder rebuilds. */
  lemma ContractedInner(sequence: string, structure: string)
    requires WellFormed(Lower(sequence), structure) && |structure| > 0
    ensures Inner(ContractedOf(sequence, structure))
  {
    var t := StrictAt(Lower(sequence), structure, 0);
    StrictTreeShape(Lower(sequence), structure);
    ContractedTreeShape(Lower(sequence), structure);
    assert |Preorder(t)| >= 2;
    assert |t.children| > 0;
  }

  /** The empty structure contracts to the single "f" leaf, which has no alternative code. */
  lemma EmptyAltCode(sequence: string, structure: string)
    requires WellFormed(Lower(sequence), structure) && |structure| == 0
    ensures AltCode(ContractedOf(sequence, structure)) == []
  {
    ContractedTreeShape(Lower(sequence), structure);
    assert ContractedOf(sequence, structure) == Node("f", []);
  }

  /**
   * decompressAlternative(compressAlternative(sequence, structure)), with any
   * bits after the code when the structure is not empty: the upper-cased
   * sequence and the structure, for every well-formed input whose pairs are canonical.
   */
  method AltRoundTrip(sequence: string, structure: string, padding: seq<bool>) returns (r: Option<(string, string)>)
    requires WellFormed(Lower(sequence), structure) && Canonical(Lower(sequence), structure)
    requires |structure| > 0 || padding == []
    ensures r == Some((Upper(sequence), structure))
  {
    var bits := CompressAlternative(sequence, structure);
    ghost var t := ContractedOf(sequence, structure);
    RnaRoundTrip(sequence, structure);
    if |structure| == 0 {
      EmptyAltCode(sequence, structure);
      assert bits + padding == [];
    } else {
      ContractedInner(sequence, structure);
      assert (bits + padding)[..|bits|] == bits;
      assert AltEncodes(t, bits + padding);
    }
    r := DecompressAlternative(bits + padding, t);
  }

  /** The bits compressFile hands to writeBits, in the format the flag selects. */
  function Code(sequence: string, structure: string, alternative: bool): seq<bool>
    requires |sequence| == |structure|
  {
    if alternative then AltCode(ContractedOf(sequence, structure)) else Compression(sequence, structure)
  }

  /** compressFile without the files: the code, padded and packed into bytes. */
  method CompressFile(sequence: string, structure: string, alternative: bool) returns (bytes: array<bv8>)
    requires if alternative then WellFormed(Lower(sequence), structure) else Buildable(Lower(sequence), structure)
    ensures fresh(bytes) && |sequence| == |structure|
    ensures Unpacked(bytes[..]) == Padded(Code(sequence, structure, alternative))
  {
    var bits;
    if alternative {
      bits := CompressAlternative(sequence, structure);
    } else {
      bits := Compress(sequence, structure);
    }
    var list := new BitList(bits);
    bytes := WriteBits(list);
    UnpackPacked(list.items, bytes[..]);
  }

  /** decompressFile without the files: the bytes unpacked, then decoded in the format the flag selects. */
  method DecompressFile(bytes: seq<bv8>, alternative: bool, ghost target: Tree<string>) returns (r: Option<(string, string)>)
    ensures r.Some? ==> |r.value.0| == |r.value.1| && forall i :: 0 <= i < |r.value.1| ==> r.value.1[i] in ".()"
    ensures |bytes| == 0 ==> r == Some(("", ""))
    ensures alternative && AltEncodes(target, Unpacked(bytes)) ==> Spellable(target) && r == Some(Rna(target))
    ensures !alternative && Encodes(target, Unpacked(bytes)) ==> Spellable(target) && r == Some(Rna(target))
  {
    var bits := ReadBits(bytes);
    if alternative {
      r := DecompressAlternative(bits, target);
    } else {
      r := Decompress(bits, target);
    }
  }

  /** The padding writeBits adds is bits after the code. */
  lemma PaddedSplit(b: seq<bool>)
    ensures Padded(b) == b + Padded(b)[|b|..]
  {
    assert Padded(b)[..|b|] == b;
  }

  /**
   * decompressFile(compressFile(...)) in either format: the upper-cased sequence
   * and the structure, for every well-formed input whose pairs are canonical.
   */
  method FileRoundTrip(sequence: string, structure: string, alternative: bool) returns (r: Option<(string, string)>)
    requires WellFormed(Lower(sequence), structure) && Canonical(Lower(sequence), structure)
    ensures r == Some((Upper(sequence), structure))
  {
    WellFormedBuildable(sequence, structure);
    var bytes := CompressFile(sequence, structure, alternative);
    ghost var code := Code(sequence, structure, alternative);
    ghost var padding := Padded(code)[|code|..];
    PaddedSplit(code);
    RnaRoundTrip(sequence, structure);
    ghost var target;
    if alternative {
      target := ContractedOf(sequence, structure);
      if |structure| == 0 {
        EmptyAltCode(sequence, structure);
        PaddedEmpty();
        assert Unpacked(bytes[..]) == [];
        assert |bytes[..]| == 0;
      } else {
        ContractedInner(sequence, structure);
        assert Unpacked(bytes[..])[..|code|] == code;
      }
    } else {
      target := ReadBack(sequence, structure);
      CompressionEncodes(sequence, structure, padding);
    }
    r := DecompressFile(bytes[..], alternative, target);
  }
}
