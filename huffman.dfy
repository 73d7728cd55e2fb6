/**
 * The fixed order-1 Huffman tables of HuffmanMaps.java.  A pair "xy" is coded
 * in the context of its first character x; the decode table of a context maps
 * each code of that context back to the second character.  A table is a
 * partial function from two-character keys to codes: `None` is a key the
 * HashMap does not contain.
 */
module HuffmanMaps {

  import opened Wrappers

  /** Codes of unary (unpaired) symbols, keyed by context and symbol (initializeUnaryC). */
  function UnaryC(k: string): (code: Option<seq<bool>>)
  {
    if |k| != 2 then None
    else match k[0]
    case ';' =>
      (match k[1]
       case 'a' => Some([true, false])
       case 'c' => Some([true, true, false])
       case 'g' => Some([false])
       case 'u' => Some([true, true, true])
       case _ => None)
    case 'a' =>
      (match k[1]
       case ';' => Some([false])
       case 'a' => Some([true, false])
       case 'c' => Some([true, true, true, false])
       case 'g' => Some([true, true, true, true])
       case 'u' => Some([true, true, false])
       case _ => None)
    case 'c' =>
      (match k[1]
       case ';' => Some([false, false])
       case 'a' => Some([false, true])
       case 'c' => Some([true, true, false])
       case 'g' => Some([true, false])
       case 'u' => Some([true, true, true])
       case _ => None)
    case 'g' =>
      (match k[1]
       case ';' => Some([false, false])
       case 'a' => Some([false, true])
       case 'c' => Some([true, true, false])
       case 'g' => Some([true, true, true])
       case 'u' => Some([true, false])
       case _ => None)
    case 'u' =>
      (match k[1]
       case ';' => Some([false, false])
       case 'a' => Some([false, true])
       case 'c' => Some([true, true, false])
       case 'g' => Some([true, true, true])
       case 'u' => Some([true, false])
       case _ => None)
    case _ => None
  }

  /** Codes of binary (paired) symbols, keyed by context and symbol (initializeBinaryC). */
  function BinaryC(k: string): (code: Option<seq<bool>>)
  {
    if |k| != 2 then None
    else match k[0]
    case ';' =>
      (match k[1]
       case 'p' => Some([true, false, false])
       case 'q' => Some([true, true, false])
       case 'r' => Some([false, false])
       case 's' => Some([false, true])
       case 'x' => Some([true, true, true])
       case 'y' => Some([true, false, true])
       case _ => None)
    case 'p' =>
      (match k[1]
       case ';' => Some([true, false, false])
       case 'p' => Some([true, false, true])
       case 'q' => Some([true, true, false])
       case 'r' => Some([false, false])
       case 's' => Some([false, true])
       case 'x' => Some([true, true, true, true])
       case 'y' => Some([true, true, true, false])
       case _ => None)
    case 'q' =>
      (match k[1]
       case ';' => Some([false, false])
       case 'p' => Some([true, true, true, false])
       case 'q' => Some([true, true, false])
       case 'r' => Some([false, true])
       case 's' => Some([true, false])
       case 'x' => Some([true, true, true, true, true])
       case 'y' => Some([true, true, true, true, false])
       case _ => None)
    case 'r' =>
      (match k[1]
       case ';' => Some([false, false])
       case 'p' => Some([true, false, false])
       case 'q' => Some([true, false, true])
       case 'r' => Some([false, true])
       case 's' => Some([true, true, false])
       case 'x' => Some([true, true, true, true])
       case 'y' => Some([true, true, true, false])
       case _ => None)
    case 's' =>
      (match k[1]
       case ';' => Some([false, false])
       case 'p' => Some([true, true, false, false])
       case 'q' => Some([true, true, false, true])
       case 'r' => Some([false, true])
       case 's' => Some([true, false])
       case 'x' => Some([true, true, true, true])
       case 'y' => Some([true, true, true, false])
       case _ => None)
    case 'x' =>
      (match k[1]
       case ';' => Some([false, false])
       case 'p' => Some([true, true, true, false])
       case 'q' => Some([true, false, false])
       case 'r' => Some([false, true])
       case 's' => Some([true, false, true])
       case 'x' => Some([true, true, true, true])
       case 'y' => Some([true, true, false])
       case _ => None)
    case 'y' =>
      (match k[1]
       case ';' => Some([true, false, false])
       case 'p' => Some([true, false, true])
       case 'q' => Some([true, true, false])
       case 'r' => Some([false, false])
       case 's' => Some([false, true])
       case 'x' => Some([true, true, true, true])
       case 'y' => Some([true, true, true, false])
       case _ => None)
    case _ => None
  }

  /**
   * getUnaryD: the decode table of the context `previous` (the fields unaryD_a ...
   * unaryD_sc, each the slice of UnaryC whose keys start with that context,
   * inverted); any character outside a, c, g, u selects the table of ';'.
   */
  function UnaryD(previous: char): (d: map<seq<bool>, char>)
  {
    match previous
    case 'a' => map[[false] := ';', [true, false] := 'a', [true, true, true, false] := 'c', [true, true, true, true] := 'g', [true, true, false] := 'u']
    case 'c' => map[[false, false] := ';', [false, true] := 'a', [true, true, false] := 'c', [true, false] := 'g', [true, true, true] := 'u']
    case 'g' => map[[false, false] := ';', [false, true] := 'a', [true, true, false] := 'c', [true, true, true] := 'g', [true, false] := 'u']
    case 'u' => map[[false, false] := ';', [false, true] := 'a', [true, true, false] := 'c', [true, true, true] := 'g', [true, false] := 'u']
    case _ => map[[true, false] := 'a', [true, true, false] := 'c', [false] := 'g', [true, true, true] := 'u']
  }

  /** getBinaryD: as UnaryD, for the contexts p, q, r, s, x, y and ';'. */
  function BinaryD(previous: char): (d: map<seq<bool>, char>)
  {
    match previous
    case 'p' => map[[true, false, false] := ';', [true, false, true] := 'p', [true, true, false] := 'q', [false, false] := 'r', [false, true] := 's', [true, true, true, true] := 'x', [true, true, true, false] := 'y']
    case 'q' => map[[false, false] := ';', [true, true, true, false] := 'p', [true, true, false] := 'q', [false, true] := 'r', [true, false] := 's', [true, true, true, true, true] := 'x', [true, true, true, true, false] := 'y']
    case 'r' => map[[false, false] := ';', [true, false, false] := 'p', [true, false, true] := 'q', [false, true] := 'r', [true, true, false] := 's', [true, true, true, true] := 'x', [true, true, true, false] := 'y']
    case 's' => map[[false, false] := ';', [true, true, false, false] := 'p', [true, true, false, true] := 'q', [false, true] := 'r', [true, false] := 's', [true, true, true, true] := 'x', [true, true, true, false] := 'y']
    case 'x' => map[[false, false] := ';', [true, true, true, false] := 'p', [true, false, false] := 'q', [false, true] := 'r', [true, false, true] := 's', [true, true, true, true] := 'x', [true, true, false] := 'y']
    case 'y' => map[[true, false, false] := ';', [true, false, true] := 'p', [true, true, false] := 'q', [false, false] := 'r', [false, true] := 's', [true, true, true, true] := 'x', [true, true, true, false] := 'y']
    case _ => map[[true, false, false] := 'p', [true, true, false] := 'q', [false, false] := 'r', [false, true] := 's', [true, true, true] := 'x', [true, false, true] := 'y']
  }

  /** The context a decode table is chosen by: the previous character, or ';' outside the alphabet. */
  function UnaryContext(previous: char): (c: char)
    ensures c in ";acgu"
    ensures previous in "acgu" ==> c == previous
  {
    if previous in "acgu" then previous else ';'
  }

  function BinaryContext(previous: char): (c: char)
    ensures c in ";pqrsxy"
    ensures previous in "pqrsxy" ==> c == previous
  {
    if previous in "pqrsxy" then previous else ';'
  }

  predicate IsPrefix(u: seq<bool>, w: seq<bool>)
  {
    |u| <= |w| && w[..|u|] == u
  }

  /** Keys of UnaryC: ';' followed by a base, or a base followed by a base or ';'. */
  lemma UnaryKeys(k: string)
    ensures UnaryC(k).Some? <==> |k| == 2 && ((k[0] == ';' && k[1] in "acgu") || (k[0] in "acgu" && k[1] in "acgu;"))
  {
  }

  /** Keys of BinaryC: ';' followed by a pair symbol, or a pair symbol followed by a pair symbol or ';'. */
  lemma BinaryKeys(k: string)
    ensures BinaryC(k).Some? <==> |k| == 2 && ((k[0] == ';' && k[1] in "pqrsxy") || (k[0] in "pqrsxy" && k[1] in "pqrsxy;"))
  {
  }

  /** No pair is in both tables, so the order of the two lookups in compressLabels does not matter. */
  lemma TablesDisjoint(k: string)
    ensures !(UnaryC(k).Some? && BinaryC(k).Some?)
  {
    UnaryKeys(k);
    BinaryKeys(k);
  }

  /** Unary codes are 1 to 4 bits long, binary codes 2 to 5 bits. */
  lemma CodeLengths(k: string)
    ensures UnaryC(k).Some? ==> 1 <= |UnaryC(k).value| <= 4
    ensures BinaryC(k).Some? ==> 2 <= |BinaryC(k).value| <= 5
  {
  }

  /** Within one context no code is a proper prefix of another. */
  lemma UnaryPrefixFree(previous: char, u: seq<bool>, w: seq<bool>)
    requires u in UnaryD(previous) && w in UnaryD(previous) && IsPrefix(u, w)
    ensures u == w
  {
    if |u| < |w| {
      UnaryNoProperPrefix(previous, w, |u|);
    }
  }

  lemma UnaryNoProperPrefix(previous: char, w: seq<bool>, m: nat)
    requires w in UnaryD(previous) && m < |w|
    ensures w[..m] !in UnaryD(previous)
  {
    match previous
    case 'a' =>
      assert [] !in UnaryD(previous) && [true] !in UnaryD(previous) && [true, true] !in UnaryD(previous) && [true, true, true] !in UnaryD(previous);
      assert w == [false] || w == [true, false] || w == [true, true, true, false] || w == [true, true, true, true] || w == [true, true, false];
      if w == [false] {
        assert w[..m] == [];
      }
      if w == [true, false] {
        assert w[..m] == [] || w[..m] == [true];
      }
      if w == [true, true, true, false] {
        assert w[..m] == [] || w[..m] == [true] || w[..m] == [true, true] || w[..m] == [true, true, true];
      }
      if w == [true, true, true, true] {
        assert w[..m] == [] || w[..m] == [true] || w[..m] == [true, true] || w[..m] == [true, true, true];
      }
      if w == [true, true, false] {
        assert w[..m] == [] || w[..m] == [true] || w[..m] == [true, true];
      }
    case 'c' =>
      assert [] !in UnaryD(previous) && [false] !in UnaryD(previous) && [true] !in UnaryD(previous) && [true, true] !in UnaryD(previous);
      assert w == [false, false] || w == [false, true] || w == [true, true, false] || w == [true, false] || w == [true, true, true];
      if w == [false, false] {
        assert w[..m] == [] || w[..m] == [false];
      }
      if w == [false, true] {
        assert w[..m] == [] || w[..m] == [false];
      }
      if w == [true, true, false] {
        assert w[..m] == [] || w[..m] == [true] || w[..m] == [true, true];
      }
      if w == [true, false] {
        assert w[..m] == [] || w[..m] == [true];
      }
      if w == [true, true, true] {
        assert w[..m] == [] || w[..m] == [true] || w[..m] == [true, true];
      }
    case 'g' =>
      assert [] !in UnaryD(previous) && [false] !in UnaryD(previous) && [true] !in UnaryD(previous) && [true, true] !in UnaryD(previous);
      assert w == [false, false] || w == [false, true] || w == [true, true, false] || w == [true, true, true] || w == [true, false];
      if w == [false, false] {
        assert w[..m] == [] || w[..m] == [false];
      }
      if w == [false, true] {
        assert w[..m] == [] || w[..m] == [false];
      }
      if w == [true, true, false] {
        assert w[..m] == [] || w[..m] == [true] || w[..m] == [true, true];
      }
      if w == [true, true, true] {
        assert w[..m] == [] || w[..m] == [true] || w[..m] == [true, true];
      }
      if w == [true, false] {
        assert w[..m] == [] || w[..m] == [true];
      }
    case 'u' =>
      assert [] !in UnaryD(previous) && [false] !in UnaryD(previous) && [true] !in UnaryD(previous) && [true, true] !in UnaryD(previous);
      assert w == [false, false] || w == [false, true] || w == [true, true, false] || w == [true, true, true] || w == [true, false];
      if w == [false, false] {
        assert w[..m] == [] || w[..m] == [false];
      }
      if w == [false, true] {
        assert w[..m] == [] || w[..m] == [false];
      }
      if w == [true, true, false] {
        assert w[..m] == [] || w[..m] == [true] || w[..m] == [true, true];
      }
      if w == [true, true, true] {
        assert w[..m] == [] || w[..m] == [true] || w[..m] == [true, true];
      }
      if w == [true, false] {
        assert w[..m] == [] || w[..m] == [true];
      }
    case _ =>
      assert [] !in UnaryD(previous) && [true] !in UnaryD(previous) && [true, true] !in UnaryD(previous);
      assert w == [true, false] || w == [true, true, false] || w == [false] || w == [true, true, true];
      if w == [true, false] {
        assert w[..m] == [] || w[..m] == [true];
      }
      if w == [true, true, false] {
        assert w[..m] == [] || w[..m] == [true] || w[..m] == [true, true];
      }
      if w == [false] {
        assert w[..m] == [];
      }
      if w == [true, true, true] {
        assert w[..m] == [] || w[..m] == [true] || w[..m] == [true, true];
      }
  }

  lemma BinaryPrefixFree(previous: char, u: seq<bool>, w: seq<bool>)
    requires u in BinaryD(previous) && w in BinaryD(previous) && IsPrefix(u, w)
    ensures u == w
  {
    if |u| < |w| {
      BinaryNoProperPrefix(previous, w, |u|);
    }
  }

  /** No codeword of a binary decode table is a proper prefix of another one. */
  lemma BinaryNoProperPrefix(previous: char, w: seq<bool>, m: nat)
    requires w in BinaryD(previous) && m < |w|
    ensures w[..m] !in BinaryD(previous)
  {
    match previous
    case 'p' => BinaryNoProperPrefixP(previous, w, m);
    case 'q' => BinaryNoProperPrefixQ(previous, w, m);
    case 'r' => BinaryNoProperPrefixR(previous, w, m);
    case 's' => BinaryNoProperPrefixS(previous, w, m);
    case 'x' => BinaryNoProperPrefixX(previous, w, m);
    case 'y' => BinaryNoProperPrefixY(previous, w, m);
    case _ => BinaryNoProperPrefixStart(previous, w, m);
  }

  lemma BinaryNoProperPrefixP(previous: char, w: seq<bool>, m: nat)
    requires previous == 'p' && w in BinaryD(previous) && m < |w|
    ensures w[..m] !in BinaryD(previous)
  {
    assert [] !in BinaryD(previous) && [true] !in BinaryD(previous) && [true, false] !in BinaryD(previous) && [true, true] !in BinaryD(previous) && [false] !in BinaryD(previous) && [true, true, true] !in BinaryD(previous);
    assert w == [true, false, false] || w == [true, false, true] || w == [true, true, false] || w == [false, false] || w == [false, true] || w == [true, true, true, true] || w == [true, true, true, false];
    if w == [true, false, false] {
      assert w[..m] == [] || w[..m] == [true] || w[..m] == [true, false];
    }
    if w == [true, false, true] {
      assert w[..m] == [] || w[..m] == [true] || w[..m] == [true, false];
    }
    if w == [true, true, false] {
      assert w[..m] == [] || w[..m] == [true] || w[..m] == [true, true];
    }
    if w == [false, false] {
      assert w[..m] == [] || w[..m] == [false];
    }
    if w == [false, true] {
      assert w[..m] == [] || w[..m] == [false];
    }
    if w == [true, true, true, true] {
      assert w[..m] == [] || w[..m] == [true] || w[..m] == [true, true] || w[..m] == [true, true, true];
    }
    if w == [true, true, true, false] {
      assert w[..m] == [] || w[..m] == [true] || w[..m] == [true, true] || w[..m] == [true, true, true];
    }
  }

  lemma BinaryNoProperPrefixQ(previous: char, w: seq<bool>, m: nat)
    requires previous == 'q' && w in BinaryD(previous) && m < |w|
    ensures w[..m] !in BinaryD(previous)
  {
    assert [] !in BinaryD(previous) && [false] !in BinaryD(previous) && [true] !in BinaryD(previous) && [true, true] !in BinaryD(previous) && [true, true, true] !in BinaryD(previous) && [true, true, true, true] !in BinaryD(previous);
    assert w == [false, false] || w == [true, true, true, false] || w == [true, true, false] || w == [false, true] || w == [true, false] || w == [true, true, true, true, true] || w == [true, true, true, true, false];
    if w == [false, false] {
      assert w[..m] == [] || w[..m] == [false];
    }
    if w == [true, true, true, false] {
      assert w[..m] == [] || w[..m] == [true] || w[..m] == [true, true] || w[..m] == [true, true, true];
    }
    if w == [true, true, false] {
      assert w[..m] == [] || w[..m] == [true] || w[..m] == [true, true];
    }
    if w == [false, true] {
      assert w[..m] == [] || w[..m] == [false];
    }
    if w == [true, false] {
      assert w[..m] == [] || w[..m] == [true];
    }
    if w == [true, true, true, true, true] {
      assert w[..m] == [] || w[..m] == [true] || w[..m] == [true, true] || w[..m] == [true, true, true] || w[..m] == [true, true, true, true];
    }
    if w == [true, true, true, true, false] {
      assert w[..m] == [] || w[..m] == [true] || w[..m] == [true, true] || w[..m] == [true, true, true] || w[..m] == [true, true, true, true];
    }
  }

  lemma BinaryNoProperPrefixR(previous: char, w: seq<bool>, m: nat)
    requires previous == 'r' && w in BinaryD(previous) && m < |w|
    ensures w[..m] !in BinaryD(previous)
  {
    assert [] !in BinaryD(previous) && [false] !in BinaryD(previous) && [true] !in BinaryD(previous) && [true, false] !in BinaryD(previous) && [true, true] !in BinaryD(previous) && [true, true, true] !in BinaryD(previous);
    assert w == [false, false] || w == [true, false, false] || w == [true, false, true] || w == [false, true] || w == [true, true, false] || w == [true, true, true, true] || w == [true, true, true, false];
    if w == [false, false] {
      assert w[..m] == [] || w[..m] == [false];
    }
    if w == [true, false, false] {
      assert w[..m] == [] || w[..m] == [true] || w[..m] == [true, false];
    }
    if w == [true, false, true] {
      assert w[..m] == [] || w[..m] == [true] || w[..m] == [true, false];
    }
    if w == [false, true] {
      assert w[..m] == [] || w[..m] == [false];
    }
    if w == [true, true, false] {
      assert w[..m] == [] || w[..m] == [true] || w[..m] == [true, true];
    }
    if w == [true, true, true, true] {
      assert w[..m] == [] || w[..m] == [true] || w[..m] == [true, true] || w[..m] == [true, true, true];
    }
    if w == [true, true, true, false] {
      assert w[..m] == [] || w[..m] == [true] || w[..m] == [true, true] || w[..m] == [true, true, true];
    }
  }

  lemma BinaryNoProperPrefixS(previous: char, w: seq<bool>, m: nat)
    requires previous == 's' && w in BinaryD(previous) && m < |w|
    ensures w[..m] !in BinaryD(previous)
  {
    assert [] !in BinaryD(previous) && [false] !in BinaryD(previous) && [true] !in BinaryD(previous) && [true, true] !in BinaryD(previous) && [true, true, false] !in BinaryD(previous) && [true, true, true] !in BinaryD(previous);
    assert w == [false, false] || w == [true, true, false, false] || w == [true, true, false, true] || w == [false, true] || w == [true, false] || w == [true, true, true, true] || w == [true, true, true, false];
    if w == [false, false] {
      assert w[..m] == [] || w[..m] == [false];
    }
    if w == [true, true, false, false] {
      assert w[..m] == [] || w[..m] == [true] || w[..m] == [true, true] || w[..m] == [true, true, false];
    }
    if w == [true, true, false, true] {
      assert w[..m] == [] || w[..m] == [true] || w[..m] == [true, true] || w[..m] == [true, true, false];
    }
    if w == [false, true] {
      assert w[..m] == [] || w[..m] == [false];
    }
    if w == [true, false] {
      assert w[..m] == [] || w[..m] == [true];
    }
    if w == [true, true, true, true] {
      assert w[..m] == [] || w[..m] == [true] || w[..m] == [true, true] || w[..m] == [true, true, true];
    }
    if w == [true, true, true, false] {
      assert w[..m] == [] || w[..m] == [true] || w[..m] == [true, true] || w[..m] == [true, true, true];
    }
  }

  lemma BinaryNoProperPrefixX(previous: char, w: seq<bool>, m: nat)
    requires previous == 'x' && w in BinaryD(previous) && m < |w|
    ensures w[..m] !in BinaryD(previous)
  {
    assert [] !in BinaryD(previous) && [false] !in BinaryD(previous) && [true] !in BinaryD(previous) && [true, true] !in BinaryD(previous) && [true, true, true] !in BinaryD(previous) && [true, false] !in BinaryD(previous);
    assert w == [false, false] || w == [true, true, true, false] || w == [true, false, false] || w == [false, true] || w == [true, false, true] || w == [true, true, true, true] || w == [true, true, false];
    if w == [false, false] {
      assert w[..m] == [] || w[..m] == [false];
    }
    if w == [true, true, true, false] {
      assert w[..m] == [] || w[..m] == [true] || w[..m] == [true, true] || w[..m] == [true, true, true];
    }
    if w == [true, false, false] {
      assert w[..m] == [] || w[..m] == [true] || w[..m] == [true, false];
    }
    if w == [false, true] {
      assert w[..m] == [] || w[..m] == [false];
    }
    if w == [true, false, true] {
      assert w[..m] == [] || w[..m] == [true] || w[..m] == [true, false];
    }
    if w == [true, true, true, true] {
      assert w[..m] == [] || w[..m] == [true] || w[..m] == [true, true] || w[..m] == [true, true, true];
    }
    if w == [true, true, false] {
      assert w[..m] == [] || w[..m] == [true] || w[..m] == [true, true];
    }
  }

  lemma BinaryNoProperPrefixY(previous: char, w: seq<bool>, m: nat)
    requires previous == 'y' && w in BinaryD(previous) && m < |w|
    ensures w[..m] !in BinaryD(previous)
  {
    assert [] !in BinaryD(previous) && [true] !in BinaryD(previous) && [true, false] !in BinaryD(previous) && [true, true] !in BinaryD(previous) && [false] !in BinaryD(previous) && [true, true, true] !in BinaryD(previous);
    assert w == [true, false, false] || w == [true, false, true] || w == [true, true, false] || w == [false, false] || w == [false, true] || w == [true, true, true, true] || w == [true, true, true, false];
    if w == [true, false, false] {
      assert w[..m] == [] || w[..m] == [true] || w[..m] == [true, false];
    }
    if w == [true, false, true] {
      assert w[..m] == [] || w[..m] == [true] || w[..m] == [true, false];
    }
    if w == [true, true, false] {
      assert w[..m] == [] || w[..m] == [true] || w[..m] == [true, true];
    }
    if w == [false, false] {
      assert w[..m] == [] || w[..m] == [false];
    }
    if w == [false, true] {
      assert w[..m] == [] || w[..m] == [false];
    }
    if w == [true, true, true, true] {
      assert w[..m] == [] || w[..m] == [true] || w[..m] == [true, true] || w[..m] == [true, true, true];
    }
    if w == [true, true, true, false] {
      assert w[..m] == [] || w[..m] == [true] || w[..m] == [true, true] || w[..m] == [true, true, true];
    }
  }

  lemma BinaryNoProperPrefixStart(previous: char, w: seq<bool>, m: nat)
    requires previous !in "pqrsxy" && w in BinaryD(previous) && m < |w|
    ensures w[..m] !in BinaryD(previous)
  {
    assert [] !in BinaryD(previous) && [true] !in BinaryD(previous) && [true, false] !in BinaryD(previous) && [true, true] !in BinaryD(previous) && [false] !in BinaryD(previous);
    assert w == [true, false, false] || w == [true, true, false] || w == [false, false] || w == [false, true] || w == [true, true, true] || w == [true, false, true];
    if w == [true, false, false] {
      assert w[..m] == [] || w[..m] == [true] || w[..m] == [true, false];
    }
    if w == [true, true, false] {
      assert w[..m] == [] || w[..m] == [true] || w[..m] == [true, true];
    }
    if w == [false, false] {
      assert w[..m] == [] || w[..m] == [false];
    }
    if w == [false, true] {
      assert w[..m] == [] || w[..m] == [false];
    }
    if w == [true, true, true] {
      assert w[..m] == [] || w[..m] == [true] || w[..m] == [true, true];
    }
    if w == [true, false, true] {
      assert w[..m] == [] || w[..m] == [true] || w[..m] == [true, false];
    }
  }

  /** Each decode table inverts its slice of the code table: a code decodes to the second character of its key. */
  lemma UnaryDecodeInverts(k: string)
    requires UnaryC(k).Some?
    ensures UnaryC(k).value in UnaryD(k[0]) && UnaryD(k[0])[UnaryC(k).value] == k[1]
  {
  }

  lemma BinaryDecodeInverts(k: string)
    requires BinaryC(k).Some?
    ensures BinaryC(k).value in BinaryD(k[0]) && BinaryD(k[0])[BinaryC(k).value] == k[1]
  {
  }

  /** ... and holds nothing else: every entry comes from a key of its context. */
  lemma UnaryDecodeExact(previous: char, w: seq<bool>)
    requires w in UnaryD(previous)
    ensures UnaryC([UnaryContext(previous), UnaryD(previous)[w]]) == Some(w)
  {
  }

  lemma BinaryDecodeExact(previous: char, w: seq<bool>)
    requires w in BinaryD(previous)
    ensures BinaryC([BinaryContext(previous), BinaryD(previous)[w]]) == Some(w)
  {
  }
}
