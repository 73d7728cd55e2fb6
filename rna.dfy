/**
 * treeToRNA / recursiveTreeToRNA: a contracted tree is read back into an RNA
 * sequence and its dot-bracket structure.  A unary node gives its label in
 * upper case and one '.' per base; a binary node gives, per pair symbol, the
 * first base of its pair and a '(' before its left subtree, and the second
 * bases, last symbol first, each with a ')' after it; the right subtree
 * follows.
 *
 * StrictRna reads a strict tree the same way node by node; ContractRna shows
 * that contraction does not change the reading, and StrictRnaAt that reading
 * the strict tree of a well-formed input with canonical pairs gives the input
 * back.
 */
module Reconstruction {
  import opened Trees
  import opened Arenas
  import opened StrictTrees
  import opened StrictShapes
  import opened Contraction

  // ---------------------------------------------------------------------
  // Case mapping (ASCII letters only)
  // ---------------------------------------------------------------------

  function UpperChar(c: char): char
  {
    if 'a' <= c <= 'z' then (c as int - 32) as char else c
  }

  function LowerChar(c: char): char
  {
    if 'A' <= c <= 'Z' then (c as int + 32) as char else c
  }

  /** String.toUpperCase, on ASCII letters. */
  function Upper(s: string): (r: string)
    ensures |r| == |s| && forall i :: 0 <= i < |s| ==> r[i] == UpperChar(s[i])
  {
    seq(|s|, i requires 0 <= i < |s| => UpperChar(s[i]))
  }

  /** String.toLowerCase, on ASCII letters. */
  function Lower(s: string): (r: string)
    ensures |r| == |s| && forall i :: 0 <= i < |s| ==> r[i] == LowerChar(s[i])
  {
    seq(|s|, i requires 0 <= i < |s| => LowerChar(s[i]))
  }

  /** Lower-casing first does not change the upper-case form. */
  lemma UpperLower(s: string)
    ensures Upper(Lower(s)) == Upper(s)
  {
    assert forall i :: 0 <= i < |s| ==> Upper(Lower(s))[i] == Upper(s)[i];
  }

  // ---------------------------------------------------------------------
  // The pair table and the reading of a contracted tree
  // ---------------------------------------------------------------------

  /** VARIABLE_MAP: the bases, in upper case, of the pair a symbol stands for. */
  function Pair(k: char): (r: (char, char))
    requires IsPairKey(k)
  {
    if k == 'p' then ('A', 'U')
    else if k == 'q' then ('U', 'A')
    else if k == 'r' then ('C', 'G')
    else if k == 's' then ('G', 'C')
    else if k == 'x' then ('U', 'G')
    else ('G', 'U')
  }

  predicate PairKeys(key: string)
  {
    forall i :: 0 <= i < |key| ==> IsPairKey(key[i])
  }

  /** The first bases of the pairs of key, in order. */
  function Opens(key: string): (r: string)
    requires PairKeys(key)
    ensures |r| == |key| && forall i :: 0 <= i < |key| ==> r[i] == Pair(key[i]).0
  {
    seq(|key|, i requires 0 <= i < |key| => Pair(key[i]).0)
  }

  /** The second bases of the pairs of key, last pair first (the order the deque pops them). */
  function Closes(key: string): (r: string)
    requires PairKeys(key)
    ensures |r| == |key| && forall i :: 0 <= i < |key| ==> r[i] == Pair(key[|key| - 1 - i]).1
  {
    seq(|key|, i requires 0 <= i < |key| => Pair(key[|key| - 1 - i]).1)
  }

  function Repeat(c: char, n: nat): (r: string)
    ensures |r| == n && forall i :: 0 <= i < n ==> r[i] == c
  {
    seq(n, i requires 0 <= i < n => c)
  }

  /** Every binary node reached by the reading has a label over p, q, r, s, x, y (else the source fails on a missing map entry). */
  predicate Spellable(t: Tree<string>)
  {
    if |t.children| == 1 then Spellable(t.children[0])
    else if |t.children| == 2 then PairKeys(t.key) && Spellable(t.children[0]) && Spellable(t.children[1])
    else true
  }

  /** recursiveTreeToRNA: the sequence and the structure the subtree t appends. */
  function Rna(t: Tree<string>): (string, string)
    requires Spellable(t)
  {
    if |t.children| == 1 then
      var r := Rna(t.children[0]);
      (Upper(t.key) + r.0, Repeat('.', |t.key|) + r.1)
    else if |t.children| == 2 then
      var l, r := Rna(t.children[0]), Rna(t.children[1]);
      (Opens(t.key) + l.0 + Closes(t.key) + r.0, Repeat('(', |t.key|) + l.1 + Repeat(')', |t.key|) + r.1)
    else ("", "")
  }

  /** The two readings have equal length, and the structure is a dot-bracket string. */
  lemma {:induction false} RnaLengths(t: Tree<string>)
    requires Spellable(t)
    ensures |Rna(t).0| == |Rna(t).1|
    ensures forall i :: 0 <= i < |Rna(t).1| ==> Rna(t).1[i] in ".()"
  {
    if |t.children| == 1 {
      RnaLengths(t.children[0]);
    } else if |t.children| == 2 {
      RnaLengths(t.children[0]);
      RnaLengths(t.children[1]);
    }
  }

  // ---------------------------------------------------------------------
  // The reading of a strict tree, and what contraction does to it
  // ---------------------------------------------------------------------

  /** A strict tree read node by node: a base gives '.', a pair symbol encloses its left subtree. */
  function StrictRna(t: Tree<char>): (string, string)
    requires Strict(t)
  {
    if |t.children| == 1 then
      var r := StrictRna(t.children[0]);
      ([UpperChar(t.key)] + r.0, "." + r.1)
    else if |t.children| == 2 then
      var l, r := StrictRna(t.children[0]), StrictRna(t.children[1]);
      ([Pair(t.key).0] + l.0 + [Pair(t.key).1] + r.0, "(" + l.1 + ")" + r.1)
    else ("", "")
  }

  lemma UpperCons(c: char, s: string)
    ensures Upper([c] + s) == [UpperChar(c)] + Upper(s)
  {
    assert forall i :: 0 <= i < |s| + 1 ==> Upper([c] + s)[i] == ([UpperChar(c)] + Upper(s))[i];
  }

  lemma RepeatCons(c: char, n: nat)
    ensures Repeat(c, n + 1) == [c] + Repeat(c, n)
  {
    assert forall i :: 0 <= i < n + 1 ==> Repeat(c, n + 1)[i] == ([c] + Repeat(c, n))[i];
  }

  lemma PairsCons(k: char, key: string)
    requires IsPairKey(k) && PairKeys(key)
    ensures PairKeys([k] + key)
    ensures Opens([k] + key) == [Pair(k).0] + Opens(key)
    ensures Closes([k] + key) == Closes(key) + [Pair(k).1]
  {
    var w := [k] + key;
    assert forall i :: 0 <= i < |w| ==> Opens(w)[i] == ([Pair(k).0] + Opens(key))[i];
    assert forall i :: 0 <= i < |w| ==> Closes(w)[i] == (Closes(key) + [Pair(k).1])[i];
  }

  lemma Assoc<T>(a: seq<T>, b: seq<T>, c: seq<T>)
    ensures (a + b) + c == a + (b + c)
  {
  }

  lemma ConcatRegroup<T>(a: seq<T>, b: seq<T>, c: seq<T>, d: seq<T>, e: seq<T>, f: seq<T>)
    ensures a + (b + c + d) + e + f == (a + b) + c + (d + e) + f
  {
  }

  /** An 'e'-keyed node of a strict tree is a leaf. */
  lemma EmptyLeaf(t: Tree<char>)
    requires Strict(t) && t.key == 'e'
    ensures |t.children| == 0 && StrictRna(t) == ("", "")
  {
  }

  /** A unary chain reads as its bases, then what follows it. */
  lemma {:induction false} ChainRna(t: Tree<char>)
    requires Strict(t) && |t.children| == 1
    ensures Strict(ChainEnd(t))
    ensures StrictRna(t) == (Upper(ChainKeys(t)) + StrictRna(ChainEnd(t)).0,
                             Repeat('.', |ChainKeys(t)|) + StrictRna(ChainEnd(t)).1)
    decreases t
  {
    var c := t.children[0];
    var r := StrictRna(c);
    UpperCons(t.key, ChainKeys(c));
    RepeatCons('.', |ChainKeys(c)|);
    if |c.children| == 1 {
      ChainRna(c);
      assert ChainKeys(t) == [t.key] + ChainKeys(c) && ChainEnd(t) == ChainEnd(c);
      assert StrictRna(t).0 == [UpperChar(t.key)] + (Upper(ChainKeys(c)) + StrictRna(ChainEnd(c)).0);
      assert StrictRna(t).1 == "." + (Repeat('.', |ChainKeys(c)|) + StrictRna(ChainEnd(c)).1);
      Assoc([UpperChar(t.key)], Upper(ChainKeys(c)), StrictRna(ChainEnd(c)).0);
      Assoc(".", Repeat('.', |ChainKeys(c)|), StrictRna(ChainEnd(c)).1);
    } else {
      assert ChainKeys(t) == [t.key] && ChainEnd(t) == c;
      assert Upper(ChainKeys(t)) == [UpperChar(t.key)];
      assert Repeat('.', 1) == ".";
    }
  }

  /** A left spine reads as its pairs' first bases, the spine's end, the second bases, then the right child. */
  lemma {:induction false} SpineRna(t: Tree<char>)
    requires Strict(t) && |t.children| >= 2
    ensures Strict(SpineEnd(t)) && Strict(t.children[1]) && PairKeys(SpineKeys(t))
    ensures StrictRna(t) ==
      (Opens(SpineKeys(t)) + StrictRna(SpineEnd(t)).0 + Closes(SpineKeys(t)) + StrictRna(t.children[1]).0,
       Repeat('(', |SpineKeys(t)|) + StrictRna(SpineEnd(t)).1 + Repeat(')', |SpineKeys(t)|) + StrictRna(t.children[1]).1)
    decreases t
  {
    var c := t.children[0];
    var k := SpineKeys(t);
    RepeatCons('(', |k| - 1);
    assert Repeat(')', |k|) == Repeat(')', |k| - 1) + [')'];
    if Continues(c) {
      SpineRna(c);
      EmptyLeaf(c.children[1]);
      var k' := SpineKeys(c);
      PairsCons(t.key, k');
      var e := StrictRna(SpineEnd(c));
      assert k == [t.key] + k' && SpineEnd(t) == SpineEnd(c);
      var r := StrictRna(t.children[1]);
      assert StrictRna(c).0 == Opens(k') + e.0 + Closes(k');
      assert StrictRna(c).1 == Repeat('(', |k'|) + e.1 + Repeat(')', |k'|);
      calc {
        StrictRna(t).0;
        [Pair(t.key).0] + StrictRna(c).0 + [Pair(t.key).1] + r.0;
        [Pair(t.key).0] + (Opens(k') + e.0 + Closes(k')) + [Pair(t.key).1] + r.0;
        { ConcatRegroup([Pair(t.key).0], Opens(k'), e.0, Closes(k'), [Pair(t.key).1], r.0); }
        ([Pair(t.key).0] + Opens(k')) + e.0 + (Closes(k') + [Pair(t.key).1]) + r.0;
      }
      calc {
        StrictRna(t).1;
        "(" + StrictRna(c).1 + ")" + r.1;
        "(" + (Repeat('(', |k'|) + e.1 + Repeat(')', |k'|)) + ")" + r.1;
        { ConcatRegroup("(", Repeat('(', |k'|), e.1, Repeat(')', |k'|), ")", r.1); }
        ("(" + Repeat('(', |k'|)) + e.1 + (Repeat(')', |k'|) + ")") + r.1;
      }
    } else {
      PairsCons(t.key, "");
      assert k == [t.key] && SpineEnd(t) == c;
      assert Opens(k) == [Pair(t.key).0] && Closes(k) == [Pair(t.key).1];
      assert Repeat('(', 1) == "(" && Repeat(')', 1) == ")";
    }
  }

  /** Contraction keeps the reading: the contracted tree reads as the strict tree does. */
  lemma {:induction false} ContractRna(t: Tree<char>)
    requires Strict(t)
    ensures Spellable(Contract(t)) && Rna(Contract(t)) == StrictRna(t)
    decreases Size(t)
  {
    if |t.children| == 1 {
      ChainRna(t);
      ContractRna(ChainEnd(t));
    } else if |t.children| == 2 {
      SpineRna(t);
      ChildSmaller(t, 1);
      ContractRna(SpineEnd(t));
      ContractRna(t.children[1]);
    }
  }

  // ---------------------------------------------------------------------
  // The strict tree of the input reads as the input
  // ---------------------------------------------------------------------

  /** A dot-bracket string: only '.', '(' and ')'. */
  predicate DotBracket(d: string)
  {
    forall i :: 0 <= i < |d| ==> d[i] == '.' || d[i] == '(' || d[i] == ')'
  }

  /** The pairs the encoding keeps exactly: Watson-Crick and wobble pairs. */
  predicate CanonicalPair(a: char, b: char)
  {
    (a == 'a' && b == 'u') || (a == 'u' && b == 'a') || (a == 'c' && b == 'g') ||
    (a == 'g' && b == 'c') || (a == 'g' && b == 'u') || (a == 'u' && b == 'g')
  }

  /** Every closed pair of the structure joins canonical bases. */
  predicate Canonical(s: string, d: string)
    requires |s| == |d|
  {
    forall j :: 0 <= j < |d| && d[j] == '(' && Partner(d, j) < |d| ==> CanonicalPair(s[j], s[Partner(d, j)])
  }

  lemma ClosedDotBracket(d: string)
    requires Closed(d, 0, 0)
    ensures DotBracket(d)
  {
    forall i | 0 <= i < |d| ensures d[i] == '.' || d[i] == '(' || d[i] == ')' {
      var c := ClosedPrefix(d, i);
    }
  }

  /** The key the builder gives a canonical pair stands for that pair's bases. */
  lemma PairOfKey(a: char, b: char)
    requires CanonicalPair(a, b)
    ensures IsPairKey(CloseKey(OpenKey(a, ' '), b))
    ensures Pair(CloseKey(OpenKey(a, ' '), b)) == (UpperChar(a), UpperChar(b))
  {
  }

  lemma Split4(x: string, i: nat, m: nat, e: nat)
    requires i < m < |x| && m + 1 <= e <= |x|
    ensures x[i..e] == [x[i]] + x[i + 1..m] + [x[m]] + x[m + 1..e]
  {
  }

  lemma Split2(x: string, i: nat, e: nat)
    requires i < e <= |x|
    ensures x[i..e] == [x[i]] + x[i + 1..e]
  {
  }

  /** The reading of the strict tree from i, as the input gives it: up to the end of i's level. */
  ghost predicate ReadsAt(s: string, d: string, i: nat)
    requires |s| == |d| && i <= |d|
  {
    Strict(StrictAt(s, d, i)) &&
    StrictRna(StrictAt(s, d, i)) == (Upper(s)[i..EndFrom(d, i, 0)], d[i..EndFrom(d, i, 0)])
  }

  /** An 'e' leaf reads as nothing, and its level ends where it is. */
  lemma LeafReadsAt(s: string, d: string, i: nat)
    requires |s| == |d| && i <= |d| && (i > 0 || i < |d|) && (i == |d| || d[i] == ')')
    ensures ReadsAt(s, d, i)
  {
    assert StrictAt(s, d, i) == Node('e', []);
    assert Upper(s)[i..i] == "" && d[i..i] == "";
  }

  /** A canonical pair at i reads as its bases around the reading inside it, then the reading after it. */
  lemma PairReadsAt(s: string, d: string, i: nat)
    requires |s| == |d| && i < |d| && d[i] == '(' && Partner(d, i) < |d|
    requires CanonicalPair(s[i], s[Partner(d, i)])
    requires ReadsAt(s, d, i + 1) && ReadsAt(s, d, Partner(d, i) + 1)
    ensures ReadsAt(s, d, i)
  {
    var m := Partner(d, i);
    var t := StrictAt(s, d, i);
    var e := EndFrom(d, i, 0);
    var u := Upper(s);
    EndSplit(d, i + 1, 0);
    assert e == EndFrom(d, m + 1, 0);
    PairOfKey(s[i], s[m]);
    assert t == Node(CloseKey(OpenKey(s[i], ' '), s[m]), [StrictAt(s, d, i + 1), StrictAt(s, d, m + 1)]);
    assert Pair(t.key) == (u[i], u[m]);
    Split4(u, i, m, e);
    Split4(d, i, m, e);
  }

  /** A base at i reads as itself and '.', then the reading after it. */
  lemma DotReadsAt(s: string, d: string, i: nat)
    requires |s| == |d| && i < |d| && d[i] == '.' && IsBase(s[i])
    requires ReadsAt(s, d, i + 1)
    ensures ReadsAt(s, d, i)
  {
    var t := StrictAt(s, d, i);
    var e := EndFrom(d, i, 0);
    var u := Upper(s);
    assert t == Node(s[i], [StrictAt(s, d, i + 1)]) && e == EndFrom(d, i + 1, 0);
    Split2(u, i, e);
    Split2(d, i, e);
  }

  /** The strict tree from position i reads as the input up to the end of i's level. */
  lemma {:induction false} StrictRnaAt(s: string, d: string, i: nat)
    requires |s| == |d| && i <= |d| && (i > 0 || |d| > 0) && Paired(d) && DotBracket(d)
    requires (forall j :: 0 <= j < |s| ==> IsBase(s[j])) && Canonical(s, d)
    ensures Strict(StrictAt(s, d, i))
    ensures StrictRna(StrictAt(s, d, i)) == (Upper(s)[i..EndFrom(d, i, 0)], d[i..EndFrom(d, i, 0)])
    decreases |d| - i
  {
    if i == |d| || d[i] == ')' {
      LeafReadsAt(s, d, i);
    } else if d[i] == '(' {
      StrictRnaAt(s, d, i + 1);
      StrictRnaAt(s, d, Partner(d, i) + 1);
      PairReadsAt(s, d, i);
    } else {
      StrictRnaAt(s, d, i + 1);
      DotReadsAt(s, d, i);
    }
  }

  /**
   * Contraction loses nothing: reading the contracted tree of the
   * lower-cased input gives the input in upper case and its structure, when
   * every pair is canonical.
   */
  lemma RnaRoundTrip(s: string, d: string)
    requires WellFormed(Lower(s), d) && Canonical(Lower(s), d)
    ensures Spellable(Contract(StrictAt(Lower(s), d, 0)))
    ensures Rna(Contract(StrictAt(Lower(s), d, 0))) == (Upper(s), d)
  {
    var t := StrictAt(Lower(s), d, 0);
    ContractedTreeShape(Lower(s), d);
    UpperLower(s);
    if |d| > 0 {
      StrictTreeShape(Lower(s), d);
      ClosedPaired(d);
      ClosedDotBracket(d);
      EndOfClosed(d, 0);
      ContractRna(t);
      StrictRnaAt(Lower(s), d, 0);
      assert Upper(Lower(s))[0..|d|] == Upper(Lower(s)) && d[0..|d|] == d;
    } else {
      assert Upper(s) == "" && d == "";
    }
  }

  /** A non-canonical pair is not kept: a paired with c reads back as A paired with U. */
  lemma NonCanonicalPairLost()
    ensures WellFormed("ac", "()") && !Canonical("ac", "()")
    ensures Spellable(Contract(StrictAt("ac", "()", 0)))
    ensures Rna(Contract(StrictAt("ac", "()", 0))) == ("AU", "()")
  {
    var s, d := "ac", "()";
    assert Partner(d, 0) == 1;
    var leaf := Node('e', []);
    assert StrictAt(s, d, 1) == leaf && StrictAt(s, d, 2) == leaf;
    var t := StrictAt(s, d, 0);
    assert t == Node('p', [leaf, leaf]);
    assert SpineKeys(t) == "p" && SpineEnd(t) == leaf;
    var c := Contract(t);
    assert c == Node("p", [Node("e", []), Node("e", [])]);
    assert Opens("p") == "A" && Closes("p") == "U";
    assert Repeat('(', 1) == "(" && Repeat(')', 1) == ")";
    assert Rna(Node("e", [])) == ("", "");
    assert Rna(c) == ("A" + "" + "U" + "", "(" + "" + ")" + "");
    assert "A" + "" + "U" + "" == "AU" && "(" + "" + ")" + "" == "()";
  }

  // ---------------------------------------------------------------------
  // The traversal over the arena of nodes
  // ---------------------------------------------------------------------

  /**
   * recursiveTreeToRNA: appends the reading of the subtree at root to the
   * two builders.
   */
  method RecursiveTreeToRna(tree: Arena<string>, root: nat, seqBuilder: string, strucBuilder: string)
    returns (sequence: string, structure: string)
    requires tree.Valid() && root < |tree.keys| && Spellable(tree.TreeAt(root))
    ensures sequence == seqBuilder + Rna(tree.TreeAt(root)).0
    ensures structure == strucBuilder + Rna(tree.TreeAt(root)).1
    decreases |tree.keys| - root
  {
    tree.ChildCount(root);
    var key := tree.keys[root];
    if |tree.children[root]| == 1 {
      tree.ChildAt(root, 0);
      sequence := seqBuilder + Upper(key);
      structure := AppendDots(strucBuilder, |key|);
      sequence, structure := RecursiveTreeToRna(tree, tree.children[root][0], sequence, structure);
      Assoc(seqBuilder, Upper(key), Rna(tree.TreeAt(tree.children[root][0])).0);
      Assoc(strucBuilder, Repeat('.', |key|), Rna(tree.TreeAt(tree.children[root][0])).1);
    } else if |tree.children[root]| == 2 {
      tree.ChildAt(root, 0);
      tree.ChildAt(root, 1);
      var reverse;
      sequence, structure, reverse := PushPairs(key, seqBuilder, strucBuilder);
      sequence, structure := RecursiveTreeToRna(tree, tree.children[root][0], sequence, structure);
      sequence, structure := PopAll(reverse, sequence, structure);
      sequence, structure := RecursiveTreeToRna(tree, tree.children[root][1], sequence, structure);
      ghost var l, r := Rna(tree.TreeAt(tree.children[root][0])), Rna(tree.TreeAt(tree.children[root][1]));
      Assoc4(seqBuilder, Opens(key), l.0, Closes(key), r.0);
      Assoc4(strucBuilder, Repeat('(', |key|), l.1, Repeat(')', |key|), r.1);
    } else {
      sequence, structure := seqBuilder, strucBuilder;
    }
  }

  lemma Assoc4<T>(a: seq<T>, b: seq<T>, c: seq<T>, d: seq<T>, e: seq<T>)
    ensures a + b + c + d + e == a + (b + c + d + e)
  {
  }

  /** The loop of the unary case: one '.' per base of the label. */
  method AppendDots(strucBuilder: string, n: nat) returns (structure: string)
    ensures structure == strucBuilder + Repeat('.', n)
  {
    structure := strucBuilder;
    var i := 0;
    while i < n
      invariant 0 <= i <= n && structure == strucBuilder + Repeat('.', i)
    {
      structure := structure + ".";
      i := i + 1;
    }
  }

  /**
   * The first loop of the binary case: per pair symbol, its first base and a
   * '(' are appended and its second base is pushed on the deque.
   */
  method PushPairs(key: string, seqBuilder: string, strucBuilder: string)
    returns (sequence: string, structure: string, reverse: seq<char>)
    requires PairKeys(key)
    ensures sequence == seqBuilder + Opens(key)
    ensures structure == strucBuilder + Repeat('(', |key|)
    ensures reverse == Closes(key)
  {
    sequence, structure, reverse := seqBuilder, strucBuilder, [];
    var i := 0;
    while i < |key|
      invariant 0 <= i <= |key| && PairKeys(key[..i])
      invariant sequence == seqBuilder + Opens(key[..i])
      invariant structure == strucBuilder + Repeat('(', i)
      invariant reverse == Closes(key[..i])
    {
      StepPairs(key, i);
      var current := Pair(key[i]);
      sequence := sequence + [current.0];
      structure := structure + "(";
      reverse := [current.1] + reverse;
      i := i + 1;
    }
    assert key[..i] == key;
  }

  /** The second loop of the binary case: the deque is popped empty, a ')' per base. */
  method PopAll(reverse: seq<char>, seqBuilder: string, strucBuilder: string)
    returns (sequence: string, structure: string)
    ensures sequence == seqBuilder + reverse
    ensures structure == strucBuilder + Repeat(')', |reverse|)
  {
    sequence, structure := seqBuilder, strucBuilder;
    var rest := reverse;
    while |rest| > 0
      invariant |rest| <= |reverse| && rest == reverse[|reverse| - |rest|..]
      invariant sequence == seqBuilder + reverse[..|reverse| - |rest|]
      invariant structure == strucBuilder + Repeat(')', |reverse| - |rest|)
    {
      assert reverse[..|reverse| - |rest| + 1] == reverse[..|reverse| - |rest|] + [rest[0]];
      sequence := sequence + [rest[0]];
      structure := structure + ")";
      rest := rest[1..];
    }
    assert reverse[..|reverse|] == reverse;
  }

  /** One more symbol read: the opens and the pushed closes grow by its pair. */
  lemma StepPairs(key: string, i: nat)
    requires i < |key| && PairKeys(key[..i]) && IsPairKey(key[i])
    ensures PairKeys(key[..i + 1])
    ensures Opens(key[..i + 1]) == Opens(key[..i]) + [Pair(key[i]).0]
    ensures Closes(key[..i + 1]) == [Pair(key[i]).1] + Closes(key[..i])
  {
    var w := key[..i + 1];
    assert w == key[..i] + [key[i]];
    assert forall j :: 0 <= j < |w| ==> Opens(w)[j] == (Opens(key[..i]) + [Pair(key[i]).0])[j];
    assert forall j :: 0 <= j < |w| ==> Closes(w)[j] == ([Pair(key[i]).1] + Closes(key[..i]))[j];
  }

  /** treeToRNA: the sequence and the structure of the tree at root. */
  method TreeToRna(tree: Arena<string>, root: nat) returns (sequence: string, structure: string)
    requires tree.Valid() && root < |tree.keys| && Spellable(tree.TreeAt(root))
    ensures (sequence, structure) == Rna(tree.TreeAt(root))
  {
    sequence, structure := RecursiveTreeToRna(tree, root, "", "");
    assert sequence == Rna(tree.TreeAt(root)).0 && structure == Rna(tree.TreeAt(root)).1;
  }
}
