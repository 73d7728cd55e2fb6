/**
 * The alternative format of RNAContract (compressAlternative /
 * decompressAlternative): every inner node of the contracted tree, in
 * preorder, emits an arity bit (0 unary, 1 binary), the Huffman code of its
 * label and one bit per child telling whether that child is an inner node.
 * Leaves emit nothing.
 */
module Alternative {
  import opened Wrappers
  import opened Trees
  import opened Arenas
  import opened HuffmanMaps
  import opened StrictTrees
  import opened StrictShapes
  import opened LabelCodec
  import opened Contraction
  import opened Reconstruction
  import opened Codec

  // ---------------------------------------------------------------------
  // The code
  // ---------------------------------------------------------------------

  /** What compressAlternative looks at in one node: its key and its children's keys. */
  datatype View = View(key: string, childKeys: seq<string>)

  function ViewOf(t: Tree<string>): (v: View)
    ensures v.key == t.key && |v.childKeys| == |t.children|
    ensures forall i :: 0 <= i < |t.children| ==> v.childKeys[i] == t.children[i].key
  {
    View(t.key, seq(|t.children|, i requires 0 <= i < |t.children| => t.children[i].key))
  }

  /** The bits one node emits: arity bit, label code, one "not an e leaf" bit per child. */
  function NodeBits(v: View): seq<bool>
  {
    if |v.childKeys| == 1 then [false] + NodeCode(v.key) + [v.childKeys[0] != "e"]
    else if |v.childKeys| == 2 then [true] + NodeCode(v.key) + [v.childKeys[0] != "e", v.childKeys[1] != "e"]
    else []
  }

  /** The alternative code of a tree: its root's bits, then its subtrees' codes in order. */
  function AltCode(t: Tree<string>): seq<bool>
    decreases t, 1
  {
    NodeBits(ViewOf(t)) + Flatten(ChildAltCodes(t))
  }

  function ChildAltCodes(t: Tree<string>): (r: seq<seq<bool>>)
    ensures |r| == |t.children| && forall i :: 0 <= i < |t.children| ==> r[i] == AltCode(t.children[i])
    decreases t, 0
  {
    seq(|t.children|, i requires 0 <= i < |t.children| => AltCode(t.children[i]))
  }

  /** The node bits of a list of views, one after another. */
  function BitsOf(vs: seq<View>): seq<bool>
  {
    if vs == [] then [] else NodeBits(vs[0]) + BitsOf(vs[1..])
  }

  lemma {:induction false} BitsOfConcat(a: seq<View>, b: seq<View>)
    ensures BitsOf(a + b) == BitsOf(a) + BitsOf(b)
  {
    if a != [] {
      assert (a + b)[1..] == a[1..] + b;
      BitsOfConcat(a[1..], b);
    } else {
      assert a + b == b;
    }
  }

  lemma {:induction false} BitsOfFlatten(ss: seq<seq<View>>)
    ensures BitsOf(Flatten(ss)) == Flatten(seq(|ss|, i requires 0 <= i < |ss| => BitsOf(ss[i])))
  {
    var bs := seq(|ss|, i requires 0 <= i < |ss| => BitsOf(ss[i]));
    if ss != [] {
      BitsOfConcat(ss[0], Flatten(ss[1..]));
      BitsOfFlatten(ss[1..]);
      assert bs[1..] == seq(|ss[1..]|, i requires 0 <= i < |ss[1..]| => BitsOf(ss[1..][i]));
    }
  }

  /** The tree of views of t. */
  function ViewTree(t: Tree<string>): (r: Tree<View>)
    ensures r.key == ViewOf(t) && |r.children| == |t.children|
    ensures forall i :: 0 <= i < |t.children| ==> r.children[i] == ViewTree(t.children[i])
  {
    Node(ViewOf(t), seq(|t.children|, i requires 0 <= i < |t.children| => ViewTree(t.children[i])))
  }

  /** The code is the node bits of the nodes in preorder, which is how compressAlternative emits it. */
  lemma {:induction false} AltCodeViews(t: Tree<string>)
    ensures AltCode(t) == BitsOf(Preorder(ViewTree(t)))
  {
    var vt := ViewTree(t);
    var ps := ChildPreorders(vt);
    forall i | 0 <= i < |t.children| ensures BitsOf(ps[i]) == AltCode(t.children[i]) {
      AltCodeViews(t.children[i]);
    }
    BitsOfFlatten(ps);
    assert seq(|ps|, i requires 0 <= i < |ps| => BitsOf(ps[i])) == ChildAltCodes(t);
    BitsOfConcat([vt.key], Flatten(ps));
    assert BitsOf([vt.key]) == NodeBits(vt.key);
  }

  // ---------------------------------------------------------------------
  // compressAlternative
  // ---------------------------------------------------------------------

  /** The view of arena node x. */
  function ViewAt(keys: seq<string>, kids: seq<seq<nat>>, x: nat): View
    requires |keys| == |kids| && Ordered(kids) && x < |kids|
  {
    View(keys[x], seq(|kids[x]|, i requires 0 <= i < |kids[x]| => keys[kids[x][i]]))
  }

  ghost function Views(keys: seq<string>, kids: seq<seq<nat>>): (vs: seq<View>)
    requires |keys| == |kids| && Ordered(kids)
    ensures |vs| == |kids| && forall x :: 0 <= x < |kids| ==> vs[x] == ViewAt(keys, kids, x)
  {
    seq(|kids|, x requires 0 <= x < |kids| => ViewAt(keys, kids, x))
  }

  /** Reading the views off the arena gives the view tree of the tree at x. */
  lemma {:induction false} ViewsUnfold(keys: seq<string>, kids: seq<seq<nat>>, x: nat)
    requires |keys| == |kids| && Ordered(kids) && x < |kids|
    ensures Unfold(Views(keys, kids), kids, x) == ViewTree(Unfold(keys, kids, x))
    decreases |kids| - x
  {
    var t := Unfold(keys, kids, x);
    var u := Unfold(Views(keys, kids), kids, x);
    forall i | 0 <= i < |kids[x]|
      ensures u.children[i] == ViewTree(t).children[i] && ViewOf(t).childKeys[i] == ViewAt(keys, kids, x).childKeys[i]
    {
      assert t.children[i] == Unfold(keys, kids, kids[x][i]);
      ViewsUnfold(keys, kids, kids[x][i]);
    }
    assert ViewOf(t).childKeys == ViewAt(keys, kids, x).childKeys;
    assert u.children == ViewTree(t).children;
  }

  /** Unary nodes carry unary labels and binary nodes binary labels. */
  ghost predicate InnerFit(ar: seq<nat>, ls: seq<string>)
  {
    |ar| == |ls| && forall k :: 0 <= k < |ar| ==> (ar[k] == 1 ==> UnaryLabel(ls[k])) && (ar[k] == 2 ==> BinaryLabel(ls[k]))
  }

  /** The contracted tree of a well-formed input has fitting labels at its inner nodes. */
  lemma ContractedInnerFit(sequence: string, structure: string)
    requires WellFormed(Lower(sequence), structure)
    ensures InnerFit(Arities(ContractedOf(sequence, structure)), Preorder(ContractedOf(sequence, structure)))
  {
    var t := ContractedOf(sequence, structure);
    ContractedTreeShape(Lower(sequence), structure);
    if |structure| == 0 {
      assert Arities(t) == [0];
    } else {
      ContractedLabelled(t);
      LabelledFits(t);
    }
  }

  /** The table compressAlternative uses for a node of the given kind. */
  function Table(unary: bool, pair: string): Option<seq<bool>>
  {
    if unary then UnaryC(pair) else BinaryC(pair)
  }

  /** Every pair of a fitting label is in its kind's table, under the code compressLabels uses too. */
  lemma LabelPairs(lbl: string, unary: bool, i: nat)
    requires if unary then UnaryLabel(lbl) else BinaryLabel(lbl)
    requires i <= |lbl|
    ensures var pair := (";" + lbl + ";")[i..i + 2]; Table(unary, pair).Some? && PairCode(pair) == Table(unary, pair).value
  {
    var w := ";" + lbl + ";";
    var pair := w[i..i + 2];
    Framed(lbl, w);
    assert pair[0] == w[i] && pair[1] == w[i + 1];
    UnaryKeys(pair);
    BinaryKeys(pair);
    TablesDisjoint(pair);
  }

  /** The inner loop of compressAlternative: the codes of the pairs of ';' + label + ';' in one table. */
  method HuffmanLabel(lbl: string, unary: bool) returns (bits: seq<bool>)
    requires if unary then UnaryLabel(lbl) else BinaryLabel(lbl)
    ensures bits == NodeCode(lbl)
  {
    var w := ";" + lbl + ";";
    bits := [];
    var i := 0;
    while i < |w| - 1
      invariant 0 <= i <= |w| - 1
      invariant bits + PairsCode(w[i..]) == PairsCode(w)
    {
      var pair := w[i..i + 2];
      PairsStep(PairCode, w, i);
      LabelPairs(lbl, unary, i);
      bits := bits + (if unary then UnaryC(pair).value else BinaryC(pair).value);
      i := i + 1;
    }
  }

  /** The bits compressAlternative emits for node x: nothing for a leaf. */
  method AlternativeNode(tree: Arena<string>, x: nat) returns (bits: seq<bool>)
    requires tree.Valid() && x < |tree.keys|
    requires |tree.children[x]| == 1 ==> UnaryLabel(tree.keys[x])
    requires |tree.children[x]| == 2 ==> BinaryLabel(tree.keys[x])
    ensures bits == NodeBits(ViewAt(tree.keys, tree.children, x))
  {
    var kids := tree.children[x];
    if |kids| == 1 {
      var code := HuffmanLabel(tree.keys[x], true);
      bits := [false] + code + [tree.keys[kids[0]] != "e"];
    } else if |kids| == 2 {
      var code := HuffmanLabel(tree.keys[x], false);
      bits := [true] + code + [tree.keys[kids[0]] != "e", tree.keys[kids[1]] != "e"];
    } else {
      bits := [];
    }
  }

  lemma BitsOfSnoc(vs: seq<View>, k: nat)
    requires k < |vs|
    ensures BitsOf(vs[..k + 1]) == BitsOf(vs[..k]) + NodeBits(vs[k])
  {
    BitsOfConcat(vs[..k], [vs[k]]);
    assert vs[..k + 1] == vs[..k] + [vs[k]];
    assert BitsOf([vs[k]]) == NodeBits(vs[k]);
  }

  /** Node x's label fits its number of children, as far as compressAlternative looks it up. */
  ghost predicate NodeFits(keys: seq<string>, kids: seq<seq<nat>>, x: nat)
  {
    x < |keys| && x < |kids| &&
    (|kids[x]| == 1 ==> UnaryLabel(keys[x])) && (|kids[x]| == 2 ==> BinaryLabel(keys[x]))
  }

  /** The loop over getPreorderNodes: the node bits of the listed nodes, in order. */
  method AlternativeNodes(tree: Arena<string>, nodes: seq<nat>, ghost vs: seq<View>) returns (bits: seq<bool>)
    requires tree.Valid() && |vs| == |nodes|
    requires forall k :: 0 <= k < |nodes| ==> NodeFits(tree.keys, tree.children, nodes[k])
    requires forall k :: 0 <= k < |nodes| ==> nodes[k] < |tree.keys| && vs[k] == ViewAt(tree.keys, tree.children, nodes[k])
    ensures bits == BitsOf(vs)
  {
    bits := [];
    var k := 0;
    while k < |nodes|
      invariant 0 <= k <= |nodes|
      invariant bits == BitsOf(vs[..k])
    {
      var b := AlternativeNode(tree, nodes[k]);
      BitsOfSnoc(vs, k);
      bits := bits + b;
      k := k + 1;
    }
    assert vs[..k] == vs;
  }

  /** compressAlternative: the alternative code of the contracted tree. */
  method CompressAlternative(sequence: string, structure: string) returns (bits: seq<bool>)
    requires WellFormed(Lower(sequence), structure)
    ensures bits == AltCode(ContractedOf(sequence, structure))
  {
    WellFormedBuildable(sequence, structure);
    var tree, root := BuildContractedTree(Lower(sequence), structure);
    var nodes := tree.GetPreorderNodes(root);
    ghost var t := tree.TreeAt(root);
    ContractedInnerFit(sequence, structure);
    tree.PreorderOfNodes(root);
    ghost var views := Views(tree.keys, tree.children);
    UnfoldMapsTo(views, tree.children, root);
    ViewsUnfold(tree.keys, tree.children, root);
    ghost var vs := Preorder(ViewTree(t));
    assert forall k :: 0 <= k < |nodes| ==> NodeFits(tree.keys, tree.children, nodes[k]);
    bits := AlternativeNodes(tree, nodes, vs);
    AltCodeViews(t);
  }
}
