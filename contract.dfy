/**
 * buildContractedTree / copyToContractedTree: the strict tree is copied into
 * a tree with string keys in which every maximal chain of unary nodes becomes
 * one node keyed by the chain's bases, and every left spine of binary nodes
 * whose right children (below the first) are 'e' leaves becomes one node keyed
 * by the spine's pair symbols.  The copy hangs below a sentinel "f" node,
 * which is then dropped.
 */
module Contraction {
  import opened Trees
  import opened Arenas
  import opened StrictTrees
  import opened StrictShapes
  import opened LabelCodec

  /** The keys of the unary chain starting at t (empty if t is not unary). */
  function ChainKeys(t: Tree<char>): string
  {
    if |t.children| == 1 then [t.key] + ChainKeys(t.children[0]) else ""
  }

  /** The first node below the unary chain starting at t. */
  function ChainEnd(t: Tree<char>): (r: Tree<char>)
    ensures |r.children| != 1 && Size(r) <= Size(t)
    ensures |t.children| == 1 ==> Size(r) < Size(t)
  {
    if |t.children| == 1 then ChildSmaller(t, 0); ChainEnd(t.children[0]) else t
  }

  /** The do-while condition of the binary case: a binary node whose right child is keyed 'e'. */
  predicate Continues(t: Tree<char>)
  {
    |t.children| > 1 && t.children[1].key == 'e'
  }

  /** The keys of the left spine from the binary node t, as the do-while collects them. */
  function SpineKeys(t: Tree<char>): string
    requires |t.children| >= 2
  {
    [t.key] + (if Continues(t.children[0]) then SpineKeys(t.children[0]) else "")
  }

  /** The node the do-while stops at: the left child of the spine's last node. */
  function SpineEnd(t: Tree<char>): (r: Tree<char>)
    requires |t.children| >= 2
    ensures Size(r) < Size(t)
  {
    ChildSmaller(t, 0);
    if Continues(t.children[0]) then SpineEnd(t.children[0]) else t.children[0]
  }

  /** The contracted copy of t (what copyToContractedTree hangs below its first argument). */
  function Contract(t: Tree<char>): Tree<string>
    decreases Size(t)
  {
    if |t.children| == 0 then Node([t.key], [])
    else if |t.children| == 1 then Node(ChainKeys(t), [Contract(ChainEnd(t))])
    else
      ChildSmaller(t, 1);
      Node(SpineKeys(t), [Contract(SpineEnd(t)), Contract(t.children[1])])
  }

  /**
   * The shape of a contracted tree: "e" leaves, unary nodes labelled over
   * a, c, g, u whose child is not unary, binary nodes labelled over p, q, r,
   * s, x, y.
   */
  predicate Contracted(t: Tree<string>)
  {
    (|t.children| == 0 && t.key == "e") ||
    (|t.children| == 1 && UnaryLabel(t.key) && |t.children[0].children| != 1 && Contracted(t.children[0])) ||
    (|t.children| == 2 && BinaryLabel(t.key) && Contracted(t.children[0]) && Contracted(t.children[1]))
  }

  lemma {:induction false} ChainShape(t: Tree<char>)
    requires Strict(t) && |t.children| == 1
    ensures UnaryLabel(ChainKeys(t)) && Strict(ChainEnd(t))
    decreases t
  {
    var c := t.children[0];
    if |c.children| == 1 {
      ChainShape(c);
    }
  }

  lemma {:induction false} SpineShape(t: Tree<char>)
    requires Strict(t) && |t.children| >= 2
    ensures BinaryLabel(SpineKeys(t)) && Strict(SpineEnd(t))
    decreases t
  {
    var c := t.children[0];
    if Continues(c) {
      SpineShape(c);
    }
  }

  /** Contracting a strict tree gives a contracted tree. */
  lemma {:induction false} ContractShape(t: Tree<char>)
    requires Strict(t)
    ensures Contracted(Contract(t))
    decreases Size(t)
  {
    if |t.children| == 1 {
      ChainShape(t);
      ContractShape(ChainEnd(t));
    } else if |t.children| == 2 {
      SpineShape(t);
      ChildSmaller(t, 1);
      ContractShape(SpineEnd(t));
      ContractShape(t.children[1]);
    }
  }

  /**
   * The contracted tree of a well-formed input: the single node "f" for the
   * empty structure, a contracted tree otherwise.
   */
  lemma ContractedTreeShape(s: string, d: string)
    requires WellFormed(s, d)
    ensures |d| == 0 ==> Contract(StrictAt(s, d, 0)) == Node("f", [])
    ensures |d| > 0 ==> Contracted(Contract(StrictAt(s, d, 0)))
  {
    StrictTreeShape(s, d);
    if |d| > 0 {
      ContractShape(StrictAt(s, d, 0));
    }
  }

  // ---------------------------------------------------------------------
  // The copy, over arenas
  // ---------------------------------------------------------------------

  /**
   * The arena (keys, kids, par) is (keys0, kids0, par0) with new nodes
   * appended, the first of them added as the last child of croot, and
   * nothing else of the old nodes changed.
   */
  ghost predicate Appended<U>(keys0: seq<U>, kids0: seq<seq<nat>>, par0: seq<int>,
                              keys: seq<U>, kids: seq<seq<nat>>, par: seq<int>, croot: nat)
  {
    var n0 := |keys0|;
    croot < n0 < |keys| && |kids0| == n0 && |par0| == n0 && |kids| == |keys| && |par| == |keys| &&
    kids[croot] == kids0[croot] + [n0] &&
    forall y :: 0 <= y < n0 ==> keys[y] == keys0[y] && par[y] == par0[y] && (y != croot ==> kids[y] == kids0[y])
  }

  lemma AppendedOne<U>(keys0: seq<U>, kids0: seq<seq<nat>>, par0: seq<int>,
                       keys: seq<U>, kids: seq<seq<nat>>, par: seq<int>, croot: nat, key: U)
    requires croot < |keys0| && |kids0| == |keys0| && |par0| == |keys0|
    requires keys == keys0 + [key] && kids == (kids0 + [[]])[croot := kids0[croot] + [|keys0|]]
    requires par == (par0 + [-1])[|keys0| := croot]
    ensures Appended(keys0, kids0, par0, keys, kids, par, croot) && kids[|keys0|] == []
  {
  }

  /** A copy hung below the node appended first extends the first append. */
  lemma AppendedTwice<U>(keys0: seq<U>, kids0: seq<seq<nat>>, par0: seq<int>,
                         keys1: seq<U>, kids1: seq<seq<nat>>, par1: seq<int>,
                         keys: seq<U>, kids: seq<seq<nat>>, par: seq<int>, croot: nat)
    requires Appended(keys0, kids0, par0, keys1, kids1, par1, croot)
    requires Appended(keys1, kids1, par1, keys, kids, par, |keys0|)
    ensures Appended(keys0, kids0, par0, keys, kids, par, croot)
    ensures keys[|keys0|] == keys1[|keys0|] && kids[|keys0|] == kids1[|keys0|] + [|keys1|]
  {
  }

  /** NewNode followed by addChild: a fresh node with key `key`, the new last child of croot. */
  method Attach(target: Arena<string>, croot: nat, key: string) returns (c: nat)
    requires target.Valid() && croot < |target.keys|
    modifies target
    ensures target.Valid() && c == old(|target.keys|)
    ensures Appended(old(target.keys), old(target.children), old(target.parent), target.keys, target.children, target.parent, croot)
    ensures |target.keys| == c + 1 && target.keys[c] == key && target.children[c] == []
  {
    ghost var keys0, kids0, par0 := target.keys, target.children, target.parent;
    c := target.NewNode(key);
    target.AddChild(croot, c);
    AppendedOne(keys0, kids0, par0, target.keys, target.children, target.parent, croot, key);
  }

  /** The leaf case: the copy of a leaf is a leaf with the same key, as a string. */
  lemma CopiedLeaf(target: Arena<string>, c: nat, t: Tree<char>)
    requires target.Valid() && c < |target.keys| && target.children[c] == [] && |t.children| == 0
    requires target.keys[c] == [t.key]
    ensures target.TreeAt(c) == Contract(t)
  {
    target.TreeAtSmall(c);
  }

  /** The unary case: node c keyed by the chain, with the copy of the chain's end below it. */
  lemma CopiedChain(target: Arena<string>, c: nat, t: Tree<char>, end: Tree<char>)
    requires target.Valid() && c + 1 < |target.keys| && target.children[c] == [c + 1]
    requires |t.children| == 1 && target.keys[c] == ChainKeys(t) && end == ChainEnd(t)
    requires target.TreeAt(c + 1) == Contract(end)
    ensures target.TreeAt(c) == Contract(t)
  {
    target.TreeAtSmall(c);
  }

  /** The binary case: node c keyed by the spine, with the copies of the spine's end and of the right side. */
  /**
   * The arena (keys, kids, par) extends (keys1, kids1, par1), whose last node
   * is c, by nodes hung below c only: the other nodes and c's own key and
   * parent keep their values.
   */
  ghost predicate Extended<U>(keys1: seq<U>, kids1: seq<seq<nat>>, par1: seq<int>,
                              keys: seq<U>, kids: seq<seq<nat>>, par: seq<int>, c: nat)
  {
    c + 1 == |keys1| < |keys| && |kids1| == |keys1| && |par1| == |keys1| && |kids| == |keys| && |par| == |keys| &&
    keys[c] == keys1[c] && par[c] == par1[c] &&
    forall y :: 0 <= y < c ==> keys[y] == keys1[y] && kids[y] == kids1[y] && par[y] == par1[y]
  }

  /** Attaching node c below croot and then extending below c appends c below croot. */
  lemma AppendedExtended<U>(keys0: seq<U>, kids0: seq<seq<nat>>, par0: seq<int>,
                            keys1: seq<U>, kids1: seq<seq<nat>>, par1: seq<int>,
                            keys: seq<U>, kids: seq<seq<nat>>, par: seq<int>, croot: nat)
    requires Appended(keys0, kids0, par0, keys1, kids1, par1, croot)
    requires Extended(keys1, kids1, par1, keys, kids, par, |keys0|)
    ensures Appended(keys0, kids0, par0, keys, kids, par, croot) && keys[|keys0|] == keys1[|keys0|]
  {
  }

  /**
   * The binary case, as arena snapshots: the spine node c attached (state 1),
   * the copy of the spine's end appended below it (state 2), then the copy of
   * the right child (the final state).  Node c has exactly those two children
   * and the nodes of state 2 from c + 1 on are untouched.
   */
  lemma SpineAppended<U>(keys1: seq<U>, kids1: seq<seq<nat>>, par1: seq<int>,
                         keys2: seq<U>, kids2: seq<seq<nat>>, par2: seq<int>,
                         keys: seq<U>, kids: seq<seq<nat>>, par: seq<int>, c: nat)
    requires |keys1| == c + 1 && |kids1| == c + 1 && kids1[c] == []
    requires Appended(keys1, kids1, par1, keys2, kids2, par2, c)
    requires Appended(keys2, kids2, par2, keys, kids, par, c)
    ensures Extended(keys1, kids1, par1, keys, kids, par, c)
    ensures c + 1 < |keys2| < |keys| && kids[c] == [c + 1, |keys2|]
    ensures forall y :: c + 1 <= y < |keys2| ==> keys[y] == keys2[y] && kids[y] == kids2[y]
  {
    assert kids2[c] == [c + 1];
  }

  /** The contraction of a binary node, one step unfolded. */
  lemma ContractBinary(t: Tree<char>)
    requires |t.children| >= 2
    ensures Contract(t) == Node(SpineKeys(t), [Contract(SpineEnd(t)), Contract(t.children[1])])
  {
  }

  /** The unfolded tree of a node with two children. */
  lemma UnfoldTwo<U>(keys: seq<U>, kids: seq<seq<nat>>, c: nat, a: nat, b: nat)
    requires |keys| == |kids| && Ordered(kids) && c < |kids| && kids[c] == [a, b]
    ensures a < |kids| && b < |kids| && Unfold(keys, kids, c) == Node(keys[c], [Unfold(keys, kids, a), Unfold(keys, kids, b)])
  {
    assert kids[c][0] == a && kids[c][1] == b;
    assert Unfold(keys, kids, c).children == [Unfold(keys, kids, a), Unfold(keys, kids, b)];
  }

  /**
   * The binary case: the tree at the spine node c has the spine's end as it
   * was copied in state 2 and the right child's copy as its two children.
   */
  lemma SpineCopied<U>(keys2: seq<U>, kids2: seq<seq<nat>>, keys: seq<U>, kids: seq<seq<nat>>, c: nat, left: Tree<U>, right: Tree<U>)
    requires |keys2| == |kids2| && Ordered(kids2) && |keys| == |kids| && Ordered(kids)
    requires c + 1 < |keys2| < |keys| && kids[c] == [c + 1, |keys2|]
    requires forall y :: c + 1 <= y < |keys2| ==> keys[y] == keys2[y] && kids[y] == kids2[y]
    requires Unfold(keys2, kids2, c + 1) == left && Unfold(keys, kids, |keys2|) == right
    ensures Unfold(keys, kids, c) == Node(keys[c], [left, right])
  {
    UnfoldFrame(keys2, kids2, keys, kids, c + 1, |keys2|);
    UnfoldTwo(keys, kids, c, c + 1, |keys2|);
  }

  /**
   * copyToContractedTree: hangs the contracted copy of the subtree at root
   * below croot, as croot's new last child (the first node appended).  The
   * unary and the binary branch are the methods CopyChain and CopySpine.
   */
  method CopyToContractedTree(target: Arena<string>, croot: nat, source: Arena<char>, root: nat)
    requires target.Valid() && croot < |target.keys| && source.Valid() && root < |source.keys|
    modifies target
    ensures target.Valid()
    ensures Appended(old(target.keys), old(target.children), old(target.parent), target.keys, target.children, target.parent, croot)
    ensures target.TreeAt(old(|target.keys|)) == Contract(source.TreeAt(root))
    decreases |source.keys| - root, 2
  {
    source.ChildCount(root);
    if |source.children[root]| == 0 {
      var leaf := Attach(target, croot, [source.keys[root]]);
      CopiedLeaf(target, leaf, source.TreeAt(root));
    } else if |source.children[root]| == 1 {
      CopyChain(target, croot, source, root);
    } else {
      CopySpine(target, croot, source, root);
    }
  }

  /** The unary branch: one node keyed by the whole unary chain, and the copy of what follows it. */
  method CopyChain(target: Arena<string>, croot: nat, source: Arena<char>, root: nat)
    requires target.Valid() && croot < |target.keys| && source.Valid() && root < |source.keys|
    requires |source.children[root]| == 1
    modifies target
    ensures target.Valid()
    ensures Appended(old(target.keys), old(target.children), old(target.parent), target.keys, target.children, target.parent, croot)
    ensures target.TreeAt(old(|target.keys|)) == Contract(source.TreeAt(root))
    decreases |source.keys| - root, 0
  {
    ghost var keys0, kids0, par0 := target.keys, target.children, target.parent;
    var superNodeKeys, r := CollectChain(source, root);
    var contractedChild := Attach(target, croot, superNodeKeys);
    ghost var keys1, kids1, par1 := target.keys, target.children, target.parent;
    CopyToContractedTree(target, contractedChild, source, r);
    AppendedTwice(keys0, kids0, par0, keys1, kids1, par1, target.keys, target.children, target.parent, croot);
    CopiedChain(target, contractedChild, source.TreeAt(root), source.TreeAt(r));
  }

  /**
   * The binary branch: one node keyed by the whole left spine, with the
   * copies of the spine's end and of root's right child below it.
   */
  method CopySpine(target: Arena<string>, croot: nat, source: Arena<char>, root: nat)
    requires target.Valid() && croot < |target.keys| && source.Valid() && root < |source.keys|
    requires |source.children[root]| >= 2
    modifies target
    ensures target.Valid()
    ensures Appended(old(target.keys), old(target.children), old(target.parent), target.keys, target.children, target.parent, croot)
    ensures target.TreeAt(old(|target.keys|)) == Contract(source.TreeAt(root))
    decreases |source.keys| - root, 1
  {
    ghost var keys0, kids0, par0 := target.keys, target.children, target.parent;
    source.ChildAt(root, 1);
    var rightSide := source.children[root][1];
    var contractedNodeKeys, r := CollectSpine(source, root);
    var contractedChild := Attach(target, croot, contractedNodeKeys);
    ghost var keys1, kids1, par1 := target.keys, target.children, target.parent;
    CopySpineChildren(target, contractedChild, source, root, r, rightSide);
    AppendedExtended(keys0, kids0, par0, keys1, kids1, par1, target.keys, target.children, target.parent, croot);
    ContractBinary(source.TreeAt(root));
  }

  /**
   * The two recursive calls of the binary branch: below the fresh node c,
   * the copies of the spine's end r and of the right child rightSide.
   */
  method CopySpineChildren(target: Arena<string>, c: nat, source: Arena<char>, ghost root: nat, r: nat, rightSide: nat)
    requires target.Valid() && c + 1 == |target.keys| && target.children[c] == []
    requires source.Valid() && root < r < |source.keys| && root < rightSide < |source.keys|
    modifies target
    ensures target.Valid()
    ensures Extended(old(target.keys), old(target.children), old(target.parent), target.keys, target.children, target.parent, c)
    ensures target.TreeAt(c) == Node(target.keys[c], [Contract(source.TreeAt(r)), Contract(source.TreeAt(rightSide))])
    decreases |source.keys| - root, 0
  {
    ghost var keys1, kids1, par1 := target.keys, target.children, target.parent;
    CopyToContractedTree(target, c, source, r);
    ghost var keys2, kids2, par2 := target.keys, target.children, target.parent;
    assert Unfold(keys2, kids2, c + 1) == Contract(source.TreeAt(r));
    CopyToContractedTree(target, c, source, rightSide);
    SpineAppended(keys1, kids1, par1, keys2, kids2, par2, target.keys, target.children, target.parent, c);
    SpineCopied(keys2, kids2, target.keys, target.children, c,
                Contract(source.TreeAt(r)), Contract(source.TreeAt(rightSide)));
  }

  /** The while loop of the unary case: the keys of the unary chain at root and the node below it. */
  method CollectChain(source: Arena<char>, root: nat) returns (superNodeKeys: string, r: nat)
    requires source.Valid() && root < |source.keys| && |source.children[root]| == 1
    ensures root < r < |source.keys|
    ensures superNodeKeys == ChainKeys(source.TreeAt(root)) && source.TreeAt(r) == ChainEnd(source.TreeAt(root))
  {
    superNodeKeys := "";
    r := root;
    while |source.children[r]| == 1
      invariant root <= r < |source.keys|
      invariant superNodeKeys + ChainKeys(source.TreeAt(r)) == ChainKeys(source.TreeAt(root))
      invariant ChainEnd(source.TreeAt(r)) == ChainEnd(source.TreeAt(root))
      decreases |source.keys| - r
    {
      source.ChildCount(r);
      source.ChildAt(r, 0);
      superNodeKeys := superNodeKeys + [source.keys[r]];
      r := source.children[r][0];
    }
    source.ChildCount(r);
  }

  /**
   * The do-while loop of the binary case: the keys of the left spine at root
   * and the node the loop stops at.
   */
  method CollectSpine(source: Arena<char>, root: nat) returns (contractedNodeKeys: string, r: nat)
    requires source.Valid() && root < |source.keys| && |source.children[root]| >= 2
    ensures root < r < |source.keys|
    ensures contractedNodeKeys == SpineKeys(source.TreeAt(root)) && source.TreeAt(r) == SpineEnd(source.TreeAt(root))
  {
    source.ChildCount(root);
    source.ChildAt(root, 0);
    contractedNodeKeys := [source.keys[root]];
    r := source.children[root][0];
    while |source.children[r]| > 1 && source.keys[source.children[r][1]] == 'e'
      invariant root < r < |source.keys|
      invariant contractedNodeKeys + (if Continues(source.TreeAt(r)) then SpineKeys(source.TreeAt(r)) else "") == SpineKeys(source.TreeAt(root))
      invariant (if Continues(source.TreeAt(r)) then SpineEnd(source.TreeAt(r)) else source.TreeAt(r)) == SpineEnd(source.TreeAt(root))
      decreases |source.keys| - r
    {
      source.ChildCount(r);
      source.ChildAt(r, 0);
      source.ChildAt(r, 1);
      contractedNodeKeys := contractedNodeKeys + [source.keys[r]];
      r := source.children[r][0];
    }
    source.ChildCount(r);
    if |source.children[r]| > 1 {
      source.ChildAt(r, 1);
    }
  }

  /** buildContractedTree(Node): the contracted copy of the tree at root, without the sentinel. */
  method BuildContractedTreeFrom(source: Arena<char>, root: nat) returns (tree: Arena<string>, contractedRoot: nat)
    requires source.Valid() && root < |source.keys|
    ensures fresh(tree) && tree.Valid() && contractedRoot < |tree.keys|
    ensures tree.TreeAt(contractedRoot) == Contract(source.TreeAt(root))
  {
    tree := new Arena();
    contractedRoot := tree.NewNode("f");
    CopyToContractedTree(tree, contractedRoot, source, root);
    if |tree.children[contractedRoot]| != 0 {
      contractedRoot := tree.children[contractedRoot][0];
    }
  }

  /** buildContractedTree(String, String): the contracted tree of the strict tree of the input. */
  method BuildContractedTree(sequence: string, structure: string) returns (tree: Arena<string>, contractedRoot: nat)
    requires Buildable(sequence, structure)
    ensures fresh(tree) && tree.Valid() && contractedRoot < |tree.keys|
    ensures tree.TreeAt(contractedRoot) == Contract(StrictAt(sequence, structure, 0))
  {
    var strict, root := BuildStrictlyRankedTree(sequence, structure);
    tree, contractedRoot := BuildContractedTreeFrom(strict, root);
  }
}

