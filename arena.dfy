/**
 * The Node objects of Node.java.  All nodes of one tree live in an arena:
 * node x has key keys[x], parent parent[x] (-1 for null) and the ordered
 * child list children[x].  Node identity is the index.  Every tree the codec
 * builds adds a child only below an older node, so child indices exceed their
 * parent's (Ordered) and a node's subtree can be read off as a Tree value.
 */
module Arenas {
  import opened Trees

  /** Every child index exceeds its parent's index and is a node. */
  ghost predicate Ordered(kids: seq<seq<nat>>)
  {
    forall x, j :: 0 <= x < |kids| && 0 <= j < |kids[x]| ==> x < kids[x][j] < |kids|
  }

  /**
   * Parent pointers agree with child lists: a listed child points back to its
   * owner, a node with a parent is listed by it, and no list names a node twice.
   */
  ghost predicate Linked(parent: seq<int>, kids: seq<seq<nat>>)
    requires |parent| == |kids|
  {
    (forall p, j :: 0 <= p < |kids| && 0 <= j < |kids[p]| && kids[p][j] < |parent| ==> parent[kids[p][j]] == p) &&
    (forall c :: 0 <= c < |parent| ==> parent[c] == -1 || (0 <= parent[c] < |kids| && c in kids[parent[c]])) &&
    (forall p, i, j :: 0 <= p < |kids| && 0 <= i < j < |kids[p]| ==> kids[p][i] != kids[p][j])
  }

  /** The k-th ancestor of y (-1 once the chain passes the root). */
  function Anc(parent: seq<int>, y: int, k: nat): int
    decreases k
  {
    if k == 0 then y else if 0 <= y < |parent| then Anc(parent, parent[y], k - 1) else -1
  }

  predicate Distinct<T(==)>(s: seq<T>)
  {
    forall i, j :: 0 <= i < j < |s| ==> s[i] != s[j]
  }

  /** The subtree rooted at node x, as a value. */
  ghost function Unfold<T>(keys: seq<T>, kids: seq<seq<nat>>, x: nat): Tree<T>
    requires |keys| == |kids| && Ordered(kids) && x < |kids|
    decreases |kids| - x
  {
    Node(keys[x], seq(|kids[x]|, i requires 0 <= i < |kids[x]| => Unfold(keys, kids, kids[x][i])))
  }

  /** Node identities 0 .. n-1, the keys of the tree of nodes. */
  function Ids(n: nat): (ids: seq<nat>)
    ensures |ids| == n && forall i :: 0 <= i < n ==> ids[i] == i
  {
    seq(n, i requires 0 <= i < n => i)
  }

  /** The nodes of the subtree at x that have no children, in order. */
  function LeafNodes(kids: seq<seq<nat>>, ns: seq<nat>): seq<nat>
  {
    if ns == [] then []
    else (if ns[0] < |kids| && kids[ns[0]] == [] then [ns[0]] else []) + LeafNodes(kids, ns[1..])
  }

  class Arena<T> {
    var keys: seq<T>
    var parent: seq<int>
    var children: seq<seq<nat>>

    ghost predicate Valid()
      reads this
    {
      |parent| == |keys| && |children| == |keys| && Ordered(children) && Linked(parent, children)
    }

    /** The tree below node x. */
    ghost function TreeAt(x: nat): Tree<T>
      reads this
      requires Valid() && x < |keys|
    {
      Unfold(keys, children, x)
    }

    /** The tree below node x with every node replaced by its identity. */
    ghost function NodesAt(x: nat): Tree<nat>
      reads this
      requires Valid() && x < |keys|
    {
      Unfold(Ids(|keys|), children, x)
    }

    constructor ()
      ensures Valid() && keys == [] && parent == [] && children == []
    {
      keys, parent, children := [], [], [];
    }

    /** `new Node<>(key)`: a fresh node without parent and children. */
    method NewNode(key: T) returns (x: nat)
      modifies this
      ensures x == old(|keys|)
      ensures keys == old(keys) + [key] && parent == old(parent) + [-1] && children == old(children) + [[]]
      ensures old(Valid()) ==> Valid()
    {
      x := |keys|;
      assert |children| == |keys| && Ordered(children) ==> forall p :: 0 <= p < |children| ==> x !in children[p];
      keys, parent, children := keys + [key], parent + [-1], children + [[]];
    }

    /** addChild: appends c to p's children and makes p the parent of c, changing nothing else. */
    method AddChild(p: nat, c: nat)
      requires p < |keys| && c < |keys| && |parent| == |keys| && |children| == |keys|
      modifies this
      ensures keys == old(keys)
      ensures children == old(children)[p := old(children[p]) + [c]]
      ensures parent == old(parent)[c := p]
      ensures old(Valid()) && p < c && old(parent[c]) == -1 ==> Valid()
    {
      children := children[p := children[p] + [c]];
      parent := parent[c := p];
    }

    /** `node.key = key`. */
    method SetKey(x: nat, key: T)
      requires x < |keys|
      modifies this
      ensures keys == old(keys)[x := key] && parent == old(parent) && children == old(children)
    {
      keys := keys[x := key];
    }

    /** Child i of node x is the root of the i-th subtree of the tree at x. */
    lemma ChildAt(x: nat, i: nat)
      requires Valid() && x < |keys| && i < |children[x]|
      ensures x < children[x][i] < |keys|
      ensures |TreeAt(x).children| == |children[x]| && TreeAt(x).children[i] == TreeAt(children[x][i])
      ensures |NodesAt(x).children| == |children[x]| && NodesAt(x).children[i] == NodesAt(children[x][i])
    {
    }

    /** The tree at x has one subtree per child of x. */
    lemma ChildCount(x: nat)
      requires Valid() && x < |keys|
      ensures |TreeAt(x).children| == |children[x]| && |NodesAt(x).children| == |children[x]|
      ensures TreeAt(x).key == keys[x]
    {
    }

    /** The tree at a node with at most two children, from its key and its children's trees. */
    lemma TreeAtSmall(x: nat)
      requires Valid() && x < |keys| && |children[x]| <= 2
      ensures x < |keys| && TreeAt(x).key == keys[x]
      ensures |children[x]| == 0 ==> TreeAt(x) == Node(keys[x], [])
      ensures |children[x]| == 1 ==> x < children[x][0] < |keys| && TreeAt(x) == Node(keys[x], [TreeAt(children[x][0])])
      ensures |children[x]| == 2 ==> x < children[x][0] < |keys| && x < children[x][1] < |keys| &&
                                      TreeAt(x) == Node(keys[x], [TreeAt(children[x][0]), TreeAt(children[x][1])])
    {
      var t := TreeAt(x);
      if |children[x]| == 1 {
        assert t.children == [TreeAt(children[x][0])];
      } else if |children[x]| == 2 {
        assert t.children == [TreeAt(children[x][0]), TreeAt(children[x][1])];
      }
    }

    /** generatePreorder: appends the keys of the subtree at x in preorder. */
    method GeneratePreorder(traversal: seq<T>, x: nat) returns (r: seq<T>)
      requires Valid() && x < |keys|
      ensures r == traversal + Preorder(TreeAt(x))
      decreases |keys| - x
    {
      ghost var t := TreeAt(x);
      r := traversal + [keys[x]];
      var i := 0;
      while i < |children[x]|
        invariant 0 <= i <= |children[x]|
        invariant r == traversal + [t.key] + Flatten(ChildPreorders(t)[..i])
      {
        ChildAt(x, i);
        r := GeneratePreorder(r, children[x][i]);
        FlattenPrefixStep(ChildPreorders(t), i);
        i := i + 1;
      }
      ChildCount(x);
      PreorderClose(t, traversal, r, i);
    }

    /** getPreorder: the keys of the subtree at x in preorder. */
    method GetPreorder(x: nat) returns (r: seq<T>)
      requires Valid() && x < |keys|
      ensures r == Preorder(TreeAt(x))
    {
      r := GeneratePreorder([], x);
    }

    /** size: the number of nodes of the subtree at x, the length of its preorder. */
    method Size(x: nat) returns (n: nat)
      requires Valid() && x < |keys|
      ensures n == |Preorder(TreeAt(x))|
    {
      var p := GetPreorder(x);
      n := |p|;
    }

    /** generatePreorderNodes: appends the nodes of the subtree at x in preorder. */
    method GeneratePreorderNodes(traversal: seq<nat>, x: nat) returns (r: seq<nat>)
      requires Valid() && x < |keys|
      ensures r == traversal + Preorder(NodesAt(x))
      decreases |keys| - x
    {
      ghost var t := NodesAt(x);
      r := traversal + [x];
      var i := 0;
      while i < |children[x]|
        invariant 0 <= i <= |children[x]|
        invariant r == traversal + [t.key] + Flatten(ChildPreorders(t)[..i])
      {
        ChildAt(x, i);
        r := GeneratePreorderNodes(r, children[x][i]);
        FlattenPrefixStep(ChildPreorders(t), i);
        i := i + 1;
      }
      ChildCount(x);
      PreorderClose(t, traversal, r, i);
    }

    /** getPreorderNodes: the nodes of the subtree at x in preorder. */
    method GetPreorderNodes(x: nat) returns (r: seq<nat>)
      requires Valid() && x < |keys|
      ensures r == Preorder(NodesAt(x))
    {
      r := GeneratePreorderNodes([], x);
    }

    /** generateAllSubChildren: the same traversal as generatePreorderNodes. */
    method GenerateAllSubChildren(nodes: seq<nat>, x: nat) returns (r: seq<nat>)
      requires Valid() && x < |keys|
      ensures r == nodes + Preorder(NodesAt(x))
      decreases |keys| - x
    {
      ghost var t := NodesAt(x);
      r := nodes + [x];
      var i := 0;
      while i < |children[x]|
        invariant 0 <= i <= |children[x]|
        invariant r == nodes + [t.key] + Flatten(ChildPreorders(t)[..i])
      {
        ChildAt(x, i);
        r := GenerateAllSubChildren(r, children[x][i]);
        FlattenPrefixStep(ChildPreorders(t), i);
        i := i + 1;
      }
      ChildCount(x);
      PreorderClose(t, nodes, r, i);
    }

    /** getAllSubChildren: every node of the subtree at x in preorder, the same list as getPreorderNodes. */
    method GetAllSubChildren(x: nat) returns (r: seq<nat>)
      requires Valid() && x < |keys|
      ensures r == Preorder(NodesAt(x))
    {
      r := GenerateAllSubChildren([], x);
    }
  

    /** generatePreorderLeaves: appends the childless nodes of the subtree at x, left to right. */
    method GeneratePreorderLeaves(traversal: seq<nat>, x: nat) returns (r: seq<nat>)
      requires Valid() && x < |keys|
      ensures r == traversal + LeafKeys(NodesAt(x))
      decreases |keys| - x
    {
      ghost var t := NodesAt(x);
      if |children[x]| == 0 {
        ChildCount(x);
        r := traversal + [x];
      } else {
        r := traversal;
        var i := 0;
        while i < |children[x]|
          invariant 0 <= i <= |children[x]|
          invariant r == traversal + Flatten(ChildLeafKeys(t)[..i])
        {
          ChildAt(x, i);
          r := GeneratePreorderLeaves(r, children[x][i]);
          FlattenPrefixStep(ChildLeafKeys(t), i);
          i := i + 1;
        }
        ChildCount(x);
        LeavesClose(t, traversal, r, i);
      }
    }

    /** getPreorderLeaves: the childless nodes of the subtree at x, left to right. */
    method GetPreorderLeaves(x: nat) returns (r: seq<nat>)
      requires Valid() && x < |keys|
      ensures r == LeafKeys(NodesAt(x))
    {
      r := GeneratePreorderLeaves([], x);
    }

    /** bracketRecursion: appends '(' , the children's brackets, and ')' unless unbalanced and binary. */
    method BracketRecursion(buffer: string, x: nat, balanced: bool) returns (r: string)
      requires Valid() && x < |keys|
      ensures r == buffer + Brackets(TreeAt(x), balanced)
      decreases |keys| - x
    {
      ghost var t := TreeAt(x);
      ghost var bs := ChildBrackets(t, balanced);
      r := buffer + "(";
      var i := 0;
      while i < |children[x]|
        invariant 0 <= i <= |children[x]|
        invariant r == buffer + "(" + Flatten(bs[..i])
      {
        ChildAt(x, i);
        r := BracketRecursion(r, children[x][i], balanced);
        FlattenPrefixStep(bs, i);
        i := i + 1;
      }
      ChildCount(x);
      BracketsClose(t, balanced, buffer, r, |children[x]|);
      if balanced || |children[x]| != 2 {
        r := r + ")";
      }
    }

    /** getBrackets: the balanced parenthesis string of the subtree at x. */
    method GetBrackets(x: nat) returns (r: string)
      requires Valid() && x < |keys|
      ensures r == Brackets(TreeAt(x), true)
      ensures |r| == 2 * |Preorder(TreeAt(x))| && Balanced(r)
    {
      r := BracketRecursion([], x, true);
      BracketsBalanced(TreeAt(x));
    }

    /** getImbalancedBrackets: the bracket string without the closing bracket of each two-child node. */
    method GetImbalancedBrackets(x: nat) returns (r: string)
      requires Valid() && x < |keys|
      ensures r == Brackets(TreeAt(x), false)
      ensures |r| == 2 * |Preorder(TreeAt(x))| - BinaryCount(TreeAt(x)) && r[0] == '('
    {
      r := BracketRecursion([], x, false);
      ImbalancedBracketsLength(TreeAt(x));
    }

    /** Position j of the preorder of the tree at x is node Preorder(NodesAt(x))[j], with its key and child count. */
    lemma PreorderOfNodes(x: nat)
      requires Valid() && x < |keys|
      ensures |Preorder(NodesAt(x))| == |Preorder(TreeAt(x))| == |Arities(TreeAt(x))|
      ensures forall j :: 0 <= j < |Preorder(NodesAt(x))| ==> Preorder(NodesAt(x))[j] < |keys|
      ensures forall j :: 0 <= j < |Preorder(NodesAt(x))| ==> Preorder(TreeAt(x))[j] == keys[Preorder(NodesAt(x))[j]]
      ensures forall j :: 0 <= j < |Preorder(NodesAt(x))| ==> Arities(TreeAt(x))[j] == |children[Preorder(NodesAt(x))[j]]|
    {
      UnfoldMapsTo(keys, children, x);
      UnfoldMapsTo(ChildCounts(children), children, x);
      ArityUnfold(keys, children, x);
    }

    lemma ParentsBelow()
      requires Valid()
      ensures forall c :: 0 <= c < |parent| ==> -1 <= parent[c] < c
    {
    }

    /** The preorder node list at x starts with x. */
    lemma PreorderRoot(x: nat)
      requires Valid() && x < |keys|
      ensures Preorder(NodesAt(x)) == [x] + Flatten(ChildPreorders(NodesAt(x)))
    {
    }

    /** A node listed below a child of x lies in the subtree of one child, and is younger than x. */
    lemma InChild(x: nat, y: nat) returns (a: nat)
      requires Valid() && x < |keys| && y in Flatten(ChildPreorders(NodesAt(x)))
      ensures a < |children[x]| && y in Preorder(NodesAt(children[x][a]))
    {
      var ps := ChildPreorders(NodesAt(x));
      FlattenMember(ps, y);
      a :| 0 <= a < |ps| && y in ps[a];
      ChildAt(x, a);
    }

    /** Every node listed below x is x itself or has x on its parent chain, k steps up. */
    lemma {:induction false} AncestorOf(x: nat, y: nat) returns (k: nat)
      requires Valid() && x < |keys| && y in Preorder(NodesAt(x))
      ensures x <= y < |keys| && Anc(parent, y, k) == x
      decreases |keys| - x
    {
      PreorderRoot(x);
      if y == x {
        k := 0;
      } else {
        var a := InChild(x, y);
        var c := children[x][a];
        ChildAt(x, a);
        var k' := AncestorOf(c, y);
        AncCompose(parent, y, k', 1);
        assert Anc(parent, c, 1) == x;
        k := k' + 1;
      }
    }

    /** The subtrees of two different children of x share no node. */
    lemma SiblingsDisjoint(x: nat, a: nat, b: nat, y: nat)
      requires Valid() && x < |keys| && a < b < |children[x]|
      requires y in Preorder(NodesAt(children[x][a]))
      ensures y !in Preorder(NodesAt(children[x][b]))
    {
      var c1, c2 := children[x][a], children[x][b];
      ChildAt(x, a);
      ChildAt(x, b);
      ParentsBelow();
      var k1 := AncestorOf(c1, y);
      if y in Preorder(NodesAt(c2)) {
        var k2 := AncestorOf(c2, y);
        if k1 < k2 {
          AncCompose(parent, y, k1, k2 - k1);
          assert Anc(parent, c1, k2 - k1) == Anc(parent, x, k2 - k1 - 1);
          AncBelow(parent, x, k2 - k1 - 1);
        } else if k1 > k2 {
          AncCompose(parent, y, k2, k1 - k2);
          assert Anc(parent, c2, k1 - k2) == Anc(parent, x, k1 - k2 - 1);
          AncBelow(parent, x, k1 - k2 - 1);
        }
        assert false;
      }
    }

    /** A preorder node list never names a node twice. */
    lemma {:induction false} PreorderDistinct(x: nat)
      requires Valid() && x < |keys|
      ensures Distinct(Preorder(NodesAt(x)))
      decreases |keys| - x
    {
      var ps := ChildPreorders(NodesAt(x));
      forall a | 0 <= a < |ps| ensures Distinct(ps[a]) {
        ChildAt(x, a);
        PreorderDistinct(children[x][a]);
      }
      forall a, b, y: nat | 0 <= a < b < |ps| && y in ps[a] ensures y !in ps[b] {
        ChildAt(x, a);
        ChildAt(x, b);
        SiblingsDisjoint(x, a, b, y);
      }
      DistinctFlatten(ps);
      forall y: nat | y in Flatten(ps) ensures y != x {
        var a := InChild(x, y);
        ChildAt(x, a);
        var k := AncestorOf(children[x][a], y);
      }
      PreorderRoot(x);
      DistinctCons(x, Flatten(ps));
    }

    /** The leaves found by getPreorderLeaves are exactly the childless nodes of getPreorderNodes, in the same order. */
    lemma {:induction false} LeavesArePreorderLeaves(x: nat)
      requires Valid() && x < |keys|
      ensures LeafKeys(NodesAt(x)) == LeafNodes(children, Preorder(NodesAt(x)))
      decreases |keys| - x
    {
      var t := NodesAt(x);
      var ps := ChildPreorders(t);
      var ls := ChildLeafKeys(t);
      forall i | 0 <= i < |ps| ensures ls[i] == LeafNodes(children, ps[i]) {
        LeavesArePreorderLeaves(children[x][i]);
      }
      assert Preorder(t) == [x] + Flatten(ps);
      LeafNodesConcat(children, [x], Flatten(ps));
      if children[x] != [] {
        LeafNodesFlatten(children, ps, ls);
      }
    }
  }

  /** The preorder of a node once the preorders of all its children are in place. */
  lemma PreorderClose<T>(t: Tree<T>, prefix: seq<T>, r: seq<T>, n: nat)
    requires n == |t.children| && r == prefix + [t.key] + Flatten(ChildPreorders(t)[..n])
    ensures r == prefix + Preorder(t)
  {
    assert ChildPreorders(t)[..n] == ChildPreorders(t);
  }

  /** The leaves of a node with children once the leaves of all its children are in place. */
  lemma LeavesClose<T>(t: Tree<T>, prefix: seq<T>, r: seq<T>, n: nat)
    requires n == |t.children| > 0 && r == prefix + Flatten(ChildLeafKeys(t)[..n])
    ensures r == prefix + LeafKeys(t)
  {
    assert ChildLeafKeys(t)[..n] == ChildLeafKeys(t);
  }

  /**
   * The subtree at x only depends on the nodes x..hi-1 when their children all
   * lie below hi: other arenas that agree on those nodes unfold x the same way.
   */
  lemma {:induction false} UnfoldFrame<U>(keys: seq<U>, kids: seq<seq<nat>>, keys': seq<U>, kids': seq<seq<nat>>, x: nat, hi: nat)
    requires |keys| == |kids| && Ordered(kids) && |keys'| == |kids'| && Ordered(kids')
    requires x < hi <= |kids| && hi <= |kids'|
    requires forall y :: x <= y < hi ==> keys'[y] == keys[y] && kids'[y] == kids[y]
    requires forall y, j :: x <= y < hi && 0 <= j < |kids[y]| ==> kids[y][j] < hi
    ensures Unfold(keys', kids', x) == Unfold(keys, kids, x)
    decreases hi - x
  {
    var t, t' := Unfold(keys, kids, x), Unfold(keys', kids', x);
    forall i | 0 <= i < |kids[x]| ensures t'.children[i] == t.children[i] {
      UnfoldFrame(keys, kids, keys', kids', kids[x][i], hi);
    }
    assert t'.children == t.children;
  }

  /** Closing the bracket string of a node whose children's brackets are all in place. */
  lemma BracketsClose<T>(t: Tree<T>, balanced: bool, buffer: string, r: string, n: nat)
    requires n == |t.children| && r == buffer + "(" + Flatten(ChildBrackets(t, balanced)[..n])
    ensures (if balanced || n != 2 then r + ")" else r) == buffer + Brackets(t, balanced)
  {
    assert ChildBrackets(t, balanced)[..n] == ChildBrackets(t, balanced);
  }

  lemma {:induction false} LeafNodesConcat(kids: seq<seq<nat>>, a: seq<nat>, b: seq<nat>)
    ensures LeafNodes(kids, a + b) == LeafNodes(kids, a) + LeafNodes(kids, b)
  {
    if a == [] {
      assert a + b == b;
    } else {
      assert (a + b)[1..] == a[1..] + b;
      LeafNodesConcat(kids, a[1..], b);
    }
  }

  lemma {:induction false} LeafNodesFlatten(kids: seq<seq<nat>>, ps: seq<seq<nat>>, ls: seq<seq<nat>>)
    requires |ps| == |ls|
    requires forall j :: 0 <= j < |ps| ==> ls[j] == LeafNodes(kids, ps[j])
    ensures LeafNodes(kids, Flatten(ps)) == Flatten(ls)
  {
    if ps != [] {
      LeafNodesFlatten(kids, ps[1..], ls[1..]);
      LeafNodesConcat(kids, ps[0], Flatten(ps[1..]));
    }
  }

  lemma {:induction false} AncCompose(parent: seq<int>, y: int, a: nat, b: nat)
    ensures Anc(parent, y, a + b) == Anc(parent, Anc(parent, y, a), b)
    decreases a
  {
    if a > 0 && 0 <= y < |parent| {
      AncCompose(parent, parent[y], a - 1, b);
    }
  }

  /** Ancestors never have larger indices when every parent is older than its child. */
  lemma {:induction false} AncBelow(parent: seq<int>, y: int, k: nat)
    requires forall c :: 0 <= c < |parent| ==> -1 <= parent[c] < c
    requires -1 <= y
    ensures -1 <= Anc(parent, y, k) <= y
    decreases k
  {
    if k > 0 && 0 <= y < |parent| {
      AncBelow(parent, parent[y], k - 1);
    }
  }

  lemma {:induction false} FlattenMember<T>(ss: seq<seq<T>>, y: T)
    ensures y in Flatten(ss) <==> exists a :: 0 <= a < |ss| && y in ss[a]
  {
    if ss != [] {
      FlattenMember(ss[1..], y);
      if y in Flatten(ss[1..]) {
        var a :| 0 <= a < |ss[1..]| && y in ss[1..][a];
        assert y in ss[a + 1];
      }
      if exists a :: 0 <= a < |ss| && y in ss[a] {
        var a :| 0 <= a < |ss| && y in ss[a];
        if a > 0 {
          assert y in ss[1..][a - 1];
        }
      }
    }
  }

  /** Concatenating duplicate-free lists that share no element gives a duplicate-free list. */
  lemma {:induction false} DistinctFlatten<T>(ss: seq<seq<T>>)
    requires forall a :: 0 <= a < |ss| ==> Distinct(ss[a])
    requires forall a, b, y :: 0 <= a < b < |ss| && y in ss[a] ==> y !in ss[b]
    ensures Distinct(Flatten(ss))
  {
    if ss != [] {
      DistinctFlatten(ss[1..]);
      var h, t := ss[0], Flatten(ss[1..]);
      forall y | y in h ensures y !in t {
        FlattenMember(ss[1..], y);
        forall a | 0 <= a < |ss[1..]| ensures y !in ss[1..][a] {
          assert ss[1..][a] == ss[a + 1];
        }
      }
      forall i, j | 0 <= i < j < |h + t| ensures (h + t)[i] != (h + t)[j] {
        if j < |h| {
        } else if i >= |h| {
          assert (h + t)[i] == t[i - |h|] && (h + t)[j] == t[j - |h|];
        } else {
          assert (h + t)[i] in h && (h + t)[j] == t[j - |h|];
        }
      }
    }
  }

  lemma DistinctCons<T>(x: T, f: seq<T>)
    requires x !in f && Distinct(f)
    ensures Distinct([x] + f)
  {
    forall i, j | 0 <= i < j < |[x] + f| ensures ([x] + f)[i] != ([x] + f)[j] {
      assert ([x] + f)[j] == f[j - 1] && f[j - 1] in f;
      if i > 0 {
        assert ([x] + f)[i] == f[i - 1];
      }
    }
  }

  /** a lists the K-entries of the indices b, position by position. */
  ghost predicate MapsTo<U>(a: seq<U>, b: seq<nat>, K: seq<U>)
  {
    |a| == |b| && forall k :: 0 <= k < |a| ==> b[k] < |K| && a[k] == K[b[k]]
  }

  lemma MapsToConcat<U>(a1: seq<U>, b1: seq<nat>, a2: seq<U>, b2: seq<nat>, K: seq<U>)
    requires MapsTo(a1, b1, K) && MapsTo(a2, b2, K)
    ensures MapsTo(a1 + a2, b1 + b2, K)
  {
    forall k | 0 <= k < |a1 + a2| ensures (b1 + b2)[k] < |K| && (a1 + a2)[k] == K[(b1 + b2)[k]] {
      if k >= |a1| {
        assert (a1 + a2)[k] == a2[k - |a1|] && (b1 + b2)[k] == b2[k - |b1|];
      }
    }
  }

  lemma {:induction false} MapsToFlatten<U>(as_: seq<seq<U>>, bs: seq<seq<nat>>, K: seq<U>)
    requires |as_| == |bs| && forall i :: 0 <= i < |as_| ==> MapsTo(as_[i], bs[i], K)
    ensures MapsTo(Flatten(as_), Flatten(bs), K)
  {
    if as_ != [] {
      MapsToFlatten(as_[1..], bs[1..], K);
      MapsToConcat(as_[0], bs[0], Flatten(as_[1..]), Flatten(bs[1..]), K);
    }
  }

  /** The preorder of the tree at x under keys K lists K at the preorder of its node identities. */
  lemma {:induction false} UnfoldMapsTo<U>(K: seq<U>, kids: seq<seq<nat>>, x: nat)
    requires |K| == |kids| && Ordered(kids) && x < |kids|
    ensures MapsTo(Preorder(Unfold(K, kids, x)), Preorder(Unfold(Ids(|kids|), kids, x)), K)
    decreases |kids| - x
  {
    var t := Unfold(K, kids, x);
    var u := Unfold(Ids(|kids|), kids, x);
    var ps := ChildPreorders(t);
    var qs := ChildPreorders(u);
    forall i | 0 <= i < |ps| ensures MapsTo(ps[i], qs[i], K) {
      UnfoldMapsTo(K, kids, kids[x][i]);
    }
    MapsToFlatten(ps, qs, K);
    MapsToConcat([K[x]], [x], Flatten(ps), Flatten(qs), K);
  }

  /** The child count of every node. */
  function ChildCounts(kids: seq<seq<nat>>): (r: seq<nat>)
    ensures |r| == |kids| && forall i :: 0 <= i < |kids| ==> r[i] == |kids[i]|
  {
    seq(|kids|, i requires 0 <= i < |kids| => |kids[i]|)
  }

  /** The child counts of the tree at x, whatever the keys, are the arena's child counts. */
  lemma {:induction false} ArityUnfold<U>(K: seq<U>, kids: seq<seq<nat>>, x: nat)
    requires |K| == |kids| && Ordered(kids) && x < |kids|
    ensures ArityTree(Unfold(K, kids, x)) == Unfold(ChildCounts(kids), kids, x)
    decreases |kids| - x
  {
    var a, b := ArityTree(Unfold(K, kids, x)), Unfold(ChildCounts(kids), kids, x);
    forall i | 0 <= i < |kids[x]| ensures a.children[i] == b.children[i] {
      ArityUnfold(K, kids, kids[x][i]);
    }
    assert a.children == b.children;
  }

  /** The shape of the tree at x does not depend on the keys. */
  lemma {:induction false} BlankUnfold(K1: seq<string>, K2: seq<string>, kids: seq<seq<nat>>, x: nat)
    requires |K1| == |K2| == |kids| && Ordered(kids) && x < |kids|
    ensures Blank(Unfold(K1, kids, x)) == Blank(Unfold(K2, kids, x))
    decreases |kids| - x
  {
    var a, b := Blank(Unfold(K1, kids, x)), Blank(Unfold(K2, kids, x));
    forall i | 0 <= i < |kids[x]| ensures a.children[i] == b.children[i] {
      BlankUnfold(K1, K2, kids, kids[x][i]);
    }
    assert a.children == b.children;
  }

  /** keys with ns[i] set to vs[i], in order. */
  function Relabel<U>(keys: seq<U>, ns: seq<nat>, vs: seq<U>): (r: seq<U>)
    requires |ns| == |vs| && forall i :: 0 <= i < |ns| ==> ns[i] < |keys|
    ensures |r| == |keys|
    decreases |ns|
  {
    if ns == [] then keys
    else Relabel(keys, ns[..|ns| - 1], vs[..|vs| - 1])[ns[|ns| - 1] := vs[|vs| - 1]]
  }

  /** After relabelling distinct nodes, node ns[i] carries vs[i]. */
  lemma {:induction false} RelabelMapsTo<U>(keys: seq<U>, ns: seq<nat>, vs: seq<U>)
    requires |ns| == |vs| && (forall i :: 0 <= i < |ns| ==> ns[i] < |keys|) && Distinct(ns)
    ensures MapsTo(vs, ns, Relabel(keys, ns, vs))
    decreases |ns|
  {
    if ns != [] {
      var m := |ns| - 1;
      assert Distinct(ns[..m]) by {
        forall i, j | 0 <= i < j < m ensures ns[..m][i] != ns[..m][j] {
          assert ns[i] != ns[j];
        }
      }
      RelabelMapsTo(keys, ns[..m], vs[..m]);
      forall k | 0 <= k < m ensures ns[k] != ns[m] {
      }
    }
  }

  /** Relabelling one more node of ns. */
  lemma RelabelSnoc<U>(keys: seq<U>, ns: seq<nat>, vs: seq<U>, v: U)
    requires |vs| < |ns| && forall i :: 0 <= i < |ns| ==> ns[i] < |keys|
    ensures Relabel(keys, ns[..|vs| + 1], vs + [v]) == Relabel(keys, ns[..|vs|], vs)[ns[|vs|] := v]
  {
    var k := |vs|;
    assert ns[..k + 1][..k] == ns[..k] && ns[..k + 1][k] == ns[k];
    assert (vs + [v])[..k] == vs;
  }

  /** Relabelling leaves every node outside ns alone. */
  lemma {:induction false} RelabelOutside<U>(keys: seq<U>, ns: seq<nat>, vs: seq<U>, y: nat)
    requires |ns| == |vs| && (forall i :: 0 <= i < |ns| ==> ns[i] < |keys|)
    requires y < |keys| && y !in ns
    ensures Relabel(keys, ns, vs)[y] == keys[y]
    decreases |ns|
  {
    if ns != [] {
      assert y != ns[|ns| - 1];
      RelabelOutside(keys, ns[..|ns| - 1], vs[..|vs| - 1], y);
    }
  }
}
