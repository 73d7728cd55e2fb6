/**
 * Value-level view of the generic ordered tree of Node.java: a key and an
 * ordered list of children.  The traversals of Node.java (which append to an
 * accumulator in the source) are specified here as functions.
 */
module Trees {

  datatype Tree<T> = Node(key: T, children: seq<Tree<T>>)

  /** Concatenation of a list of lists, in order. */
  function Flatten<T>(ss: seq<seq<T>>): seq<T>
  {
    if ss == [] then [] else ss[0] + Flatten(ss[1..])
  }

  lemma {:induction false} FlattenAppend<T>(ss: seq<seq<T>>, s: seq<T>)
    ensures Flatten(ss + [s]) == Flatten(ss) + s
  {
    if ss == [] {
      assert ([] + [s])[1..] == [];
    } else {
      assert (ss + [s])[1..] == ss[1..] + [s];
      FlattenAppend(ss[1..], s);
    }
  }

  /** Flattening one more element of a sequence appends that element. */
  lemma FlattenPrefixStep<T>(ss: seq<seq<T>>, i: nat)
    requires i < |ss|
    ensures Flatten(ss[..i + 1]) == Flatten(ss[..i]) + ss[i]
  {
    assert ss[..i + 1] == ss[..i] + [ss[i]];
    FlattenAppend(ss[..i], ss[i]);
  }

  lemma {:induction false} FlattenLength<T>(ss: seq<seq<T>>, n: nat)
    requires forall i :: 0 <= i < |ss| ==> |ss[i]| == n
    ensures |Flatten(ss)| == n * |ss|
  {
    if ss != [] {
      FlattenLength(ss[1..], n);
    }
  }

  /** Keys in preorder: the root key, then each child's preorder in child order (getPreorder). */
  function Preorder<T>(t: Tree<T>): seq<T>
    decreases t, 1
  {
    [t.key] + Flatten(ChildPreorders(t))
  }

  function ChildPreorders<T>(t: Tree<T>): (r: seq<seq<T>>)
    ensures |r| == |t.children|
    decreases t, 0
  {
    seq(|t.children|, i requires 0 <= i < |t.children| => Preorder(t.children[i]))
  }

  /** Number of nodes, the length of the preorder (Node.size). */
  function Size<T>(t: Tree<T>): nat
  {
    |Preorder(t)|
  }

  lemma {:induction false} FlattenPart<T>(ss: seq<seq<T>>, i: nat)
    requires i < |ss|
    ensures |ss[i]| <= |Flatten(ss)|
  {
    if i > 0 {
      FlattenPart(ss[1..], i - 1);
    }
  }

  /** A subtree is smaller than the tree. */
  lemma ChildSmaller<T>(t: Tree<T>, i: nat)
    requires i < |t.children|
    ensures Size(t.children[i]) < Size(t)
  {
    FlattenPart(ChildPreorders(t), i);
  }

  /** The size of a node with at most two children: itself and its subtrees. */
  lemma SizeSmall<T>(t: Tree<T>)
    requires |t.children| <= 2
    ensures |t.children| == 0 ==> Size(t) == 1
    ensures |t.children| == 1 ==> Size(t) == 1 + Size(t.children[0])
    ensures |t.children| == 2 ==> Size(t) == 1 + Size(t.children[0]) + Size(t.children[1])
  {
    var ps := ChildPreorders(t);
    if |ps| > 0 {
      assert Flatten(ps) == ps[0] + Flatten(ps[1..]);
      if |ps| == 2 {
        assert Flatten(ps[1..]) == ps[1] + Flatten(ps[2..]);
      }
    }
  }

  /**
   * Bracket string of bracketRecursion: an opening bracket, the children's
   * strings, and a closing bracket unless `balanced` is false and the node has
   * exactly two children.
   */
  function Brackets<T>(t: Tree<T>, balanced: bool): string
    decreases t, 1
  {
    "(" + Flatten(ChildBrackets(t, balanced)) + (if balanced || |t.children| != 2 then ")" else "")
  }

  function ChildBrackets<T>(t: Tree<T>, balanced: bool): (r: seq<string>)
    ensures |r| == |t.children|
    decreases t, 0
  {
    seq(|t.children|, i requires 0 <= i < |t.children| => Brackets(t.children[i], balanced))
  }

  /** Number of nodes with exactly two children. */
  function BinaryCount<T>(t: Tree<T>): int
    decreases t, 1
  {
    (if |t.children| == 2 then 1 else 0) + Sum(ChildBinaryCounts(t))
  }

  function ChildBinaryCounts<T>(t: Tree<T>): (r: seq<int>)
    ensures |r| == |t.children|
    decreases t, 0
  {
    seq(|t.children|, i requires 0 <= i < |t.children| => BinaryCount(t.children[i]))
  }

  /** Keys of the leaves, left to right. */
  function LeafKeys<T>(t: Tree<T>): seq<T>
    decreases t, 1
  {
    if |t.children| == 0 then [t.key] else Flatten(ChildLeafKeys(t))
  }

  function ChildLeafKeys<T>(t: Tree<T>): (r: seq<seq<T>>)
    ensures |r| == |t.children|
    decreases t, 0
  {
    seq(|t.children|, i requires 0 <= i < |t.children| => LeafKeys(t.children[i]))
  }

  function Sum(xs: seq<int>): int
  {
    if xs == [] then 0 else xs[0] + Sum(xs[1..])
  }

  /** Number of opening minus number of closing brackets. */
  function Excess(s: string): int
  {
    if s == [] then 0 else Excess(s[..|s| - 1]) + (if s[|s| - 1] == '(' then 1 else if s[|s| - 1] == ')' then -1 else 0)
  }

  /** A balanced parenthesis string: no prefix closes more than it opened, and the whole is even. */
  ghost predicate Balanced(s: string)
  {
    (forall c :: c in s ==> c == '(' || c == ')') &&
    Excess(s) == 0 &&
    forall k :: 0 <= k <= |s| ==> Excess(s[..k]) >= 0
  }

  function Count(s: string, c: char): nat
  {
    if s == [] then 0 else (if s[0] == c then 1 else 0) + Count(s[1..], c)
  }

  /** Tree shape with every key replaced by the empty string (a freshly decoded topology). */
  function Blank(t: Tree<string>): (r: Tree<string>)
    ensures |r.children| == |t.children|
    ensures forall i :: 0 <= i < |t.children| ==> r.children[i] == Blank(t.children[i])
  {
    Node("", seq(|t.children|, i requires 0 <= i < |t.children| => Blank(t.children[i])))
  }

  /** The tree of child counts: every key replaced by its node's number of children. */
  function ArityTree<T>(t: Tree<T>): (r: Tree<nat>)
    ensures |r.children| == |t.children| && r.key == |t.children|
    ensures forall i :: 0 <= i < |t.children| ==> r.children[i] == ArityTree(t.children[i])
  {
    Node(|t.children|, seq(|t.children|, i requires 0 <= i < |t.children| => ArityTree(t.children[i])))
  }

  /** Child counts in preorder, one per node. */
  function Arities<T>(t: Tree<T>): (r: seq<nat>)
    ensures |r| == Size(t)
  {
    AritiesLength(t);
    Preorder(ArityTree(t))
  }

  lemma {:induction false} AritiesLength<T>(t: Tree<T>)
    ensures |Preorder(ArityTree(t))| == Size(t)
  {
    var ps, qs := ChildPreorders(ArityTree(t)), ChildPreorders(t);
    forall i | 0 <= i < |ps| ensures |ps[i]| == |qs[i]| {
      AritiesLength(t.children[i]);
    }
    var ls := seq(|ps|, i requires 0 <= i < |ps| => |ps[i]|);
    FlattenLengths(ps, ls);
    FlattenLengths(qs, ls);
  }

  /** Every node has at most two children. */
  ghost predicate Ranked<T>(t: Tree<T>)
  {
    |t.children| <= 2 && forall i :: 0 <= i < |t.children| ==> Ranked(t.children[i])
  }

  // ---------------------------------------------------------------------
  // Arithmetic on lists of lengths
  // ---------------------------------------------------------------------

  lemma {:induction false} FlattenLengths<T>(ss: seq<seq<T>>, ns: seq<int>)
    requires |ss| == |ns| && forall i :: 0 <= i < |ss| ==> |ss[i]| == ns[i]
    ensures |Flatten(ss)| == Sum(ns)
  {
    if ss != [] {
      FlattenLengths(ss[1..], ns[1..]);
    }
  }

  lemma {:induction false} SumCombine(xs: seq<int>, ys: seq<int>, zs: seq<int>, p: int, q: int)
    requires |xs| == |ys| == |zs|
    requires forall i :: 0 <= i < |zs| ==> zs[i] == p * xs[i] + q * ys[i]
    ensures Sum(zs) == p * Sum(xs) + q * Sum(ys)
  {
    if zs != [] {
      SumCombine(xs[1..], ys[1..], zs[1..], p, q);
    }
  }

  lemma {:induction false} ExcessConcat(a: string, b: string)
    ensures Excess(a + b) == Excess(a) + Excess(b)
  {
    if b == [] {
      assert a + b == a;
    } else {
      var c := b[|b| - 1];
      var v := if c == '(' then 1 else if c == ')' then -1 else 0;
      assert (a + b)[..|a + b| - 1] == a + b[..|b| - 1];
      assert (a + b)[|a + b| - 1] == c;
      assert Excess(a + b) == Excess(a + b[..|b| - 1]) + v;
      assert Excess(b) == Excess(b[..|b| - 1]) + v;
      ExcessConcat(a, b[..|b| - 1]);
    }
  }

  lemma BalancedConcat(a: string, b: string)
    requires Balanced(a) && Balanced(b)
    ensures Balanced(a + b)
  {
    ExcessConcat(a, b);
    forall k | 0 <= k <= |a + b| ensures Excess((a + b)[..k]) >= 0 {
      if k <= |a| {
        assert (a + b)[..k] == a[..k];
      } else {
        assert (a + b)[..k] == a + b[..k - |a|];
        ExcessConcat(a, b[..k - |a|]);
      }
    }
  }

  lemma BalancedWrap(a: string)
    requires Balanced(a)
    ensures Balanced("(" + a + ")")
  {
    var w := "(" + a + ")";
    forall c | c in w ensures c == '(' || c == ')' {
      var j :| 0 <= j < |w| && w[j] == c;
      if 0 < j < |w| - 1 {
        assert w[j] == a[j - 1];
      }
    }
    ExcessConcat("(", a);
    ExcessConcat("(" + a, ")");
    forall k | 0 <= k <= |w| ensures Excess(w[..k]) >= 0 {
      if 1 <= k <= |a| + 1 {
        assert w[..k] == "(" + a[..k - 1];
        ExcessConcat("(", a[..k - 1]);
      } else if k == 0 {
        assert w[..k] == [];
      } else {
        assert w[..k] == w;
      }
    }
  }

  lemma {:induction false} BalancedFlatten(ss: seq<string>)
    requires forall i :: 0 <= i < |ss| ==> Balanced(ss[i])
    ensures Balanced(Flatten(ss))
  {
    if ss == [] {
      assert forall c :: c !in Flatten(ss);
      assert Flatten(ss) == [];
      forall k | 0 <= k <= 0 ensures Excess(Flatten(ss)[..k]) >= 0 {
        assert Flatten(ss)[..k] == [];
      }
    } else {
      BalancedFlatten(ss[1..]);
      BalancedConcat(ss[0], Flatten(ss[1..]));
      assert Flatten(ss) == ss[0] + Flatten(ss[1..]);
    }
  }

  // ---------------------------------------------------------------------
  // Properties of the traversals of Node.java
  // ---------------------------------------------------------------------

  /** The balanced bracket string has two characters per node and is a balanced parenthesis string. */
  lemma {:induction false} BracketsBalanced<T>(t: Tree<T>)
    ensures |Brackets(t, true)| == 2 * Size(t)
    ensures Balanced(Brackets(t, true))
  {
    var n := |t.children|;
    var bs := ChildBrackets(t, true);
    var ps := ChildPreorders(t);
    forall i | 0 <= i < n ensures |bs[i]| == 2 * |ps[i]| && Balanced(bs[i]) {
      BracketsBalanced(t.children[i]);
    }
    var bl := seq(n, i requires 0 <= i < n => |bs[i]|);
    var pl := seq(n, i requires 0 <= i < n => |ps[i]|);
    FlattenLengths(bs, bl);
    FlattenLengths(ps, pl);
    SumCombine(pl, pl, bl, 2, 0);
    BalancedFlatten(bs);
    BalancedWrap(Flatten(bs));
  }

  /**
   * The imbalanced bracket string drops one closing bracket per two-child node,
   * and it always starts with the root's opening bracket.
   */
  lemma {:induction false} ImbalancedBracketsLength<T>(t: Tree<T>)
    ensures |Brackets(t, false)| == 2 * Size(t) - BinaryCount(t)
    ensures Brackets(t, false)[0] == '('
  {
    var n := |t.children|;
    var bs := ChildBrackets(t, false);
    var ps := ChildPreorders(t);
    var cs := ChildBinaryCounts(t);
    forall i | 0 <= i < n ensures |bs[i]| == 2 * |ps[i]| - cs[i] {
      ImbalancedBracketsLength(t.children[i]);
    }
    var bl := seq(n, i requires 0 <= i < n => |bs[i]|);
    var pl := seq(n, i requires 0 <= i < n => |ps[i]|);
    FlattenLengths(bs, bl);
    FlattenLengths(ps, pl);
    SumCombine(pl, cs, bl, 2, -1);
  }

  // ---------------------------------------------------------------------
  // A tree is determined by its shape and its preorder
  // ---------------------------------------------------------------------

  /** Equal shapes have equal child counts. */
  lemma {:induction false} ArityOfShape(t1: Tree<string>, t2: Tree<string>)
    requires Blank(t1) == Blank(t2)
    ensures ArityTree(t1) == ArityTree(t2)
  {
    assert |t1.children| == |Blank(t1).children| == |t2.children|;
    forall i | 0 <= i < |t1.children| ensures ArityTree(t1.children[i]) == ArityTree(t2.children[i]) {
      assert Blank(t1).children[i] == Blank(t1.children[i]);
      ArityOfShape(t1.children[i], t2.children[i]);
    }
    assert ArityTree(t1).children == ArityTree(t2).children;
  }

  /** Equal shapes have equal sizes. */
  lemma {:induction false} SizeOfShape(t1: Tree<string>, t2: Tree<string>)
    requires Blank(t1) == Blank(t2)
    ensures Size(t1) == Size(t2)
  {
    var ps, qs := ChildPreorders(t1), ChildPreorders(t2);
    assert |t1.children| == |Blank(t1).children| == |t2.children|;
    forall i | 0 <= i < |ps| ensures |ps[i]| == |qs[i]| {
      assert Blank(t1).children[i] == Blank(t1.children[i]);
      SizeOfShape(t1.children[i], t2.children[i]);
    }
    var ls := seq(|ps|, i requires 0 <= i < |ps| => |ps[i]|);
    FlattenLengths(ps, ls);
    FlattenLengths(qs, ls);
  }

  /** Concatenations of equally long pieces are equal only piece by piece. */
  lemma {:induction false} FlattenSplit<T>(as_: seq<seq<T>>, bs: seq<seq<T>>)
    requires |as_| == |bs| && forall i :: 0 <= i < |as_| ==> |as_[i]| == |bs[i]|
    requires Flatten(as_) == Flatten(bs)
    ensures as_ == bs
  {
    if as_ != [] {
      var a, b := Flatten(as_), Flatten(bs);
      assert as_[0] == a[..|as_[0]|] == b[..|bs[0]|] == bs[0];
      assert Flatten(as_[1..]) == a[|as_[0]|..] == b[|bs[0]|..] == Flatten(bs[1..]);
      FlattenSplit(as_[1..], bs[1..]);
      assert as_ == [as_[0]] + as_[1..];
      assert bs == [bs[0]] + bs[1..];
    }
  }

  /** A tree is determined by its shape and its preorder keys. */
  lemma {:induction false} ShapeAndPreorder(t1: Tree<string>, t2: Tree<string>)
    requires Blank(t1) == Blank(t2) && Preorder(t1) == Preorder(t2)
    ensures t1 == t2
  {
    var ps, qs := ChildPreorders(t1), ChildPreorders(t2);
    assert |t1.children| == |Blank(t1).children| == |t2.children|;
    assert t1.key == Preorder(t1)[0] == Preorder(t2)[0] == t2.key;
    forall i | 0 <= i < |ps| ensures |ps[i]| == |qs[i]| {
      assert Blank(t1).children[i] == Blank(t1.children[i]);
      SizeOfShape(t1.children[i], t2.children[i]);
    }
    assert Flatten(ps) == Preorder(t1)[1..] == Preorder(t2)[1..] == Flatten(qs);
    FlattenSplit(ps, qs);
    forall i | 0 <= i < |ps| ensures t1.children[i] == t2.children[i] {
      assert Blank(t1).children[i] == Blank(t1.children[i]);
      assert ps[i] == qs[i];
      ShapeAndPreorder(t1.children[i], t2.children[i]);
    }
    assert t1.children == t2.children;
  }
}
