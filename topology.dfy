/**
 * The tree-shape codec of RNAContract.java: compressUnlabeledTree writes the
 * imbalanced bracket string of the tree, without its first character, as bits
 * ('(' is true); decompressUnlabeledTree rebuilds a tree of that shape with a
 * cursor that moves down on a 1, up on a 0, and further up past every node
 * that already has two children.
 */
module Topology {
  import opened Trees
  import opened Arenas

  /** The closing bit of a node: none for a node with exactly two children. */
  function Close<T>(t: Tree<T>): seq<bool>
  {
    if |t.children| != 2 then [false] else []
  }

  /** The imbalanced bracket string of t as bits. */
  function Code<T>(t: Tree<T>): seq<bool>
    decreases t, 1
  {
    [true] + Flatten(ChildCodes(t)) + Close(t)
  }

  function ChildCodes<T>(t: Tree<T>): (r: seq<seq<bool>>)
    ensures |r| == |t.children| && forall i :: 0 <= i < |t.children| ==> r[i] == Code(t.children[i])
    decreases t, 0
  {
    seq(|t.children|, i requires 0 <= i < |t.children| => Code(t.children[i]))
  }

  /** What compressUnlabeledTree emits: the code without the root's opening bit. */
  function TopologyCode<T>(t: Tree<T>): seq<bool>
  {
    Code(t)[1..]
  }

  /** A bracket string as bits. */
  function Bits(s: string): (r: seq<bool>)
    ensures |r| == |s| && forall i :: 0 <= i < |s| ==> r[i] == (s[i] == '(')
  {
    seq(|s|, i requires 0 <= i < |s| => s[i] == '(')
  }

  lemma BitsConcat(a: string, b: string)
    ensures Bits(a + b) == Bits(a) + Bits(b)
  {
  }

  lemma {:induction false} BitsFlatten(ss: seq<string>, bs: seq<seq<bool>>)
    requires |ss| == |bs| && forall i :: 0 <= i < |ss| ==> bs[i] == Bits(ss[i])
    ensures Bits(Flatten(ss)) == Flatten(bs)
  {
    if ss != [] {
      BitsFlatten(ss[1..], bs[1..]);
      BitsConcat(ss[0], Flatten(ss[1..]));
    }
  }

  /** Code is the imbalanced bracket string of Node.getImbalancedBrackets, read as bits. */
  lemma {:induction false} CodeIsBrackets<T>(t: Tree<T>)
    ensures Bits(Brackets(t, false)) == Code(t)
  {
    var ss, bs := ChildBrackets(t, false), ChildCodes(t);
    forall i | 0 <= i < |ss| ensures bs[i] == Bits(ss[i]) {
      assert ss[i] == Brackets(t.children[i], false);
      CodeIsBrackets(t.children[i]);
    }
    BitsFlatten(ss, bs);
    var close := if |t.children| != 2 then ")" else "";
    assert Bits(close) == Close(t);
    assert Brackets(t, false) == "(" + Flatten(ss) + close;
    BitsConcat3("(", Flatten(ss), close);
    assert Bits("(") == [true];
    assert Code(t) == [true] + Flatten(bs) + Close(t);
  }

  lemma BitsConcat3(a: string, b: string, c: string)
    ensures Bits(a + b + c) == Bits(a) + Bits(b) + Bits(c)
  {
    BitsConcat(a, b);
    BitsConcat(a + b, c);
  }

  /** The code has one bit per bracket: two per node, less one per two-child node, less the root's opening bit. */
  lemma TopologyCodeLength<T>(t: Tree<T>)
    ensures |TopologyCode(t)| == 2 * Size(t) - BinaryCount(t) - 1
  {
    CodeIsBrackets(t);
    ImbalancedBracketsLength(t);
  }

  /**
   * compressUnlabeledTree: the characters of the imbalanced bracket string
   * after the first, each as `c == '('`.
   */
  method CompressUnlabeledTree<T>(tree: Arena<T>, root: nat) returns (result: seq<bool>)
    requires tree.Valid() && root < |tree.keys|
    ensures result == TopologyCode(tree.TreeAt(root))
  {
    var imbalancedBrackets := tree.GetImbalancedBrackets(root);
    result := [];
    var i := 1;
    while i < |imbalancedBrackets|
      invariant 1 <= i <= |imbalancedBrackets|
      invariant result == Bits(imbalancedBrackets)[1..i]
    {
      assert Bits(imbalancedBrackets)[1..i + 1] == Bits(imbalancedBrackets)[1..i] + [imbalancedBrackets[i] == '('];
      result := result + [imbalancedBrackets[i] == '('];
      i := i + 1;
    }
    TopologyCodeOfBrackets(tree.TreeAt(root), imbalancedBrackets);
  }

  lemma TopologyCodeOfBrackets<T>(t: Tree<T>, s: string)
    requires s == Brackets(t, false)
    ensures |s| > 0 && TopologyCode(t) == Bits(s)[1..|s|]
  {
    CodeIsBrackets(t);
  }

  // ---------------------------------------------------------------------
  // Decoding
  // ---------------------------------------------------------------------

  /** The bits still to come for node u once its first n children have been opened. */
  function Tail<T>(u: Tree<T>, n: nat): seq<bool>
    requires n <= |u.children|
  {
    Flatten(ChildCodes(u)[n..]) + Close(u)
  }

  lemma TailStep<T>(u: Tree<T>, n: nat)
    requires n < |u.children|
    ensures Tail(u, n) == Code(u.children[n]) + Tail(u, n + 1)
  {
    var cs := ChildCodes(u);
    assert cs[n..][0] == Code(u.children[n]);
    assert cs[n..][1..] == cs[n + 1..];
  }

  lemma TailEnd<T>(u: Tree<T>)
    ensures Tail(u, |u.children|) == Close(u)
  {
    assert ChildCodes(u)[|u.children|..] == [];
  }

  lemma CodeTail<T>(u: Tree<T>)
    ensures Code(u) == [true] + Tail(u, 0)
  {
    assert ChildCodes(u)[0..] == ChildCodes(u);
  }

  /**
   * The bits still to come for the open nodes us (root first), of which the
   * j-th has opened ns[j] children: the deepest node's tail first.
   */
  function Pending<T>(us: seq<Tree<T>>, ns: seq<nat>): seq<bool>
    requires Within(us, ns)
    decreases |us|
  {
    if |us| == 0 then []
    else
      WithinPrefix(us, ns);
      Tail(us[|us| - 1], ns[|ns| - 1]) + Pending(us[..|us| - 1], ns[..|ns| - 1])
  }

  /** Each open node has opened at most as many children as its target has. */
  ghost predicate Within<T>(us: seq<Tree<T>>, ns: seq<nat>)
  {
    |us| == |ns| && forall j :: 0 <= j < |us| ==> ns[j] <= |us[j].children|
  }

  lemma WithinPrefix<T>(us: seq<Tree<T>>, ns: seq<nat>)
    requires Within(us, ns) && |us| > 0
    ensures Within(us[..|us| - 1], ns[..|ns| - 1]) && ns[|ns| - 1] <= |us[|us| - 1].children|
  {
  }

  lemma WithinSnoc<T>(us: seq<Tree<T>>, ns: seq<nat>, u: Tree<T>, n: nat)
    requires Within(us, ns) && n <= |u.children|
    ensures Within(us + [u], ns + [n])
  {
  }

  lemma PendingSnoc<T>(us: seq<Tree<T>>, ns: seq<nat>, u: Tree<T>, n: nat)
    requires Within(us, ns) && n <= |u.children|
    ensures Within(us + [u], ns + [n])
    ensures Pending(us + [u], ns + [n]) == Tail(u, n) + Pending(us, ns)
  {
    WithinSnoc(us, ns, u, n);
    assert (us + [u])[..|us|] == us;
    assert (ns + [n])[..|ns|] == ns;
  }

  /** Node y has opened |kids[y]| of its target's children, each the node meant for it. */
  ghost predicate Opened(kids: seq<seq<nat>>, U: seq<Tree<string>>, y: nat)
    requires y < |kids| && y < |U|
  {
    |kids[y]| <= |U[y].children| &&
    forall m :: 0 <= m < |kids[y]| ==> kids[y][m] < |U| && U[kids[y][m]] == U[y].children[m]
  }

  /**
   * The decoder's arena (parent, kids) is on its way to the target: node y is
   * meant to become U[y], path lists the open nodes from the root down (their
   * targets us, their opened child counts ns), and every other node is complete.
   */
  ghost predicate Tracks(parent: seq<int>, kids: seq<seq<nat>>, U: seq<Tree<string>>,
                         path: seq<nat>, us: seq<Tree<string>>, ns: seq<nat>)
  {
    |parent| == |kids| == |U| && Rooted(parent, path) && Images(kids, U, path, us, ns) &&
    Targets(kids, U) && Finished(kids, U, path)
  }

  /** The open nodes run from the root down, each the parent of the next, in creation order. */
  ghost predicate Rooted(parent: seq<int>, path: seq<nat>)
  {
    (forall j :: 0 <= j < |path| ==> path[j] < |parent|) &&
    (forall j, k :: 0 <= j < k < |path| ==> path[j] < path[k]) &&
    (|path| > 0 ==> path[0] == 0) &&
    (forall j :: 0 < j < |path| ==> parent[path[j]] == path[j - 1])
  }

  /** us and ns are the targets and opened child counts of the open nodes. */
  ghost predicate Images(kids: seq<seq<nat>>, U: seq<Tree<string>>, path: seq<nat>, us: seq<Tree<string>>, ns: seq<nat>)
  {
    |path| == |us| == |ns| &&
    forall j :: 0 <= j < |path| ==> path[j] < |kids| && path[j] < |U| && us[j] == U[path[j]] && ns[j] == |kids[path[j]]|
  }

  /** Every node's opened children are the nodes meant for its target's children; targets have at most two children. */
  ghost predicate Targets(kids: seq<seq<nat>>, U: seq<Tree<string>>)
  {
    |kids| == |U| && forall y :: 0 <= y < |kids| ==> Opened(kids, U, y) && Ranked(U[y])
  }

  /** A node off the path has opened all its children. */
  ghost predicate Finished(kids: seq<seq<nat>>, U: seq<Tree<string>>, path: seq<nat>)
  {
    |kids| == |U| && forall y :: 0 <= y < |kids| && y !in path ==> |kids[y]| == |U[y].children|
  }

  lemma TracksBounds(parent: seq<int>, kids: seq<seq<nat>>, U: seq<Tree<string>>,
                     path: seq<nat>, us: seq<Tree<string>>, ns: seq<nat>)
    requires Tracks(parent, kids, U, path, us, ns)
    ensures Within(us, ns)
  {
    forall j | 0 <= j < |us| ensures ns[j] <= |us[j].children| {
      assert Opened(kids, U, path[j]);
    }
  }

  /** While a node is open the code has bits left, and the next says whether it opens another child. */
  lemma PendingHead(parent: seq<int>, kids: seq<seq<nat>>, U: seq<Tree<string>>,
                    path: seq<nat>, us: seq<Tree<string>>, ns: seq<nat>)
    requires Tracks(parent, kids, U, path, us, ns) && path != []
    requires ns[|ns| - 1] < 2
    ensures Within(us, ns)
    ensures Pending(us, ns) != []
    ensures Pending(us, ns)[0] <==> ns[|ns| - 1] < |us[|us| - 1].children|
  {
    TracksBounds(parent, kids, U, path, us, ns);
    var d := |us| - 1;
    var u, n := us[d], ns[d];
    if n < |u.children| {
      TailStep(u, n);
      CodeTail(u.children[n]);
    } else {
      TailEnd(u);
    }
  }

  /** A 1 bit: the cursor's next target child becomes a fresh node y below it. */
  lemma DownStep(parent: seq<int>, kids: seq<seq<nat>>, U: seq<Tree<string>>,
                 path: seq<nat>, us: seq<Tree<string>>, ns: seq<nat>,
                 parent': seq<int>, kids': seq<seq<nat>>, U': seq<Tree<string>>,
                 path': seq<nat>, us': seq<Tree<string>>, ns': seq<nat>)
    requires Tracks(parent, kids, U, path, us, ns) && path != []
    requires ns[|ns| - 1] < |us[|us| - 1].children|
    requires parent' == (parent + [-1])[|kids| := path[|path| - 1]]
    requires kids' == (kids + [[]])[path[|path| - 1] := kids[path[|path| - 1]] + [|kids|]]
    requires U' == U + [us[|us| - 1].children[ns[|ns| - 1]]]
    requires path' == path + [|kids|]
    requires us' == us + [us[|us| - 1].children[ns[|ns| - 1]]]
    requires ns' == ns[|ns| - 1 := ns[|ns| - 1] + 1] + [0]
    ensures Tracks(parent', kids', U', path', us', ns')
    ensures Within(us, ns)
    ensures Within(us', ns')
    ensures Pending(us, ns) == [true] + Pending(us', ns')
  {
    TracksBounds(parent, kids, U, path, us, ns);
    DownTracks(parent, kids, U, path, us, ns, parent', kids', U', path', us', ns');
    DownPendingAt(us, ns);
  }

  /** Pending unfolded once: the deepest open node's tail comes first. */
  lemma PendingLast<T>(us: seq<Tree<T>>, ns: seq<nat>)
    requires Within(us, ns) && |us| > 0
    ensures Within(us[..|us| - 1], ns[..|ns| - 1]) && ns[|ns| - 1] <= |us[|us| - 1].children|
    ensures Pending(us, ns) == Tail(us[|us| - 1], ns[|ns| - 1]) + Pending(us[..|us| - 1], ns[..|ns| - 1])
  {
    WithinPrefix(us, ns);
  }

  /** DownPending, with the stacks written as the decoder updates them. */
  lemma DownPendingAt(us: seq<Tree<string>>, ns: seq<nat>)
    requires Within(us, ns) && |us| > 0 && ns[|ns| - 1] < |us[|us| - 1].children|
    ensures Within(us + [us[|us| - 1].children[ns[|ns| - 1]]], ns[|ns| - 1 := ns[|ns| - 1] + 1] + [0])
    ensures Pending(us, ns) == [true] + Pending(us + [us[|us| - 1].children[ns[|ns| - 1]]], ns[|ns| - 1 := ns[|ns| - 1] + 1] + [0])
  {
    var d := |us| - 1;
    var u, n := us[d], ns[d];
    var c := u.children[n];
    var up := ns[d := n + 1];
    WithinBump(us, ns);
    PendingLast(us, ns);
    PendingLast(us, up);
    assert up[..d] == ns[..d];
    PendingSnoc(us, up, c, 0);
    TailStep(u, n);
    CodeTail(c);
    DownCombine(Pending(us, ns), Tail(u, n), Code(c), Tail(u, n + 1), Tail(c, 0), Pending(us[..d], ns[..d]),
                Pending(us, up), Pending(us + [c], up + [0]));
  }

  lemma WithinBump<T>(us: seq<Tree<T>>, ns: seq<nat>)
    requires Within(us, ns) && |us| > 0 && ns[|ns| - 1] < |us[|us| - 1].children|
    ensures Within(us, ns[|ns| - 1 := ns[|ns| - 1] + 1])
  {
  }

  /** The bit algebra of a step down: the opening bit of the child, then its tail, then the rest. */
  lemma DownCombine(p: seq<bool>, tn: seq<bool>, code: seq<bool>, tn1: seq<bool>, tc: seq<bool>, rest: seq<bool>,
                    pup: seq<bool>, pnew: seq<bool>)
    requires p == tn + rest && tn == code + tn1 && code == [true] + tc
    requires pup == tn1 + rest && pnew == tc + pup
    ensures p == [true] + pnew
  {
  }

  lemma DownTracks(parent: seq<int>, kids: seq<seq<nat>>, U: seq<Tree<string>>,
                   path: seq<nat>, us: seq<Tree<string>>, ns: seq<nat>,
                   parent': seq<int>, kids': seq<seq<nat>>, U': seq<Tree<string>>,
                   path': seq<nat>, us': seq<Tree<string>>, ns': seq<nat>)
    requires Tracks(parent, kids, U, path, us, ns) && path != []
    requires ns[|ns| - 1] < |us[|us| - 1].children|
    requires parent' == (parent + [-1])[|kids| := path[|path| - 1]]
    requires kids' == (kids + [[]])[path[|path| - 1] := kids[path[|path| - 1]] + [|kids|]]
    requires U' == U + [us[|us| - 1].children[ns[|ns| - 1]]]
    requires path' == path + [|kids|]
    requires us' == us + [us[|us| - 1].children[ns[|ns| - 1]]]
    requires ns' == ns[|ns| - 1 := ns[|ns| - 1] + 1] + [0]
    ensures Tracks(parent', kids', U', path', us', ns')
  {
    var x, c := path[|path| - 1], us[|us| - 1].children[ns[|ns| - 1]];
    DownRooted(parent, path, |kids|, parent', path');
    DownImages(parent, kids, U, path, us, ns, c, kids', U', path', us', ns');
    DownTargets(kids, U, x, us[|us| - 1], ns[|ns| - 1], kids', U');
    DownFinished(kids, U, path, x, c, kids', U', path');
  }

  lemma DownRooted(parent: seq<int>, path: seq<nat>, y: nat, parent': seq<int>, path': seq<nat>)
    requires Rooted(parent, path) && path != [] && |parent| == y
    requires parent' == (parent + [-1])[y := path[|path| - 1]] && path' == path + [y]
    ensures Rooted(parent', path')
  {
    forall j | 0 < j < |path'| ensures parent'[path'[j]] == path'[j - 1] {
      if j < |path| {
        assert path[j] < y;
      }
    }
  }

  lemma DownImages(parent: seq<int>, kids: seq<seq<nat>>, U: seq<Tree<string>>, path: seq<nat>, us: seq<Tree<string>>, ns: seq<nat>,
                   c: Tree<string>, kids': seq<seq<nat>>, U': seq<Tree<string>>, path': seq<nat>, us': seq<Tree<string>>, ns': seq<nat>)
    requires Rooted(parent, path) && Images(kids, U, path, us, ns) && path != [] && |parent| == |kids| == |U|
    requires kids' == (kids + [[]])[path[|path| - 1] := kids[path[|path| - 1]] + [|kids|]]
    requires U' == U + [c] && path' == path + [|kids|] && us' == us + [c]
    requires ns' == ns[|ns| - 1 := ns[|ns| - 1] + 1] + [0]
    ensures Images(kids', U', path', us', ns')
  {
    var d := |path| - 1;
    var x := path[d];
    forall j | 0 <= j < |path'|
      ensures path'[j] < |kids'| && path'[j] < |U'| && us'[j] == U'[path'[j]] && ns'[j] == |kids'[path'[j]]|
    {
      if j < d {
        assert path[j] < x;
      }
    }
  }

  lemma DownTargets(kids: seq<seq<nat>>, U: seq<Tree<string>>, x: nat, u: Tree<string>, n: nat,
                    kids': seq<seq<nat>>, U': seq<Tree<string>>)
    requires Targets(kids, U) && x < |kids| && U[x] == u && n == |kids[x]| < |u.children|
    requires kids' == (kids + [[]])[x := kids[x] + [|kids|]] && U' == U + [u.children[n]]
    ensures Targets(kids', U')
  {
    forall z | 0 <= z < |kids'| ensures Opened(kids', U', z) && Ranked(U'[z]) {
      if z < |kids| {
        assert Opened(kids, U, z);
      }
      if z == |kids| {
        assert Ranked(U[x]);
      }
    }
  }

  lemma DownFinished(kids: seq<seq<nat>>, U: seq<Tree<string>>, path: seq<nat>, x: nat, c: Tree<string>,
                     kids': seq<seq<nat>>, U': seq<Tree<string>>, path': seq<nat>)
    requires Finished(kids, U, path) && x in path && x < |kids|
    requires kids' == (kids + [[]])[x := kids[x] + [|kids|]] && U' == U + [c] && path' == path + [|kids|]
    ensures Finished(kids', U', path')
  {
    forall z | 0 <= z < |kids'| && z !in path' ensures |kids'[z]| == |U'[z].children| {
      assert z != x && z != |kids| && z !in path;
    }
  }

  /**
   * The cursor leaves node x = path's last, whose children are all opened (a 0
   * bit, or a climb past a node with two children); x's closing bits come first.
   */
  lemma PopStep(parent: seq<int>, kids: seq<seq<nat>>, U: seq<Tree<string>>,
                path: seq<nat>, us: seq<Tree<string>>, ns: seq<nat>)
    requires Tracks(parent, kids, U, path, us, ns) && path != []
    requires ns[|ns| - 1] == |us[|us| - 1].children| || ns[|ns| - 1] == 2
    ensures ns[|ns| - 1] == |us[|us| - 1].children|
    ensures Tracks(parent, kids, U, path[..|path| - 1], us[..|us| - 1], ns[..|ns| - 1])
    ensures |path| > 1 ==> parent[path[|path| - 1]] == path[|path| - 2]
    ensures |path| == 1 ==> path[0] == 0
    ensures Within(us, ns) && Within(us[..|us| - 1], ns[..|ns| - 1])
    ensures Pending(us, ns) == Close(us[|us| - 1]) + Pending(us[..|us| - 1], ns[..|ns| - 1])
  {
    var d := |path| - 1;
    PopTracks(parent, kids, U, path, us, ns);
    TracksBounds(parent, kids, U, path, us, ns);
    TracksBounds(parent, kids, U, path[..d], us[..d], ns[..d]);
    TailEnd(us[d]);
  }

  lemma PopTracks(parent: seq<int>, kids: seq<seq<nat>>, U: seq<Tree<string>>,
                  path: seq<nat>, us: seq<Tree<string>>, ns: seq<nat>)
    requires Tracks(parent, kids, U, path, us, ns) && path != []
    requires ns[|ns| - 1] == |us[|us| - 1].children| || ns[|ns| - 1] == 2
    ensures ns[|ns| - 1] == |us[|us| - 1].children|
    ensures Tracks(parent, kids, U, path[..|path| - 1], us[..|us| - 1], ns[..|ns| - 1])
  {
    var d := |path| - 1;
    var x := path[d];
    assert Opened(kids, U, x) && Ranked(U[x]);
    var path0 := path[..d];
    assert Finished(kids, U, path0) by {
      forall z | 0 <= z < |kids| && z !in path0 ensures |kids[z]| == |U[z].children| {
        if z != x {
          assert z !in path;
        }
      }
    }
    assert Images(kids, U, path0, us[..d], ns[..d]);
    assert Rooted(parent, path0);
  }

  /** A finished decoding: every node complete and blank, so the arena unfolds to the blank target. */
  lemma {:induction false} UnfoldBlank(keys: seq<string>, kids: seq<seq<nat>>, U: seq<Tree<string>>, x: nat)
    requires |keys| == |kids| == |U| && Ordered(kids) && x < |kids|
    requires forall y :: 0 <= y < |keys| ==> keys[y] == ""
    requires forall y :: 0 <= y < |kids| ==> Opened(kids, U, y) && |kids[y]| == |U[y].children|
    ensures Unfold(keys, kids, x) == Blank(U[x])
    decreases |kids| - x
  {
    assert Opened(kids, U, x);
    var t, b := Unfold(keys, kids, x), Blank(U[x]);
    forall m | 0 <= m < |kids[x]| ensures t.children[m] == b.children[m] {
      UnfoldBlank(keys, kids, U, kids[x][m]);
    }
    assert t.children == b.children;
  }

  lemma Advance(bits: seq<bool>, i: nat, b: bool, p: seq<bool>, rest: seq<bool>)
    requires i < |bits| && bits[i..] == [b] + p + rest
    ensures bits[i + 1..] == p + rest
  {
    assert bits[i + 1..] == bits[i..][1..];
  }

  /** bits starts with the topology code of the ranked tree t. */
  ghost predicate Guides(t: Tree<string>, bits: seq<bool>)
  {
    Ranked(t) && |TopologyCode(t)| <= |bits| && bits[..|TopologyCode(t)|] == TopologyCode(t)
  }

  /**
   * The decoder, having read bits[..i] with the cursor at current, is on its
   * way to `target`: the arena tracks it and the unread bits are the pending
   * code followed by rest.
   */
  ghost predicate OnTrack(parent: seq<int>, kids: seq<seq<nat>>, U: seq<Tree<string>>,
                          path: seq<nat>, us: seq<Tree<string>>, ns: seq<nat>, current: int,
                          bits: seq<bool>, i: nat, rest: seq<bool>, target: Tree<string>)
  {
    Tracks(parent, kids, U, path, us, ns) && Within(us, ns) && |U| > 0 && U[0] == target &&
    (current == -1 <==> path == []) && (path != [] ==> current == path[|path| - 1]) &&
    i <= |bits| && bits[i..] == Pending(us, ns) + rest
  }

  /** The node shape every decoded arena keeps: blank keys, at most two children, node 0 the root. */
  ghost predicate Shaped(tree: Arena<string>)
    reads tree
  {
    tree.Valid() && 0 < |tree.keys| && tree.parent[0] == -1 &&
    forall x :: 0 <= x < |tree.keys| ==> tree.keys[x] == "" && |tree.children[x]| <= 2
  }

  /** Reading a 1: the cursor's next target child becomes the fresh node |kids| below it. */
  lemma DownOnTrack(parent: seq<int>, kids: seq<seq<nat>>, U: seq<Tree<string>>,
                    path: seq<nat>, us: seq<Tree<string>>, ns: seq<nat>, current: int,
                    bits: seq<bool>, i: nat, rest: seq<bool>, target: Tree<string>,
                    parent': seq<int>, kids': seq<seq<nat>>)
    requires OnTrack(parent, kids, U, path, us, ns, current, bits, i, rest, target)
    requires current != -1 && ns[|ns| - 1] < 2 && i < |bits| && bits[i]
    requires parent' == (parent + [-1])[|kids| := current]
    requires kids' == (kids + [[]])[current := kids[current] + [|kids|]]
    ensures ns[|ns| - 1] < |us[|us| - 1].children|
    ensures OnTrack(parent', kids', U + [us[|us| - 1].children[ns[|ns| - 1]]], path + [|kids|],
                    us + [us[|us| - 1].children[ns[|ns| - 1]]], ns[|ns| - 1 := ns[|ns| - 1] + 1] + [0],
                    |kids|, bits, i + 1, rest, target)
  {
    PendingHead(parent, kids, U, path, us, ns);
    var c := us[|us| - 1].children[ns[|ns| - 1]];
    var U', path', us', ns' := U + [c], path + [|kids|], us + [c], ns[|ns| - 1 := ns[|ns| - 1] + 1] + [0];
    DownStep(parent, kids, U, path, us, ns, parent', kids', U', path', us', ns');
    Advance(bits, i, true, Pending(us', ns'), rest);
  }

  /** Reading a 0: the cursor's node is complete and the cursor moves to its parent. */
  lemma UpOnTrack(parent: seq<int>, kids: seq<seq<nat>>, U: seq<Tree<string>>,
                  path: seq<nat>, us: seq<Tree<string>>, ns: seq<nat>, current: int,
                  bits: seq<bool>, i: nat, rest: seq<bool>, target: Tree<string>)
    requires OnTrack(parent, kids, U, path, us, ns, current, bits, i, rest, target)
    requires current != -1 && ns[|ns| - 1] < 2 && i < |bits| && !bits[i]
    requires 0 <= current < |parent| && parent[0] == -1
    ensures OnTrack(parent, kids, U, path[..|path| - 1], us[..|us| - 1], ns[..|ns| - 1],
                    parent[current], bits, i + 1, rest, target)
  {
    PendingHead(parent, kids, U, path, us, ns);
    PopStep(parent, kids, U, path, us, ns);
    assert Close(us[|us| - 1]) == [false];
    Advance(bits, i, false, Pending(us[..|us| - 1], ns[..|ns| - 1]), rest);
  }

  /** Climbing past a node with two children: it is complete and its code has no closing bit. */
  lemma ClimbOnTrack(parent: seq<int>, kids: seq<seq<nat>>, U: seq<Tree<string>>,
                     path: seq<nat>, us: seq<Tree<string>>, ns: seq<nat>, current: int,
                     bits: seq<bool>, i: nat, rest: seq<bool>, target: Tree<string>)
    requires OnTrack(parent, kids, U, path, us, ns, current, bits, i, rest, target)
    requires 0 <= current < |kids| && |kids[current]| == 2 && parent[0] == -1
    ensures OnTrack(parent, kids, U, path[..|path| - 1], us[..|us| - 1], ns[..|ns| - 1],
                    parent[current], bits, i, rest, target)
  {
    PopStep(parent, kids, U, path, us, ns);
    assert Close(us[|us| - 1]) == [];
  }

  /** The bits after the topology code, when the bits start with one. */
  ghost function Rest(target: Tree<string>, bits: seq<bool>): seq<bool>
  {
    if Guides(target, bits) then bits[|TopologyCode(target)|..] else []
  }

  /** Before the first bit: only the root, meant to become the target, is open. */
  lemma StartOnTrack(bits: seq<bool>, target: Tree<string>)
    ensures Guides(target, bits) ==>
      OnTrack([-1], [[]], [target], [0], [target], [0], 0, bits, 0, Rest(target, bits), target)
  {
    if Guides(target, bits) {
      StartTracks(target);
      StartPending(target);
      StartBits(target, bits);
    }
  }

  lemma StartBits(target: Tree<string>, bits: seq<bool>)
    requires Guides(target, bits)
    ensures bits[0..] == TopologyCode(target) + Rest(target, bits)
  {
    assert bits[0..] == bits == bits[..|TopologyCode(target)|] + bits[|TopologyCode(target)|..];
  }

  lemma StartTracks(target: Tree<string>)
    requires Ranked(target)
    ensures Tracks([-1], [[]], [target], [0], [target], [0]) && Within([target], [0])
  {
    assert Rooted([-1], [0]);
    assert Images([[]], [target], [0], [target], [0]);
    assert Opened([[]], [target], 0);
    assert Targets([[]], [target]);
    assert Finished([[]], [target], [0]);
  }

  lemma StartPending(target: Tree<string>)
    ensures Within([target], [0]) && Pending([target], [0]) == TopologyCode(target)
  {
    var noTrees: seq<Tree<string>>, noCounts: seq<nat> := [], [];
    PendingSnoc(noTrees, noCounts, target, 0);
    assert noTrees + [target] == [target] && noCounts + [0] == [0];
    CodeTail(target);
  }

  /** When the loop stops on track, the whole code has been read and the arena is the blank target. */
  lemma FinishOnTrack(keys: seq<string>, parent: seq<int>, kids: seq<seq<nat>>, U: seq<Tree<string>>,
                      path: seq<nat>, us: seq<Tree<string>>, ns: seq<nat>, current: int,
                      bits: seq<bool>, i: nat, target: Tree<string>)
    requires Guides(target, bits) ==> OnTrack(parent, kids, U, path, us, ns, current, bits, i, Rest(target, bits), target)
    requires current == -1 || i == |bits|
    requires |keys| == |kids| && Ordered(kids) && forall y :: 0 <= y < |keys| ==> keys[y] == ""
    requires 0 <= current < |kids| ==> |kids[current]| < 2
    ensures Guides(target, bits) ==> i == |TopologyCode(target)| && Unfold(keys, kids, 0) == Blank(target)
  {
    if Guides(target, bits) {
      if current != -1 {
        PendingHead(parent, kids, U, path, us, ns);
      }
      assert path == [];
      UnfoldBlank(keys, kids, U, 0);
    }
  }

  /** The inner loop of decompressUnlabeledTree: moves the cursor up past every node with two children. */
  method Climb(tree: Arena<string>, current: int, ghost guided: bool,
               ghost U: seq<Tree<string>>, ghost path: seq<nat>, ghost us: seq<Tree<string>>, ghost ns: seq<nat>,
               ghost bits: seq<bool>, ghost i: nat, ghost rest: seq<bool>, ghost target: Tree<string>)
      returns (cur: int, ghost path': seq<nat>, ghost us': seq<Tree<string>>, ghost ns': seq<nat>)
    requires Shaped(tree) && -1 <= current < |tree.keys|
    requires guided ==> OnTrack(tree.parent, tree.children, U, path, us, ns, current, bits, i, rest, target)
    ensures -1 <= cur <= current && (cur != -1 ==> |tree.children[cur]| != 2)
    ensures guided ==> OnTrack(tree.parent, tree.children, U, path', us', ns', cur, bits, i, rest, target)
  {
    tree.ParentsBelow();
    cur, path', us', ns' := current, path, us, ns;
    while cur != -1 && |tree.children[cur]| == 2
      invariant -1 <= cur <= current
      invariant guided ==> OnTrack(tree.parent, tree.children, U, path', us', ns', cur, bits, i, rest, target)
      decreases cur
    {
      if guided {
        ClimbOnTrack(tree.parent, tree.children, U, path', us', ns', cur, bits, i, rest, target);
        path', us', ns' := path'[..|path'| - 1], us'[..|us'| - 1], ns'[..|ns'| - 1];
      }
      cur := tree.parent[cur];
    }
  }

  /** One round of the outer loop of decompressUnlabeledTree: a 1 opens a new child, a 0 goes to the parent, then Climb. */
  method ReadBit(tree: Arena<string>, current: int, bit: bool, ghost guided: bool,
                 ghost U: seq<Tree<string>>, ghost path: seq<nat>, ghost us: seq<Tree<string>>, ghost ns: seq<nat>,
                 ghost bits: seq<bool>, ghost i: nat, ghost rest: seq<bool>, ghost target: Tree<string>)
      returns (cur: int, ghost U': seq<Tree<string>>, ghost path': seq<nat>, ghost us': seq<Tree<string>>, ghost ns': seq<nat>)
    requires Shaped(tree) && 0 <= current < |tree.keys| && |tree.children[current]| < 2
    requires guided ==> OnTrack(tree.parent, tree.children, U, path, us, ns, current, bits, i, rest, target)
    requires guided ==> i < |bits| && bits[i] == bit
    modifies tree
    ensures Shaped(tree) && -1 <= cur < |tree.keys| && (cur != -1 ==> |tree.children[cur]| < 2)
    ensures guided ==> OnTrack(tree.parent, tree.children, U', path', us', ns', cur, bits, i + 1, rest, target)
  {
    U', path', us', ns' := U, path, us, ns;
    if bit {
      ghost var parent0, kids0 := tree.parent, tree.children;
      var child := tree.NewNode("");
      tree.AddChild(current, child);
      if guided {
        var c := us[|us| - 1].children[ns[|ns| - 1]];
        U', path', us', ns' := U + [c], path + [child], us + [c], ns[|ns| - 1 := ns[|ns| - 1] + 1] + [0];
        DownOnTrack(parent0, kids0, U, path, us, ns, current, bits, i, rest, target, tree.parent, tree.children);
      }
      cur := child;
    } else {
      tree.ParentsBelow();
      cur := tree.parent[current];
      if guided {
        UpOnTrack(tree.parent, tree.children, U, path, us, ns, current, bits, i, rest, target);
        path', us', ns' := path[..|path| - 1], us[..|us| - 1], ns[..|ns| - 1];
      }
    }
    cur, path', us', ns' := Climb(tree, cur, guided, U', path', us', ns', bits, i + 1, rest, target);
  }

  /**
   * The outer loop of decompressUnlabeledTree on the fresh root: reads bits
   * from index 0 until the cursor leaves the root or the bits run out, and
   * returns how many it read.
   */
  method ReadBits(tree: Arena<string>, compressedTree: seq<bool>, ghost target: Tree<string>) returns (i: nat)
    requires Shaped(tree) && tree.parent == [-1] && tree.children == [[]]
    modifies tree
    ensures Shaped(tree) && i <= |compressedTree|
    ensures Guides(target, compressedTree) ==> i == |TopologyCode(target)| && tree.TreeAt(0) == Blank(target)
    ensures |compressedTree| == 0 ==> tree.children == [[]]
  {
    ghost var guided, rest := Guides(target, compressedTree), Rest(target, compressedTree);
    StartOnTrack(compressedTree, target);
    var current: int := 0;
    i := 0;
    ghost var U, path, us, ns := [target], [0], [target], [0];
    while current != -1 && i < |compressedTree|
      invariant Shaped(tree) && i <= |compressedTree|
      invariant -1 <= current < |tree.keys| && (current != -1 ==> |tree.children[current]| < 2)
      invariant guided ==> OnTrack(tree.parent, tree.children, U, path, us, ns, current, compressedTree, i, rest, target)
      invariant i == 0 ==> tree.children == [[]]
      decreases |compressedTree| - i
    {
      current, U, path, us, ns := ReadBit(tree, current, compressedTree[i], guided, U, path, us, ns, compressedTree, i, rest, target);
      i := i + 1;
    }
    FinishOnTrack(tree.keys, tree.parent, tree.children, U, path, us, ns, current, compressedTree, i, target);
  }

  /**
   * decompressUnlabeledTree: builds the blank tree whose root is node 0 and
   * returns the bits after the ones it read (the source clears them from its
   * list).  Any bit sequence is accepted; every node gets the empty key and at
   * most two children.  When the bits start with the topology code of a ranked
   * tree `target`, exactly that code is read and the tree is `target` blanked.
   */
  method DecompressUnlabeledTree(compressedTree: seq<bool>, ghost target: Tree<string>)
      returns (tree: Arena<string>, remaining: seq<bool>)
    ensures fresh(tree) && Shaped(tree)
    ensures |remaining| <= |compressedTree| && remaining == compressedTree[|compressedTree| - |remaining|..]
    ensures Guides(target, compressedTree) ==>
      remaining == compressedTree[|TopologyCode(target)|..] && tree.TreeAt(0) == Blank(target)
    ensures |compressedTree| == 0 ==> tree.children == [[]]
  {
    tree := new Arena();
    var root := tree.NewNode("");
    var i := ReadBits(tree, compressedTree, target);
    remaining := compressedTree[i..];
  }
}
