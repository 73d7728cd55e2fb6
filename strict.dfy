/**
 * buildStrictlyRankedTree: one left-to-right pass over a sequence and its
 * dot-bracket structure builds a strictly ranked unary-binary tree.  Every
 * character creates exactly one node, and the node that is current when
 * character k is read is node k of the arena (node 0 is the root), so the
 * finished arena is described position by position:
 *   '.' at k   node k carries the base and has the single child k+1;
 *   '(' at k   node k carries p/q/r/s (y/x after a wobble close) and has the
 *              children k+1 (the inside) and m+1 (what follows its partner m);
 *   ')' at k   node k is an 'e' leaf, and so is the last node n.
 */
module StrictTrees {
  import opened Trees
  import opened Arenas

  predicate IsBase(c: char)
  {
    c == 'a' || c == 'c' || c == 'g' || c == 'u'
  }

  predicate IsPairKey(c: char)
  {
    c == 'p' || c == 'q' || c == 'r' || c == 's' || c == 'x' || c == 'y'
  }

  // ---------------------------------------------------------------------
  // Dot-bracket structure
  // ---------------------------------------------------------------------

  /**
   * Read from position x with c pairs open, d uses only '.', '(' and ')' and
   * never closes a pair that is not open (the source pops an empty deque
   * otherwise).
   */
  predicate Nested(d: string, x: nat, c: nat)
    requires x <= |d|
    decreases |d| - x
  {
    x == |d| ||
    (d[x] == '.' && Nested(d, x + 1, c)) ||
    (d[x] == '(' && Nested(d, x + 1, c + 1)) ||
    (d[x] == ')' && c > 0 && Nested(d, x + 1, c - 1))
  }

  /** Nested, and every pair open at x or opened later is closed by the end. */
  predicate Closed(d: string, x: nat, c: nat)
    requires x <= |d|
    decreases |d| - x
  {
    if x == |d| then c == 0
    else (d[x] == '.' && Closed(d, x + 1, c)) ||
         (d[x] == '(' && Closed(d, x + 1, c + 1)) ||
         (d[x] == ')' && c > 0 && Closed(d, x + 1, c - 1))
  }

  /**
   * Scanning from x with c pairs still open, the position of the ')' that
   * closes the level x is on (|d| if there is none).
   */
  function EndFrom(d: string, x: nat, c: nat): (e: nat)
    requires x <= |d|
    ensures x <= e <= |d| && (e < |d| ==> d[e] == ')')
    decreases |d| - x
  {
    if x == |d| then |d|
    else if d[x] == '(' then EndFrom(d, x + 1, c + 1)
    else if d[x] == ')' then (if c == 0 then x else EndFrom(d, x + 1, c - 1))
    else EndFrom(d, x + 1, c)
  }

  /** The partner of the '(' at i: the ')' that ends the level just inside it. */
  function Partner(d: string, i: nat): (m: nat)
    requires i < |d|
    ensures i < m <= |d| && (m < |d| ==> d[m] == ')')
  {
    EndFrom(d, i + 1, 0)
  }

  /** A level that is never closed stays unclosed with more pairs open. */
  lemma {:induction false} EndMono(d: string, x: nat, a: nat, b: nat)
    requires x <= |d| && a <= b && EndFrom(d, x, a) == |d|
    ensures EndFrom(d, x, b) == |d|
    decreases |d| - x
  {
    if x < |d| {
      if d[x] == '(' {
        EndMono(d, x + 1, a + 1, b + 1);
      } else if d[x] == ')' {
        EndMono(d, x + 1, a - 1, b - 1);
      } else {
        EndMono(d, x + 1, a, b);
      }
    }
  }

  /**
   * With one more pair open, the scan runs past the end e of the current level
   * and continues after it: the level after a pair is the level of the pair.
   */
  lemma {:induction false} EndSplit(d: string, x: nat, c: nat)
    requires x <= |d| && EndFrom(d, x, 0) < |d|
    ensures EndFrom(d, x, c + 1) == EndFrom(d, EndFrom(d, x, 0) + 1, c)
    decreases |d| - x
  {
    if d[x] == '(' {
      var e1 := EndFrom(d, x + 1, 0);
      if e1 == |d| {
        EndMono(d, x + 1, 0, 1);
      }
      EndSplit(d, x + 1, 0);
      EndSplit(d, x + 1, c + 1);
      EndSplit(d, e1 + 1, c);
    } else if d[x] != ')' {
      EndSplit(d, x + 1, c);
    }
  }

  /** In a nested structure, a level opened inside c open pairs does end. */
  lemma {:induction false} EndWithin(d: string, x: nat, c: nat, a: nat)
    requires x <= |d| && Closed(d, x, c) && a < c
    ensures EndFrom(d, x, a) < |d|
    decreases |d| - x
  {
    if x < |d| {
      if d[x] == '(' {
        EndWithin(d, x + 1, c + 1, a + 1);
      } else if d[x] == ')' {
        if a > 0 {
          EndWithin(d, x + 1, c - 1, a - 1);
        }
      } else {
        EndWithin(d, x + 1, c, a);
      }
    }
  }

  /** In a closed structure the top level runs to the end. */
  lemma {:induction false} EndOfClosed(d: string, x: nat)
    requires x <= |d| && Closed(d, x, 0)
    ensures EndFrom(d, x, 0) == |d|
    decreases |d| - x
  {
    if x < |d| {
      if d[x] == '(' {
        EndWithin(d, x + 1, 1, 0);
        EndSplit(d, x + 1, 0);
        ClosedAfter(d, x + 1, 0);
        EndOfClosed(d, EndFrom(d, x + 1, 0) + 1);
      } else {
        EndOfClosed(d, x + 1);
      }
    }
  }

  /** Closed with c + 1 pairs open: after the end of the current level, closed with c. */
  lemma {:induction false} ClosedAfter(d: string, x: nat, c: nat)
    requires x <= |d| && Closed(d, x, c + 1) && EndFrom(d, x, 0) < |d|
    ensures Closed(d, EndFrom(d, x, 0) + 1, c)
    decreases |d| - x
  {
    if d[x] == '(' {
      var e1 := EndFrom(d, x + 1, 0);
      if e1 == |d| {
        EndMono(d, x + 1, 0, 1);
      }
      ClosedAfter(d, x + 1, c + 1);
      EndSplit(d, x + 1, 0);
      ClosedAfter(d, e1 + 1, c);
    } else if d[x] != ')' {
      ClosedAfter(d, x + 1, c);
    }
  }

  /** A closed structure is nested. */
  lemma {:induction false} ClosedNested(d: string, x: nat, c: nat)
    requires x <= |d| && Closed(d, x, c)
    ensures Nested(d, x, c)
    decreases |d| - x
  {
    if x < |d| {
      if d[x] == '(' {
        ClosedNested(d, x + 1, c + 1);
      } else if d[x] == ')' {
        ClosedNested(d, x + 1, c - 1);
      } else {
        ClosedNested(d, x + 1, c);
      }
    }
  }

  // ---------------------------------------------------------------------
  // Keys
  // ---------------------------------------------------------------------

  /**
   * The key a '(' gives its node: a to p, u to q, c to r, g to s; any other
   * base leaves the key variable as it was.
   */
  function OpenKey(base: char, key: char): (r: char)
    ensures IsBase(base) ==> IsPairKey(r) && r != 'x' && r != 'y'
    ensures !IsBase(base) ==> r == key
  {
    match base
    case 'a' => 'p'
    case 'u' => 'q'
    case 'c' => 'r'
    case 'g' => 's'
    case _ => key
  }

  /** The rewrite at ')': the wobble pairs g·u and u·g turn s into y and q into x. */
  function CloseKey(key: char, base: char): (r: char)
    ensures r != key ==> (key == 's' && base == 'u' && r == 'y') || (key == 'q' && base == 'g' && r == 'x')
    ensures (key == 's' && base == 'u') || (key == 'q' && base == 'g') ==> r != key
  {
    if base == 'u' && key == 's' then 'y'
    else if base == 'g' && key == 'q' then 'x'
    else key
  }

  /** The key of node j after the first k characters (j <= k). */
  function KeyAfter(s: string, d: string, k: nat, j: nat): char
    requires |s| == |d| && j <= k <= |d|
  {
    if j == k then (if k == 0 then 'f' else 'e')
    else if d[j] == ')' then 'e'
    else if d[j] == '(' then
      (if Partner(d, j) < k then CloseKey(OpenKey(s[j], ' '), s[Partner(d, j)]) else OpenKey(s[j], ' '))
    else s[j]
  }

  /** The children of node j after the first k characters (j <= k). */
  function KidsAfter(d: string, k: nat, j: nat): seq<nat>
    requires j <= k <= |d|
  {
    if j == k || d[j] == ')' then []
    else if d[j] == '(' && Partner(d, j) < k then [j + 1, Partner(d, j) + 1]
    else [j + 1]
  }

  function StrictKeys(s: string, d: string): (r: seq<char>)
    requires |s| == |d|
    ensures |r| == |d| + 1 && forall j :: 0 <= j <= |d| ==> r[j] == KeyAfter(s, d, |d|, j)
  {
    seq(|d| + 1, j requires 0 <= j <= |d| => KeyAfter(s, d, |d|, j))
  }

  function StrictKids(d: string): (r: seq<seq<nat>>)
    ensures |r| == |d| + 1 && forall j :: 0 <= j <= |d| ==> r[j] == KidsAfter(d, |d|, j)
  {
    seq(|d| + 1, j requires 0 <= j <= |d| => KidsAfter(d, |d|, j))
  }

  /** The strict tree of the suffix from position i, as a value. */
  function StrictAt(s: string, d: string, i: nat): Tree<char>
    requires |s| == |d| && i <= |d|
    decreases |d| - i
  {
    if i == |d| then Node(if i == 0 then 'f' else 'e', [])
    else if d[i] == ')' then Node('e', [])
    else if d[i] == '(' then
      var m := Partner(d, i);
      if m < |d| then Node(CloseKey(OpenKey(s[i], ' '), s[m]), [StrictAt(s, d, i + 1), StrictAt(s, d, m + 1)])
      else Node(OpenKey(s[i], ' '), [StrictAt(s, d, i + 1)])
    else Node(s[i], [StrictAt(s, d, i + 1)])
  }

  lemma StrictOrdered(d: string)
    ensures Ordered(StrictKids(d))
  {
  }

  /** The finished arena, unfolded at node i, is the strict tree from position i. */
  lemma {:induction false} StrictUnfold(s: string, d: string, i: nat)
    requires |s| == |d| && i <= |d|
    ensures Ordered(StrictKids(d)) && Unfold(StrictKeys(s, d), StrictKids(d), i) == StrictAt(s, d, i)
    decreases |d| - i
  {
    StrictOrdered(d);
    var ks := StrictKids(d);
    var u, t := Unfold(StrictKeys(s, d), ks, i), StrictAt(s, d, i);
    assert |u.children| == |t.children| == |ks[i]|;
    forall c | 0 <= c < |ks[i]| ensures u.children[c] == t.children[c] {
      StrictUnfold(s, d, ks[i][c]);
      assert t.children[c] == StrictAt(s, d, ks[i][c]);
    }
    assert u.children == t.children;
  }

  // ---------------------------------------------------------------------
  // The builder's state after the first k characters
  // ---------------------------------------------------------------------

  /** Keys and child lists, node by node. */
  ghost predicate Laid(s: string, d: string, k: nat, keys: seq<char>, kids: seq<seq<nat>>)
    requires |s| == |d| && k <= |d|
  {
    |keys| == k + 1 && |kids| == k + 1 &&
    forall j :: 0 <= j <= k ==> keys[j] == KeyAfter(s, d, k, j) && kids[j] == KidsAfter(d, k, j)
  }

  /**
   * The stack of unclear pairs (innermost last): each is an open '(' whose
   * partner is where the scan from k ends the level of that pair, and every
   * '(' before k whose partner is not yet read is on it.
   */
  ghost predicate OpenPairs(d: string, k: nat, opens: seq<nat>)
    requires k <= |d|
  {
    Pending(d, k, opens) && Covered(d, k, opens)
  }

  ghost predicate Pending(d: string, k: nat, opens: seq<nat>)
    requires k <= |d|
  {
    forall t :: 0 <= t < |opens| ==>
      opens[t] < k && d[opens[t]] == '(' && Partner(d, opens[t]) == EndFrom(d, k, |opens| - 1 - t)
  }

  ghost predicate Covered(d: string, k: nat, opens: seq<nat>)
    requires k <= |d|
  {
    forall j {:trigger Partner(d, j)} :: 0 <= j < k && d[j] == '(' && Partner(d, j) >= k ==> j in opens
  }

  /** Where the climb for the t-th open pair (or the top level, t = 0) ends: its left child. */
  function Anchor(opens: seq<nat>, t: nat): nat
    requires t <= |opens|
  {
    if t == 0 then 0 else opens[t - 1] + 1
  }

  /**
   * Each pushed singleDepth value climbs from its pair's right child, one below
   * the pair, to the anchor of the enclosing level.
   */
  ghost predicate Stacked(parent: seq<int>, opens: seq<nat>, sds: seq<nat>)
  {
    |sds| == |opens| &&
    forall t {:trigger sds[t]} :: 0 <= t < |opens| ==> sds[t] >= 1 && Anc(parent, opens[t], sds[t] - 1) == Anchor(opens, t)
  }

  /** singleDepth climbs from the cursor k to the anchor of the innermost pair. */
  ghost predicate Depths(parent: seq<int>, k: nat, sd: nat, opens: seq<nat>, sds: seq<nat>)
  {
    Stacked(parent, opens, sds) && Anc(parent, k, sd) == Anchor(opens, |opens|)
  }
  /** Only the root has no parent. */
  ghost predicate Hung(parent: seq<int>, k: nat)
  {
    |parent| == k + 1 && parent[0] == -1 && forall y :: 0 < y <= k ==> parent[y] != -1
  }

  /** Every '(' carries a base a, c, g or u (the pair key is then never the stale key variable). */
  predicate OpenBases(s: string, d: string)
    requires |s| == |d|
  {
    forall j :: 0 <= j < |d| && d[j] == '(' ==> IsBase(s[j])
  }

  /** What the model requires of its input: equal lengths, dot-bracket, no unmatched ')', a base at every '('. */
  predicate Buildable(s: string, d: string)
  {
    |s| == |d| && Nested(d, 0, 0) && OpenBases(s, d)
  }

  /** Every parent is older than its child (the root has none). */
  ghost predicate Backward(parent: seq<int>)
  {
    forall c :: 0 <= c < |parent| ==> -1 <= parent[c] < c
  }

  /** The whole state after the first k characters, as values. */
  ghost predicate State(s: string, d: string, k: nat, keys: seq<char>, kids: seq<seq<nat>>, parent: seq<int>,
                        sd: nat, opens: seq<nat>, sds: seq<nat>)
  {
    |s| == |d| && k <= |d| && OpenBases(s, d) &&
    Laid(s, d, k, keys, kids) && Hung(parent, k) &&
    OpenPairs(d, k, opens) && Depths(parent, k, sd, opens, sds) && Nested(d, k, |opens|)
  }

  /** The arena and the cursor after the first k characters. */
  ghost predicate Built(tree: Arena<char>, s: string, d: string, k: nat, current: nat, sd: nat, opens: seq<nat>, sds: seq<nat>)
    reads tree
  {
    current == k && tree.Valid() && State(s, d, k, tree.keys, tree.children, tree.parent, sd, opens, sds)
  }

  // ---------------------------------------------------------------------
  // One step of the state, as values
  // ---------------------------------------------------------------------

  lemma LaidDot(s: string, d: string, k: nat, keys: seq<char>, kids: seq<seq<nat>>)
    requires |s| == |d| && k < |d| && d[k] == '.' && Laid(s, d, k, keys, kids)
    ensures Laid(s, d, k + 1, keys[k := s[k]] + ['e'], kids[k := kids[k] + [k + 1]] + [[]])
  {
  }

  lemma LaidOpen(s: string, d: string, k: nat, keys: seq<char>, kids: seq<seq<nat>>, key: char)
    requires |s| == |d| && k < |d| && d[k] == '(' && IsBase(s[k]) && Laid(s, d, k, keys, kids)
    ensures Laid(s, d, k + 1, keys[k := OpenKey(s[k], key)] + ['e'], kids[k := kids[k] + [k + 1]] + [[]])
  {
  }

  lemma LaidClose(s: string, d: string, k: nat, keys: seq<char>, kids: seq<seq<nat>>, opens: seq<nat>)
    requires |s| == |d| && k < |d| && d[k] == ')' && Laid(s, d, k, keys, kids)
    requires OpenPairs(d, k, opens) && opens != []
    ensures var j := opens[|opens| - 1];
      Laid(s, d, k + 1, keys[j := CloseKey(keys[j], s[k])] + ['e'], kids[j := kids[j] + [k + 1]] + [[]])
  {
    var last := |opens| - 1;
    var j := opens[last];
    assert Partner(d, j) == k;
    forall j' | 0 <= j' < k && d[j'] == '(' && j' != j
      ensures Partner(d, j') != k
    {
      if Partner(d, j') >= k {
        var t :| 0 <= t < |opens| && opens[t] == j';
        assert Partner(d, j') == EndFrom(d, k + 1, last - t - 1);
      }
    }
  }

  lemma OpenPairsDot(d: string, k: nat, opens: seq<nat>)
    requires k < |d| && d[k] == '.' && OpenPairs(d, k, opens)
    ensures OpenPairs(d, k + 1, opens)
  {
  }

  lemma OpenPairsOpen(d: string, k: nat, opens: seq<nat>)
    requires k < |d| && d[k] == '(' && OpenPairs(d, k, opens)
    ensures OpenPairs(d, k + 1, opens + [k])
  {
    var opens' := opens + [k];
    forall t | 0 <= t < |opens'|
      ensures opens'[t] < k + 1 && d[opens'[t]] == '(' && Partner(d, opens'[t]) == EndFrom(d, k + 1, |opens'| - 1 - t)
    {
      if t < |opens| {
        assert opens'[t] == opens[t];
      }
    }
  }

  lemma OpenPairsClose(d: string, k: nat, opens: seq<nat>)
    requires k < |d| && d[k] == ')' && OpenPairs(d, k, opens) && opens != []
    ensures OpenPairs(d, k + 1, opens[..|opens| - 1])
  {
    PendingClose(d, k, opens);
    CoveredClose(d, k, opens);
  }

  lemma PendingClose(d: string, k: nat, opens: seq<nat>)
    requires k < |d| && d[k] == ')' && Pending(d, k, opens) && opens != []
    ensures Pending(d, k + 1, opens[..|opens| - 1]) && Partner(d, opens[|opens| - 1]) == k
  {
    var opens' := opens[..|opens| - 1];
    forall t | 0 <= t < |opens'|
      ensures opens'[t] < k + 1 && d[opens'[t]] == '(' && Partner(d, opens'[t]) == EndFrom(d, k + 1, |opens'| - 1 - t)
    {
      assert opens'[t] == opens[t];
    }
  }

  lemma CoveredClose(d: string, k: nat, opens: seq<nat>)
    requires k < |d| && opens != [] && opens[|opens| - 1] < k && Partner(d, opens[|opens| - 1]) == k && Covered(d, k, opens)
    ensures Covered(d, k + 1, opens[..|opens| - 1])
  {
    var last := |opens| - 1;
    var opens' := opens[..last];
    forall j | 0 <= j < k + 1 && d[j] == '(' && Partner(d, j) >= k + 1
      ensures j in opens'
    {
      assert j in opens;
      var t :| 0 <= t < |opens| && opens[t] == j;
      assert t != last;
      assert opens'[t] == j;
    }
  }

  /** Ancestors of old nodes do not change when a node is appended. */
  lemma {:induction false} AncAppend(parent: seq<int>, p: int, y: int, m: nat)
    requires forall c :: 0 <= c < |parent| ==> -1 <= parent[c] < c
    requires -1 <= y < |parent|
    ensures Anc(parent + [p], y, m) == Anc(parent, y, m)
    decreases m
  {
    if m > 0 && 0 <= y {
      assert (parent + [p])[y] == parent[y];
      AncAppend(parent, p, parent[y], m - 1);
    }
  }

  lemma StackedAppend(parent: seq<int>, p: int, opens: seq<nat>, sds: seq<nat>)
    requires forall c :: 0 <= c < |parent| ==> -1 <= parent[c] < c
    requires Stacked(parent, opens, sds) && forall t :: 0 <= t < |opens| ==> opens[t] < |parent|
    ensures Stacked(parent + [p], opens, sds)
  {
    forall t | 0 <= t < |opens| ensures Anc(parent + [p], opens[t], sds[t] - 1) == Anchor(opens, t) {
      AncAppend(parent, p, opens[t], sds[t] - 1);
    }
  }

  lemma StackedPop(parent: seq<int>, opens: seq<nat>, sds: seq<nat>)
    requires Stacked(parent, opens, sds) && opens != []
    ensures Stacked(parent, opens[..|opens| - 1], sds[..|opens| - 1])
  {
    var last := |opens| - 1;
    var opens', sds' := opens[..last], sds[..last];
    forall t | 0 <= t < |opens'| ensures sds'[t] >= 1 && Anc(parent, opens'[t], sds'[t] - 1) == Anchor(opens', t) {
      assert opens'[t] == opens[t] && sds'[t] == sds[t];
      if t > 0 {
        assert opens'[t - 1] == opens[t - 1];
      }
    }
  }

  lemma StackedPush(parent: seq<int>, opens: seq<nat>, sds: seq<nat>, o: nat, v: nat)
    requires Stacked(parent, opens, sds) && v >= 1 && Anc(parent, o, v - 1) == Anchor(opens, |opens|)
    ensures Stacked(parent, opens + [o], sds + [v])
  {
    var opens', sds' := opens + [o], sds + [v];
    forall t | 0 <= t < |opens'| ensures sds'[t] >= 1 && Anc(parent, opens'[t], sds'[t] - 1) == Anchor(opens', t) {
      if t < |opens| {
        assert opens'[t] == opens[t] && sds'[t] == sds[t];
      }
      if t > 0 {
        assert opens'[t - 1] == opens[t - 1];
      }
    }
  }

  lemma DepthsDot(parent: seq<int>, k: nat, sd: nat, opens: seq<nat>, sds: seq<nat>)
    requires |parent| == k + 1 && (forall c :: 0 <= c < |parent| ==> -1 <= parent[c] < c)
    requires Depths(parent, k, sd, opens, sds) && forall t :: 0 <= t < |opens| ==> opens[t] < k
    ensures Depths(parent + [k], k + 1, sd + 1, opens, sds)
  {
    AncAppend(parent, k, k, sd);
    StackedAppend(parent, k, opens, sds);
    assert (parent + [k])[k + 1] == k;
  }

  lemma DepthsOpen(parent: seq<int>, k: nat, sd: nat, opens: seq<nat>, sds: seq<nat>)
    requires |parent| == k + 1 && (forall c :: 0 <= c < |parent| ==> -1 <= parent[c] < c)
    requires Depths(parent, k, sd, opens, sds) && forall t :: 0 <= t < |opens| ==> opens[t] < k
    ensures Depths(parent + [k], k + 1, 0, opens + [k], sds + [sd + 1])
  {
    AncAppend(parent, k, k, sd);
    StackedAppend(parent, k, opens, sds);
    StackedPush(parent + [k], opens, sds, k, sd + 1);
  }

  lemma DepthsClose(parent: seq<int>, k: nat, j: nat, opens: seq<nat>, sds: seq<nat>)
    requires |parent| == k + 1 && (forall c :: 0 <= c < |parent| ==> -1 <= parent[c] < c)
    requires Stacked(parent, opens, sds) && (forall t :: 0 <= t < |opens| ==> opens[t] < k)
    requires opens != [] && j == opens[|opens| - 1]
    ensures var last := |opens| - 1; Depths(parent + [j], k + 1, sds[last], opens[..last], sds[..last])
  {
    var last := |opens| - 1;
    var opens', sds' := opens[..last], sds[..last];
    var pp := parent + [j];
    StackedPop(parent, opens, sds);
    StackedAppend(parent, j, opens', sds');
    assert pp[k + 1] == j;
    assert Anc(pp, k + 1, sds[last]) == Anc(pp, j, sds[last] - 1);
    AncAppend(parent, j, j, sds[last] - 1);
    assert Anchor(opens', last) == Anchor(opens, last) by {
      if last > 0 {
        assert opens'[last - 1] == opens[last - 1];
      }
    }
    assert Anc(pp, k + 1, sds[last]) == Anchor(opens', |opens'|);
  }

  /** The child lists after NewNode and AddChild(p, c), in the order the arena produces them. */
  lemma Grown(kids: seq<seq<nat>>, p: nat, c: nat)
    requires p < |kids|
    ensures (kids + [[]])[p := (kids + [[]])[p] + [c]] == kids[p := kids[p] + [c]] + [[]]
  {
    var a, b := (kids + [[]])[p := (kids + [[]])[p] + [c]], kids[p := kids[p] + [c]] + [[]];
    assert |a| == |b|;
    forall i | 0 <= i < |a| ensures a[i] == b[i] {
    }
  }

  /** The arena after case '.' read at k is the state after k + 1 characters. */
  lemma StepDot(tree: Arena<char>, s: string, d: string, k: nat, keys: seq<char>, kids: seq<seq<nat>>, parent: seq<int>,
                sd: nat, opens: seq<nat>, sds: seq<nat>)
    requires State(s, d, k, keys, kids, parent, sd, opens, sds) && Backward(parent) && k < |d| && d[k] == '.'
    requires tree.Valid() && tree.keys == keys[k := s[k]] + ['e']
    requires tree.children == (kids + [[]])[k := (kids + [[]])[k] + [k + 1]] && tree.parent == (parent + [-1])[k + 1 := k]
    ensures Built(tree, s, d, k + 1, k + 1, sd + 1, opens, sds)
  {
    Grown(kids, k, k + 1);
    assert tree.parent == parent + [k];
    LaidDot(s, d, k, keys, kids);
    OpenPairsDot(d, k, opens);
    DepthsDot(parent, k, sd, opens, sds);
  }

  /** The arena after case '(' read at k is the state after k + 1 characters. */
  lemma StepOpen(tree: Arena<char>, s: string, d: string, k: nat, keys: seq<char>, kids: seq<seq<nat>>, parent: seq<int>,
                 sd: nat, opens: seq<nat>, sds: seq<nat>, key: char)
    requires State(s, d, k, keys, kids, parent, sd, opens, sds) && Backward(parent) && k < |d| && d[k] == '('
    requires tree.Valid() && tree.keys == keys[k := OpenKey(s[k], key)] + ['e']
    requires tree.children == (kids + [[]])[k := (kids + [[]])[k] + [k + 1]] && tree.parent == (parent + [-1])[k + 1 := k]
    ensures Built(tree, s, d, k + 1, k + 1, 0, opens + [k], sds + [sd + 1])
  {
    Grown(kids, k, k + 1);
    assert tree.parent == parent + [k];
    LaidOpen(s, d, k, keys, kids, key);
    OpenPairsOpen(d, k, opens);
    DepthsOpen(parent, k, sd, opens, sds);
  }

  /** Before case ')' at k: the innermost unclear pair j, whose left child the cursor climbs to. */
  lemma BeforeClose(s: string, d: string, k: nat, keys: seq<char>, kids: seq<seq<nat>>, parent: seq<int>,
                    sd: nat, opens: seq<nat>, sds: seq<nat>)
    requires State(s, d, k, keys, kids, parent, sd, opens, sds) && k < |d| && d[k] == ')'
    ensures opens != [] && |sds| == |opens|
    ensures var j := opens[|opens| - 1]; j < k && Anc(parent, k, sd) == j + 1 && kids[j] == [j + 1]
  {
    assert Partner(d, opens[|opens| - 1]) == k;
  }

  /** The arena after case ')' read at k is the state after k + 1 characters. */
  lemma StepClose(tree: Arena<char>, s: string, d: string, k: nat, keys: seq<char>, kids: seq<seq<nat>>, parent: seq<int>,
                  sd: nat, opens: seq<nat>, sds: seq<nat>, j: nat)
    requires State(s, d, k, keys, kids, parent, sd, opens, sds) && Backward(parent) && k < |d| && d[k] == ')'
    requires opens != [] && j == opens[|opens| - 1] && j < k
    requires tree.Valid() && tree.keys == keys[j := CloseKey(keys[j], s[k])] + ['e']
    requires tree.children == (kids + [[]])[j := (kids + [[]])[j] + [k + 1]] && tree.parent == (parent + [-1])[k + 1 := j]
    ensures var last := |opens| - 1; Built(tree, s, d, k + 1, k + 1, sds[last], opens[..last], sds[..last])
  {
    var last := |opens| - 1;
    var opens', sds' := opens[..last], sds[..last];
    Grown(kids, j, k + 1);
    assert tree.parent == parent + [j];
    assert Partner(d, j) == k;
    LaidClose(s, d, k, keys, kids, opens);
    OpenPairsClose(d, k, opens);
    DepthsClose(parent, k, j, opens, sds);
    assert Laid(s, d, k + 1, tree.keys, tree.children);
    assert Hung(tree.parent, k + 1);
    assert OpenPairs(d, k + 1, opens');
    assert Depths(tree.parent, k + 1, sds[last], opens', sds');
    assert Nested(d, k + 1, |opens'|);
  }

  // ---------------------------------------------------------------------
  // The builder
  // ---------------------------------------------------------------------

  /** `while (singleDepth > 0) { current = current.parent; singleDepth--; }` */
  method Climb(tree: Arena<char>, current: nat, singleDepth: nat) returns (cur: nat)
    requires tree.Valid() && current < |tree.keys| && Anc(tree.parent, current, singleDepth) >= 0
    ensures cur == Anc(tree.parent, current, singleDepth) && cur < |tree.keys|
  {
    cur := current;
    var left := singleDepth;
    while left > 0
      invariant cur < |tree.keys| && Anc(tree.parent, cur, left) == Anc(tree.parent, current, singleDepth)
      decreases left
    {
      cur := tree.parent[cur];
      left := left - 1;
    }
  }

  /** Set the key of x to key and hang a fresh 'e' node as the last child of p. */
  method Hang(tree: Arena<char>, x: nat, key: char, p: nat) returns (next: nat)
    requires tree.Valid() && x < |tree.keys| && p < |tree.keys|
    modifies tree
    ensures next == old(|tree.keys|) && tree.Valid()
    ensures tree.keys == old(tree.keys)[x := key] + ['e']
    ensures tree.children == (old(tree.children) + [[]])[p := (old(tree.children) + [[]])[p] + [next]]
    ensures tree.parent == (old(tree.parent) + [-1])[next := p]
  {
    tree.SetKey(x, key);
    next := tree.NewNode('e');
    tree.AddChild(p, next);
  }

  /** Case '.': the current node takes the base and gets a fresh 'e' child, which becomes current. */
  method ReadDot(tree: Arena<char>, s: string, ghost d: string, k: nat, current: nat, singleDepth: nat,
                 ghost opens: seq<nat>, ghost sds: seq<nat>) returns (next: nat, singleDepth': nat)
    requires Built(tree, s, d, k, current, singleDepth, opens, sds) && k < |d| && d[k] == '.'
    modifies tree
    ensures Built(tree, s, d, k + 1, next, singleDepth', opens, sds)
  {
    ghost var keys, kids, parent := tree.keys, tree.children, tree.parent;
    tree.ParentsBelow();
    next := Hang(tree, current, s[k], current);
    singleDepth' := singleDepth + 1;
    StepDot(tree, s, d, k, keys, kids, parent, singleDepth, opens, sds);
  }

  /**
   * Case '(': push the incremented singleDepth and restart it at 0, key the
   * current node by its base, give it a fresh 'e' left child, push the node as
   * unclear and descend.
   */
  method ReadOpen(tree: Arena<char>, s: string, ghost d: string, k: nat, current: nat, singleDepth: nat,
                  opens: seq<nat>, sds: seq<nat>, key: char)
    returns (next: nat, singleDepth': nat, opens': seq<nat>, sds': seq<nat>, key': char)
    requires Built(tree, s, d, k, current, singleDepth, opens, sds) && k < |d| && d[k] == '('
    modifies tree
    ensures Built(tree, s, d, k + 1, next, singleDepth', opens', sds')
    ensures key' == OpenKey(s[k], key) && opens' == opens + [k]
  {
    ghost var keys, kids, parent := tree.keys, tree.children, tree.parent;
    tree.ParentsBelow();
    var depth := singleDepth + 1;
    sds' := sds + [depth];
    singleDepth' := 0;
    key' := OpenKey(s[k], key);
    next := Hang(tree, current, key', current);
    opens' := opens + [current];
    StepOpen(tree, s, d, k, keys, kids, parent, singleDepth, opens, sds, key);
  }

  /**
   * Case ')': pop the unclear pair and apply the wobble rewrite to its key,
   * climb singleDepth parents to its left child, pop singleDepth, step to the
   * pair and give it a fresh 'e' right child, which becomes current.
   */
  method ReadClose(tree: Arena<char>, s: string, ghost d: string, k: nat, current: nat, singleDepth: nat,
                   opens: seq<nat>, sds: seq<nat>)
    returns (next: nat, singleDepth': nat, opens': seq<nat>, sds': seq<nat>)
    requires Built(tree, s, d, k, current, singleDepth, opens, sds) && k < |d| && d[k] == ')'
    modifies tree
    ensures Built(tree, s, d, k + 1, next, singleDepth', opens', sds')
    ensures opens != [] && opens' == opens[..|opens| - 1]
  {
    ghost var keys, kids, parent := tree.keys, tree.children, tree.parent;
    tree.ParentsBelow();
    BeforeClose(s, d, k, keys, kids, parent, singleDepth, opens, sds);
    var unclear := opens[|opens| - 1];
    opens' := opens[..|opens| - 1];
    assert parent[unclear + 1] == unclear by {
      assert kids[unclear][0] == unclear + 1;
    }
    tree.SetKey(unclear, CloseKey(tree.keys[unclear], s[k]));
    var cur := Climb(tree, current, singleDepth);
    singleDepth' := if sds != [] then sds[|sds| - 1] else 0;
    sds' := if sds != [] then sds[..|sds| - 1] else sds;
    cur := tree.parent[cur];
    next := tree.NewNode('e');
    tree.AddChild(cur, next);
    StepClose(tree, s, d, k, keys, kids, parent, singleDepth, opens, sds, unclear);
  }

  /**
   * buildStrictlyRankedTree: the arena holds the strict tree of the input,
   * node by node as described above, rooted at node 0.
   */
  method BuildStrictlyRankedTree(sequence: string, structure: string) returns (tree: Arena<char>, root: nat)
    requires Buildable(sequence, structure)
    ensures fresh(tree) && tree.Valid() && root == 0
    ensures tree.keys == StrictKeys(sequence, structure) && tree.children == StrictKids(structure)
    ensures tree.TreeAt(root) == StrictAt(sequence, structure, 0)
  {
    tree := new Arena();
    var current := tree.NewNode('f');
    var key := ' ';
    var singleDepth: nat := 0;
    var singleDepthStack: seq<nat> := [];
    var unclearPairStack: seq<nat> := [];
    for i := 0 to |sequence|
      invariant fresh(tree)
      invariant Built(tree, sequence, structure, i, current, singleDepth, unclearPairStack, singleDepthStack)
    {
      match structure[i]
      case '.' =>
        current, singleDepth := ReadDot(tree, sequence, structure, i, current, singleDepth, unclearPairStack, singleDepthStack);
      case '(' =>
        current, singleDepth, unclearPairStack, singleDepthStack, key :=
          ReadOpen(tree, sequence, structure, i, current, singleDepth, unclearPairStack, singleDepthStack, key);
      case ')' =>
        current, singleDepth, unclearPairStack, singleDepthStack :=
          ReadClose(tree, sequence, structure, i, current, singleDepth, unclearPairStack, singleDepthStack);
      case _ =>
        assert false;
    }
    tree.ParentsBelow();
    while tree.parent[current] != -1
      invariant current < |tree.keys|
      decreases current
    {
      current := tree.parent[current];
    }
    root := current;
    StrictUnfold(sequence, structure, 0);
  }
}
