/**
 * What buildStrictlyRankedTree promises about its tree when the structure is
 * well formed (every pair closed) and the sequence is over a, c, g, u: one
 * node per character plus one, unary nodes keyed by bases, binary nodes keyed
 * by pair symbols, 'e' leaves; and keys change only when a ')' closes a wobble
 * pair.
 */
module StrictShapes {
  import opened Trees
  import opened StrictTrees

  /** A well-formed input: equal lengths, every pair closed, only bases. */
  predicate WellFormed(s: string, d: string)
  {
    |s| == |d| && Closed(d, 0, 0) && forall i :: 0 <= i < |s| ==> IsBase(s[i])
  }

  /** Every '(' of d has its partner inside d. */
  ghost predicate Paired(d: string)
  {
    forall i :: 0 <= i < |d| && d[i] == '(' ==> Partner(d, i) < |d|
  }

  /** A closed structure is closed from every position, with suitably many pairs open. */
  lemma {:induction false} ClosedPrefix(d: string, j: nat) returns (c: nat)
    requires Closed(d, 0, 0) && j <= |d|
    ensures Closed(d, j, c)
    decreases j
  {
    if j == 0 {
      c := 0;
    } else {
      var c0 := ClosedPrefix(d, j - 1);
      if d[j - 1] == '(' {
        c := c0 + 1;
      } else if d[j - 1] == ')' {
        c := c0 - 1;
      } else {
        c := c0;
      }
    }
  }

  lemma ClosedPaired(d: string)
    requires Closed(d, 0, 0)
    ensures Paired(d)
  {
    forall i | 0 <= i < |d| && d[i] == '(' ensures Partner(d, i) < |d| {
      var c := ClosedPrefix(d, i);
      EndWithin(d, i + 1, c + 1, 0);
    }
  }

  /**
   * The shape of a strict tree: 'e' leaves, unary nodes keyed a, c, g or u,
   * binary nodes keyed p, q, r, s, x or y.
   */
  predicate Strict(t: Tree<char>)
  {
    (|t.children| == 0 && t.key == 'e') ||
    (|t.children| == 1 && IsBase(t.key) && Strict(t.children[0])) ||
    (|t.children| == 2 && IsPairKey(t.key) && Strict(t.children[0]) && Strict(t.children[1]))
  }

  /** The tree from position i is strict and covers the characters up to the end of i's level. */
  lemma {:induction false} StrictAtShape(s: string, d: string, i: nat)
    requires |s| == |d| && i <= |d| && (i > 0 || |d| > 0) && Paired(d)
    requires forall j :: 0 <= j < |s| ==> IsBase(s[j])
    ensures Strict(StrictAt(s, d, i))
    ensures Size(StrictAt(s, d, i)) == EndFrom(d, i, 0) - i + 1
    decreases |d| - i
  {
    var t := StrictAt(s, d, i);
    SizeSmall(t);
    if i < |d| && d[i] == '(' {
      var m := Partner(d, i);
      StrictAtShape(s, d, i + 1);
      StrictAtShape(s, d, m + 1);
      EndSplit(d, i + 1, 0);
    } else if i < |d| && d[i] != ')' {
      StrictAtShape(s, d, i + 1);
    }
  }

  /**
   * The strict tree of a well-formed input has |d| + 1 nodes; it is strict,
   * or the single leaf 'f' when the input is empty.
   */
  lemma StrictTreeShape(s: string, d: string)
    requires WellFormed(s, d)
    ensures Size(StrictAt(s, d, 0)) == |d| + 1
    ensures |d| == 0 ==> StrictAt(s, d, 0) == Node('f', [])
    ensures |d| > 0 ==> Strict(StrictAt(s, d, 0))
  {
    if |d| > 0 {
      ClosedPaired(d);
      StrictAtShape(s, d, 0);
      EndOfClosed(d, 0);
    } else {
      SizeSmall(StrictAt(s, d, 0));
    }
  }

  /**
   * Reading character k changes the key of an earlier node j exactly when k is
   * the ')' that closes j and the pair is a wobble pair: g-u turns s into y,
   * u-g turns q into x.
   */
  lemma KeyChangesAtClose(s: string, d: string, k: nat, j: nat)
    requires |s| == |d| && j < k < |d| && OpenBases(s, d)
    ensures KeyAfter(s, d, k + 1, j) != KeyAfter(s, d, k, j) <==>
              d[k] == ')' && d[j] == '(' && Partner(d, j) == k &&
              ((KeyAfter(s, d, k, j) == 's' && s[k] == 'u') || (KeyAfter(s, d, k, j) == 'q' && s[k] == 'g'))
    ensures KeyAfter(s, d, k + 1, j) != KeyAfter(s, d, k, j) ==>
              (KeyAfter(s, d, k, j) == 's' && KeyAfter(s, d, k + 1, j) == 'y') ||
              (KeyAfter(s, d, k, j) == 'q' && KeyAfter(s, d, k + 1, j) == 'x')
  {
  }
}
