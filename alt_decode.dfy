/**
 * decompressAlternative: a loop that decodes one inner node per round,
 * hangs its children below it and moves to the next pending node: the left
 * inner child, else the right inner child, else the node on top of the stack
 * of pending right children.  The proof follows a ghost target tree: every
 * pending node (the current one and those on the stack) is a hole, and the
 * arena with its holes filled by their target subtrees is the target.
 */
module AlternativeDecoding {
  import opened Wrappers
  import opened Trees
  import opened Arenas
  import opened HuffmanMaps
  import opened LabelCodec
  import opened Contraction
  import opened Reconstruction
  import opened Alternative
  import opened StrictTrees

  // ---------------------------------------------------------------------
  // Trees with holes
  // ---------------------------------------------------------------------

  /** The tree at x with every hole y in H replaced by H[y]. */
  ghost function Fill(keys: seq<string>, kids: seq<seq<nat>>, H: map<nat, Tree<string>>, x: nat): Tree<string>
    requires |keys| == |kids| && Ordered(kids) && x < |kids|
    decreases |kids| - x
  {
    if x in H then H[x]
    else Node(keys[x], seq(|kids[x]|, i requires 0 <= i < |kids[x]| => Fill(keys, kids, H, kids[x][i])))
  }

  /** With no holes left, the filled tree is the tree itself. */
  lemma {:induction false} FillEmpty(keys: seq<string>, kids: seq<seq<nat>>, x: nat)
    requires |keys| == |kids| && Ordered(kids) && x < |kids|
    ensures Fill(keys, kids, map[], x) == Unfold(keys, kids, x)
    decreases |kids| - x
  {
    forall i | 0 <= i < |kids[x]| ensures Fill(keys, kids, map[], kids[x][i]) == Unfold(keys, kids, kids[x][i]) {
      FillEmpty(keys, kids, kids[x][i]);
    }
  }

  /**
   * Expanding hole c: if the new arena, filled with the new holes, gives at c
   * what the old hole stood for, and nothing else old changed, every old node
   * fills to the same tree.
   */
  lemma {:induction false} FillExpand(keys: seq<string>, kids: seq<seq<nat>>, H: map<nat, Tree<string>>,
                                      keys': seq<string>, kids': seq<seq<nat>>, H': map<nat, Tree<string>>, c: nat, x: nat)
    requires |keys| == |kids| && Ordered(kids) && |keys'| == |kids'| && Ordered(kids') && |kids| <= |kids'|
    requires c < |kids| && c in H && x < |kids|
    requires forall y :: 0 <= y < |kids| && y != c ==> keys'[y] == keys[y] && kids'[y] == kids[y]
    requires forall y :: 0 <= y < |kids| && y != c ==> (y in H <==> y in H') && (y in H ==> H'[y] == H[y])
    requires Fill(keys', kids', H', c) == H[c]
    ensures Fill(keys', kids', H', x) == Fill(keys, kids, H, x)
    decreases |kids| - x
  {
    if x != c && x !in H {
      forall i | 0 <= i < |kids[x]| ensures Fill(keys', kids', H', kids[x][i]) == Fill(keys, kids, H, kids[x][i]) {
        FillExpand(keys, kids, H, keys', kids', H', c, kids[x][i]);
      }
    }
  }

  /** A new node fills to t: as a hole standing for t, or as an "e" leaf when t is one. */
  lemma FillNew(keys: seq<string>, kids: seq<seq<nat>>, H: map<nat, Tree<string>>, n: nat, t: Tree<string>)
    requires |keys| == |kids| && Ordered(kids) && n < |kids|
    requires (n in H && H[n] == t) || (n !in H && keys[n] == "e" && kids[n] == [] && t == Node("e", []))
    ensures Fill(keys, kids, H, n) == t
  {
  }

  // ---------------------------------------------------------------------
  // Pending subtrees and their bits
  // ---------------------------------------------------------------------

  /** A subtree the decoder still has to read: a contracted tree with children. */
  ghost predicate Inner(t: Tree<string>)
  {
    Contracted(t) && |t.children| > 0
  }

  /** A child of a contracted tree is contracted, and an "e" leaf exactly when its key is "e". */
  lemma ContractedChild(t: Tree<string>, i: nat)
    requires Contracted(t) && i < |t.children|
    ensures Contracted(t.children[i])
    ensures t.children[i].key == "e" <==> |t.children[i].children| == 0
    ensures t.children[i].key == "e" ==> t.children[i] == Node("e", [])
  {
    var c := t.children[i];
    assert UnaryLabel(c.key) ==> c.key[0] != 'e';
    assert BinaryLabel(c.key) ==> c.key[0] != 'e';
  }

  /** The alternative codes of the pending holes, in the order they are read. */
  ghost function PendingCode(H: map<nat, Tree<string>>, pend: seq<nat>): seq<bool>
  {
    if pend == [] then [] else (if pend[0] in H then AltCode(H[pend[0]]) else []) + PendingCode(H, pend[1..])
  }

  lemma PendingHead(H: map<nat, Tree<string>>, c: nat, s: seq<nat>)
    requires c in H
    ensures PendingCode(H, [c] + s) == AltCode(H[c]) + PendingCode(H, s)
  {
    assert ([c] + s)[1..] == s;
  }

  /** The pending code only depends on the holes it lists. */
  lemma {:induction false} PendingAgree(H: map<nat, Tree<string>>, H': map<nat, Tree<string>>, pend: seq<nat>)
    requires forall j :: 0 <= j < |pend| ==> (pend[j] in H <==> pend[j] in H') && (pend[j] in H ==> H'[pend[j]] == H[pend[j]])
    ensures PendingCode(H', pend) == PendingCode(H, pend)
  {
    if pend != [] {
      PendingAgree(H, H', pend[1..]);
    }
  }

  /** An inner node emits at least its arity bit. */
  lemma AltCodeNonEmpty(t: Tree<string>)
    requires |t.children| == 1 || |t.children| == 2
    ensures |AltCode(t)| > 0
  {
  }

  /** An "e" leaf emits nothing. */
  lemma LeafSilent()
    ensures AltCode(Node("e", [])) == []
  {
    assert ChildAltCodes(Node("e", [])) == [];
  }

  /** Reading a unary node's bits: arity bit, label code, flag, rest. */
  lemma UnaryLayout(bits: seq<bool>, index: nat, code: seq<bool>, f: bool, a: seq<bool>, r: seq<bool>)
    requires index <= |bits| && bits[index..] == [false] + code + [f] + (a + r)
    ensures index + |code| + 2 <= |bits| && !bits[index] && IsPrefix(code, bits[index + 1..])
    ensures bits[index + 1 + |code|] == f && Heads(bits, index + |code| + 2, a + r)
  {
    var w := bits[index..];
    assert w[0] == bits[index];
    assert bits[index + 1..] == w[1..] == code + [f] + (a + r);
    assert (code + [f] + (a + r))[..|code|] == code;
    assert w[1 + |code|] == f;
    assert bits[index + |code| + 2..] == w[|code| + 2..];
  }

  /** Reading a binary node's bits: arity bit, label code, two flags, rest. */
  lemma BinaryLayout(bits: seq<bool>, index: nat, code: seq<bool>, f: bool, g: bool, a: seq<bool>, r: seq<bool>)
    requires index <= |bits| && bits[index..] == [true] + code + [f, g] + (a + r)
    ensures index + |code| + 3 <= |bits| && bits[index] && IsPrefix(code, bits[index + 1..])
    ensures bits[index + 1 + |code|] == f && bits[index + 2 + |code|] == g && Heads(bits, index + |code| + 3, a + r)
  {
    var w := bits[index..];
    assert w[0] == bits[index];
    assert bits[index + 1..] == w[1..] == code + [f, g] + (a + r);
    assert (code + [f, g] + (a + r))[..|code|] == code;
    assert w[1 + |code|] == f && w[2 + |code|] == g;
    assert bits[index + |code| + 3..] == w[|code| + 3..];
  }

  /** The code of a unary node, spelled out. */
  lemma {:induction false} AltCodeUnary(t: Tree<string>)
    requires |t.children| == 1
    ensures AltCode(t) == [false] + NodeCode(t.key) + [t.children[0].key != "e"] + AltCode(t.children[0])
  {
    var v := ViewOf(t);
    assert v.key == t.key && v.childKeys[0] == t.children[0].key;
    var h := NodeBits(v);
    assert h == [false] + NodeCode(t.key) + [t.children[0].key != "e"];
    FlattenOne(ChildAltCodes(t), AltCode(t.children[0]));
  }

  /** The code of a binary node, spelled out. */
  lemma {:induction false} AltCodeBinary(t: Tree<string>)
    requires |t.children| == 2
    ensures AltCode(t) == [true] + NodeCode(t.key) + [t.children[0].key != "e", t.children[1].key != "e"] +
                          (AltCode(t.children[0]) + AltCode(t.children[1]))
  {
    var v := ViewOf(t);
    assert v.key == t.key && v.childKeys[0] == t.children[0].key && v.childKeys[1] == t.children[1].key;
    var h := NodeBits(v);
    assert h == [true] + NodeCode(t.key) + [t.children[0].key != "e", t.children[1].key != "e"];
    FlattenTwo(ChildAltCodes(t), AltCode(t.children[0]), AltCode(t.children[1]));
  }

  lemma FlattenOne(xs: seq<seq<bool>>, a: seq<bool>)
    requires |xs| == 1 && xs[0] == a
    ensures Flatten(xs) == a
  {
    assert xs == [a];
    assert Flatten(xs) == a + Flatten([]);
  }

  lemma FlattenTwo(xs: seq<seq<bool>>, a: seq<bool>, b: seq<bool>)
    requires |xs| == 2 && xs[0] == a && xs[1] == b
    ensures Flatten(xs) == a + b
  {
    assert xs == [a, b];
    assert xs[1..] == [b];
    FlattenOne(xs[1..], b);
  }

  lemma Regroup(x: seq<bool>, y: seq<bool>, z: seq<bool>, a: seq<bool>, r: seq<bool>)
    ensures x + y + z + a + r == x + y + z + (a + r)
  {
  }

  /** The head of the code of a unary inner node: 0, its label's code, its child's flag, then the child's code. */
  lemma {:induction false} HeadUnary(bits: seq<bool>, index: nat, t: Tree<string>, r: seq<bool>)
    requires index <= |bits| && bits[index..] == AltCode(t) + r && |t.children| == 1
    ensures index + |NodeCode(t.key)| + 2 <= |bits| && !bits[index] && IsPrefix(NodeCode(t.key), bits[index + 1..])
    ensures bits[index + 1 + |NodeCode(t.key)|] == (t.children[0].key != "e")
    ensures Heads(bits, index + |NodeCode(t.key)| + 2, AltCode(t.children[0]) + r)
  {
    AltCodeUnary(t);
    UnaryHeadOf(bits, index, AltCode(t), NodeCode(t.key), t.children[0].key != "e", AltCode(t.children[0]), r);
  }

  lemma UnaryHeadOf(bits: seq<bool>, index: nat, w: seq<bool>, code: seq<bool>, f: bool, a: seq<bool>, r: seq<bool>)
    requires index <= |bits| && bits[index..] == w + r && w == [false] + code + [f] + a
    ensures index + |code| + 2 <= |bits| && !bits[index] && IsPrefix(code, bits[index + 1..])
    ensures bits[index + 1 + |code|] == f
    ensures Heads(bits, index + |code| + 2, a + r)
  {
    Regroup([false], code, [f], a, r);
    UnaryLayout(bits, index, code, f, a, r);
  }

  /** The head of the code of a binary inner node: 1, its label's code, two flags, then the children's codes. */
  lemma {:induction false} HeadBinary(bits: seq<bool>, index: nat, t: Tree<string>, r: seq<bool>)
    requires index <= |bits| && bits[index..] == AltCode(t) + r && |t.children| == 2
    ensures index + |NodeCode(t.key)| + 3 <= |bits| && bits[index] && IsPrefix(NodeCode(t.key), bits[index + 1..])
    ensures bits[index + 1 + |NodeCode(t.key)|] == (t.children[0].key != "e")
    ensures bits[index + 2 + |NodeCode(t.key)|] == (t.children[1].key != "e")
    ensures Heads(bits, index + |NodeCode(t.key)| + 3, AltCode(t.children[0]) + AltCode(t.children[1]) + r)
  {
    AltCodeBinary(t);
    BinaryHeadOf(bits, index, AltCode(t), NodeCode(t.key), t.children[0].key != "e", t.children[1].key != "e",
                 AltCode(t.children[0]) + AltCode(t.children[1]), r);
  }

  lemma BinaryHeadOf(bits: seq<bool>, index: nat, w: seq<bool>, code: seq<bool>, f: bool, g: bool, a: seq<bool>, r: seq<bool>)
    requires index <= |bits| && bits[index..] == w + r && w == [true] + code + [f, g] + a
    ensures index + |code| + 3 <= |bits| && bits[index] && IsPrefix(code, bits[index + 1..])
    ensures bits[index + 1 + |code|] == f && bits[index + 2 + |code|] == g
    ensures Heads(bits, index + |code| + 3, a + r)
  {
    Regroup([true], code, [f, g], a, r);
    BinaryLayout(bits, index, code, f, g, a, r);
  }

  // ---------------------------------------------------------------------
  // The decoder's state
  // ---------------------------------------------------------------------

  /** Every node has at most two children, and a node with two carries pair symbols. */
  ghost predicate PairsAt(keys: seq<string>, kids: seq<seq<nat>>)
  {
    |keys| == |kids| && forall x :: 0 <= x < |kids| ==> |kids[x]| <= 2 && (|kids[x]| == 2 ==> PairKeys(keys[x]))
  }

  /** Such an arena spells out from every node. */
  lemma {:induction false} PairsSpellable(keys: seq<string>, kids: seq<seq<nat>>, x: nat)
    requires PairsAt(keys, kids) && Ordered(kids) && x < |kids|
    ensures Spellable(Unfold(keys, kids, x))
    decreases |kids| - x
  {
    forall i | 0 <= i < |kids[x]| ensures Spellable(Unfold(keys, kids, kids[x][i])) {
      PairsSpellable(keys, kids, kids[x][i]);
    }
  }

  /** The pending nodes are distinct nodes without children. */
  ghost predicate Growing(keys: seq<string>, kids: seq<seq<nat>>, pend: seq<nat>)
  {
    |keys| == |kids| && Ordered(kids) && PairsAt(keys, kids) && Distinct(pend) &&
    forall j :: 0 <= j < |pend| ==> pend[j] < |kids| && kids[pend[j]] == []
  }

  /** The bits from i on are w. */
  ghost predicate Heads(bits: seq<bool>, i: nat, w: seq<bool>)
  {
    i <= |bits| && bits[i..] == w
  }

  /** The unread bits are the pending holes' codes in order, then rest. */
  ghost predicate Reading(H: map<nat, Tree<string>>, pend: seq<nat>, bits: seq<bool>, index: nat, rest: seq<bool>)
  {
    Heads(bits, index, PendingCode(H, pend) + rest)
  }

  /** The pending nodes are exactly the holes. */
  ghost predicate Holes(kids: seq<seq<nat>>, H: map<nat, Tree<string>>, pend: seq<nat>)
  {
    (forall j :: 0 <= j < |pend| ==> pend[j] < |kids| && pend[j] in H) &&
    (forall x :: x in H ==> x in pend)
  }

  /** Every hole stands for an inner subtree. */
  ghost predicate InnerHoles(H: map<nat, Tree<string>>)
  {
    forall x :: x in H ==> Inner(H[x])
  }

  /**
   * The decoder is on its way to target: the pending nodes are the holes, the
   * filled arena is the target, and the unread bits are the holes' codes, then rest.
   */
  ghost predicate Track(keys: seq<string>, kids: seq<seq<nat>>, H: map<nat, Tree<string>>, pend: seq<nat>,
                        bits: seq<bool>, index: nat, rest: seq<bool>, target: Tree<string>)
    requires |keys| == |kids| && Ordered(kids)
  {
    0 < |kids| && Holes(kids, H, pend) && InnerHoles(H) && Fill(keys, kids, H, 0) == target && Reading(H, pend, bits, index, rest)
  }

  /** On track with current node c: c is a hole for an inner subtree, and the bits are read from there. */
  lemma TrackCurrent(keys: seq<string>, kids: seq<seq<nat>>, H: map<nat, Tree<string>>, c: nat, stack: seq<nat>,
                     bits: seq<bool>, index: nat, rest: seq<bool>, target: Tree<string>)
    requires |keys| == |kids| && Ordered(kids) && Track(keys, kids, H, [c] + stack, bits, index, rest, target)
    ensures c in H && Inner(H[c]) && (|H[c].children| == 1 || |H[c].children| == 2)
    ensures Reading(H, [c] + stack, bits, index, rest)
  {
    assert ([c] + stack)[0] == c;
  }

  // ---------------------------------------------------------------------
  // One round on any input: the arena stays well formed
  // ---------------------------------------------------------------------

  /** The keys after a unary round at c: c gets key, the new child k. */
  function KeysAfterUnary(keys: seq<string>, c: nat, key: string, k: string): seq<string>
    requires c < |keys|
  {
    keys[c := key] + [k]
  }

  function KidsAfterUnary(kids: seq<seq<nat>>, c: nat): seq<seq<nat>>
    requires c < |kids|
  {
    kids[c := [|kids|]] + [[]]
  }

  /** The keys after a binary round at c: c gets key, the new children lk and rk. */
  function KeysAfterBinary(keys: seq<string>, c: nat, key: string, lk: string, rk: string): seq<string>
    requires c < |keys|
  {
    keys[c := key] + [lk, rk]
  }

  function KidsAfterBinary(kids: seq<seq<nat>>, c: nat): seq<seq<nat>>
    requires c < |kids|
  {
    kids[c := [|kids|, |kids| + 1]] + [[], []]
  }

  /** The pending list after a round: the new children that are still holes, then the stack. */
  function Pushed(n: nat, f: bool, stack: seq<nat>): seq<nat>
  {
    (if f then [n] else []) + stack
  }

  lemma OrderedUnary(kids: seq<seq<nat>>, c: nat)
    requires Ordered(kids) && c < |kids|
    ensures Ordered(KidsAfterUnary(kids, c))
  {
  }

  lemma OrderedBinary(kids: seq<seq<nat>>, c: nat)
    requires Ordered(kids) && c < |kids|
    ensures Ordered(KidsAfterBinary(kids, c))
  {
  }

  lemma PairsAtUnary(keys: seq<string>, kids: seq<seq<nat>>, c: nat, key: string, k: string)
    requires PairsAt(keys, kids) && c < |kids| && kids[c] == []
    ensures PairsAt(KeysAfterUnary(keys, c, key, k), KidsAfterUnary(kids, c))
  {
  }

  lemma PairsAtBinary(keys: seq<string>, kids: seq<seq<nat>>, c: nat, key: string, lk: string, rk: string)
    requires PairsAt(keys, kids) && c < |kids| && kids[c] == [] && BinaryLabel(key)
    ensures PairsAt(KeysAfterBinary(keys, c, key, lk, rk), KidsAfterBinary(kids, c))
  {
    assert PairKeys(key) by {
      forall i | 0 <= i < |key| ensures IsPairKey(key[i]) {
        assert key[i] in "pqrsxy";
      }
    }
  }

  /** The stack below the current node is pending too, and does not hold it. */
  lemma StackPending(kids: seq<seq<nat>>, c: nat, stack: seq<nat>)
    requires Distinct([c] + stack) && forall j :: 0 <= j < |[c] + stack| ==> ([c] + stack)[j] < |kids| && kids[([c] + stack)[j]] == []
    ensures c < |kids| && kids[c] == [] && Distinct(stack) && c !in stack
    ensures forall j :: 0 <= j < |stack| ==> stack[j] < |kids| && kids[stack[j]] == []
  {
    assert ([c] + stack)[0] == c;
    assert forall j :: 0 <= j < |stack| ==> stack[j] == ([c] + stack)[j + 1];
  }

  lemma {:induction false} GrowUnary(keys: seq<string>, kids: seq<seq<nat>>, c: nat, stack: seq<nat>, key: string, k: string, f: bool)
    requires Growing(keys, kids, [c] + stack)
    ensures c < |kids| && Growing(KeysAfterUnary(keys, c, key, k), KidsAfterUnary(kids, c), Pushed(|kids|, f, stack))
  {
    StackPending(kids, c, stack);
    OrderedUnary(kids, c);
    PairsAtUnary(keys, kids, c, key, k);
    var n, kids' := |kids|, KidsAfterUnary(kids, c);
    assert forall j :: 0 <= j < |stack| ==> kids'[stack[j]] == kids[stack[j]];
    assert kids'[n] == [];
  }

  lemma {:induction false} GrowBinary(keys: seq<string>, kids: seq<seq<nat>>, c: nat, stack: seq<nat>,
                                      key: string, lk: string, rk: string, f: bool, g: bool)
    requires Growing(keys, kids, [c] + stack) && BinaryLabel(key)
    ensures c < |kids| && Growing(KeysAfterBinary(keys, c, key, lk, rk), KidsAfterBinary(kids, c), Pushed(|kids|, f, Pushed(|kids| + 1, g, stack)))
  {
    StackPending(kids, c, stack);
    OrderedBinary(kids, c);
    PairsAtBinary(keys, kids, c, key, lk, rk);
    var n, kids' := |kids|, KidsAfterBinary(kids, c);
    assert forall j :: 0 <= j < |stack| ==> kids'[stack[j]] == kids[stack[j]];
    assert kids'[n] == [] && kids'[n + 1] == [];
  }

  // ---------------------------------------------------------------------
  // One round on the target's code: what the decoder reads
  // ---------------------------------------------------------------------

  /** The first bit of an inner node's code tells its arity. */
  lemma {:induction false} HeadBit(bits: seq<bool>, index: nat, t: Tree<string>, r: seq<bool>)
    requires index <= |bits| && bits[index..] == AltCode(t) + r && (|t.children| == 1 || |t.children| == 2)
    ensures index < |bits| && (bits[index] <==> |t.children| == 2)
  {
    if |t.children| == 1 {
      HeadUnary(bits, index, t, r);
    } else {
      HeadBinary(bits, index, t, r);
    }
  }

  lemma Shift(bits: seq<bool>, index: nat, a: seq<bool>, p: seq<bool>, rest: seq<bool>)
    requires index <= |bits| && bits[index..] == a + p + rest && |a| > 0
    ensures index < |bits| && bits[index..] == a + (p + rest)
  {
  }

  /** The current hole's code heads the unread bits. */
  lemma {:induction false} TrackHead(H: map<nat, Tree<string>>, c: nat, stack: seq<nat>, bits: seq<bool>, index: nat, rest: seq<bool>)
    requires c in H && (|H[c].children| == 1 || |H[c].children| == 2) && Reading(H, [c] + stack, bits, index, rest)
    ensures index < |bits| && Heads(bits, index, AltCode(H[c]) + (PendingCode(H, stack) + rest))
  {
    PendingHead(H, c, stack);
    AltCodeNonEmpty(H[c]);
    Shift(bits, index, AltCode(H[c]), PendingCode(H, stack), rest);
  }

  lemma {:induction false} UnaryAt(bits: seq<bool>, index: nat, t: Tree<string>, r: seq<bool>)
    requires index < |bits| && !bits[index]
    requires (|t.children| == 1 || |t.children| == 2) && Heads(bits, index, AltCode(t) + r)
    ensures
      |t.children| == 1 &&
      var m := |NodeCode(t.key)|;
      index + m + 2 <= |bits| &&
      IsPrefix(NodeCode(t.key), bits[index + 1..]) &&
      bits[index + 1 + m] == (t.children[0].key != "e") &&
      Heads(bits, index + m + 2, AltCode(t.children[0]) + r)
  {
    HeadBit(bits, index, t, r);
    HeadUnary(bits, index, t, r);
  }

  lemma {:induction false} BinaryAt(bits: seq<bool>, index: nat, t: Tree<string>, r: seq<bool>)
    requires index < |bits| && bits[index]
    requires (|t.children| == 1 || |t.children| == 2) && Heads(bits, index, AltCode(t) + r)
    ensures
      |t.children| == 2 &&
      var m := |NodeCode(t.key)|;
      index + m + 3 <= |bits| &&
      IsPrefix(NodeCode(t.key), bits[index + 1..]) &&
      bits[index + 1 + m] == (t.children[0].key != "e") && bits[index + 2 + m] == (t.children[1].key != "e") &&
      Heads(bits, index + m + 3, AltCode(t.children[0]) + AltCode(t.children[1]) + r)
  {
    HeadBit(bits, index, t, r);
    HeadBinary(bits, index, t, r);
  }

  /** A 0 bit: a unary current hole; its label's code and its flag follow. */
  lemma {:induction false} UnaryRead(H: map<nat, Tree<string>>, c: nat, stack: seq<nat>, bits: seq<bool>, index: nat, rest: seq<bool>)
    requires index < |bits| && !bits[index]
    requires c in H && (|H[c].children| == 1 || |H[c].children| == 2) && Reading(H, [c] + stack, bits, index, rest)
    ensures
      |H[c].children| == 1 &&
      var m := |NodeCode(H[c].key)|;
      index + m + 2 <= |bits| &&
      IsPrefix(NodeCode(H[c].key), bits[index + 1..]) &&
      bits[index + 1 + m] == (H[c].children[0].key != "e") &&
      Heads(bits, index + m + 2, AltCode(H[c].children[0]) + (PendingCode(H, stack) + rest))
  {
    TrackHead(H, c, stack, bits, index, rest);
    UnaryAt(bits, index, H[c], PendingCode(H, stack) + rest);
  }




  /** A 1 bit: a binary current hole; its label's code and its two flags follow. */
  lemma {:induction false} BinaryRead(H: map<nat, Tree<string>>, c: nat, stack: seq<nat>, bits: seq<bool>, index: nat, rest: seq<bool>)
    requires index < |bits| && bits[index]
    requires c in H && (|H[c].children| == 1 || |H[c].children| == 2) && Reading(H, [c] + stack, bits, index, rest)
    ensures
      |H[c].children| == 2 &&
      var m := |NodeCode(H[c].key)|;
      index + m + 3 <= |bits| &&
      IsPrefix(NodeCode(H[c].key), bits[index + 1..]) &&
      bits[index + 1 + m] == (H[c].children[0].key != "e") && bits[index + 2 + m] == (H[c].children[1].key != "e") &&
      Heads(bits, index + m + 3, AltCode(H[c].children[0]) + AltCode(H[c].children[1]) + (PendingCode(H, stack) + rest))
  {
    TrackHead(H, c, stack, bits, index, rest);
    BinaryAt(bits, index, H[c], PendingCode(H, stack) + rest);
  }




  // ---------------------------------------------------------------------
  // One round on the target's code: the decoder stays on track
  // ---------------------------------------------------------------------

  /** The holes after a new node n is hung: a hole for t when its flag is set. */
  ghost function Hole(H: map<nat, Tree<string>>, n: nat, f: bool, t: Tree<string>): map<nat, Tree<string>>
  {
    if f then H[n := t] else H
  }

  /** The children of an inner node, and the label it carries. */
  lemma InnerParts(t: Tree<string>)
    requires Inner(t)
    ensures |t.children| == 1 ==> UnaryLabel(t.key)
    ensures |t.children| == 2 ==> BinaryLabel(t.key)
    ensures forall i :: 0 <= i < |t.children| ==> Contracted(t.children[i])
  {
  }

  /** A child flagged as not an "e" leaf is inner; one flagged as an "e" leaf is the "e" leaf. */
  lemma FlaggedChild(t: Tree<string>, i: nat, f: bool)
    requires Inner(t) && i < |t.children| && f == (t.children[i].key != "e")
    ensures f ==> Inner(t.children[i])
    ensures !f ==> t.children[i] == Node("e", [])
  {
    ContractedChild(t, i);
  }

  /** Removing the current hole leaves the stack as the pending list. */
  lemma {:induction false} HolesPop(kids: seq<seq<nat>>, kids': seq<seq<nat>>, H: map<nat, Tree<string>>, c: nat, stack: seq<nat>)
    requires Holes(kids, H, [c] + stack) && c !in stack && |kids| <= |kids'|
    ensures Holes(kids', H - {c}, stack)
  {
    var pend := [c] + stack;
    assert forall j :: 0 <= j < |stack| ==> stack[j] == pend[j + 1];
    forall x | x in H - {c} ensures x in stack {
      assert x in pend && x != c;
    }
  }

  /** Hanging a new node n with flag f keeps the pending list the holes. */
  lemma {:induction false} HolesPush(kids: seq<seq<nat>>, H: map<nat, Tree<string>>, n: nat, f: bool, t: Tree<string>, stack: seq<nat>)
    requires Holes(kids, H, stack) && n < |kids| && n !in H
    ensures Holes(kids, Hole(H, n, f, t), Pushed(n, f, stack))
  {
    var pend := Pushed(n, f, stack);
    var d := if f then 1 else 0;
    assert forall j :: 0 <= j < |stack| ==> stack[j] == pend[j + d];
    assert forall j :: 0 <= j < |stack| ==> stack[j] != n;
    forall x | x in Hole(H, n, f, t) ensures x in pend {
      if x != n {
        assert x in stack;
        var j :| 0 <= j < |stack| && stack[j] == x;
        assert pend[j + d] == x;
      } else {
        assert pend[0] == n;
      }
    }
  }

  /** The pending code after hanging n: t's code (nothing for an "e" leaf), then the stack's. */
  lemma {:induction false} PushHole(H: map<nat, Tree<string>>, n: nat, f: bool, t: Tree<string>, stack: seq<nat>)
    requires forall j :: 0 <= j < |stack| ==> stack[j] != n
    requires !f ==> t == Node("e", [])
    ensures PendingCode(Hole(H, n, f, t), Pushed(n, f, stack)) == AltCode(t) + PendingCode(H, stack)
  {
    var H', p := Hole(H, n, f, t), Pushed(n, f, stack);
    if f {
      assert H' == H[n := t] && p == [n] + stack;
      PendingAgree(H, H', stack);
      PendingHead(H', n, stack);
    } else {
      assert H' == H && p == stack;
      LeafSilent();
    }
  }

  lemma InnerPop(H: map<nat, Tree<string>>, c: nat)
    requires InnerHoles(H)
    ensures InnerHoles(H - {c})
  {
  }

  lemma InnerPush(H: map<nat, Tree<string>>, n: nat, f: bool, t: Tree<string>)
    requires InnerHoles(H) && (f ==> Inner(t))
    ensures InnerHoles(Hole(H, n, f, t))
  {
  }

  /** Expanding the unary hole c fills to the same tree. */
  lemma {:induction false} FillUnary(keys: seq<string>, kids: seq<seq<nat>>, H: map<nat, Tree<string>>, c: nat, k: string, f: bool)
    requires |keys| == |kids| && Ordered(kids) && c < |kids| && c in H && |H[c].children| == 1
    requires forall x :: x in H ==> x < |kids|
    requires !f ==> H[c].children[0] == Node("e", []) && k == "e"
    ensures Ordered(KidsAfterUnary(kids, c))
    ensures Fill(KeysAfterUnary(keys, c, H[c].key, k), KidsAfterUnary(kids, c), Hole(H - {c}, |kids|, f, H[c].children[0]), 0)
         == Fill(keys, kids, H, 0)
  {
    var t, n := H[c], |kids|;
    var keys', kids', H' := KeysAfterUnary(keys, c, t.key, k), KidsAfterUnary(kids, c), Hole(H - {c}, n, f, t.children[0]);
    OrderedUnary(kids, c);
    FillNew(keys', kids', H', n, t.children[0]);
    assert kids'[c] == [n] && c !in H';
    assert Fill(keys', kids', H', c).children == [t.children[0]] == t.children;
    FillExpand(keys, kids, H, keys', kids', H', c, 0);
  }

  /** Expanding the binary hole c fills to the same tree. */
  lemma {:induction false} FillBinary(keys: seq<string>, kids: seq<seq<nat>>, H: map<nat, Tree<string>>, c: nat,
                                      lk: string, rk: string, f: bool, g: bool)
    requires |keys| == |kids| && Ordered(kids) && c < |kids| && c in H && |H[c].children| == 2
    requires forall x :: x in H ==> x < |kids|
    requires !f ==> H[c].children[0] == Node("e", []) && lk == "e"
    requires !g ==> H[c].children[1] == Node("e", []) && rk == "e"
    ensures Ordered(KidsAfterBinary(kids, c))
    ensures Fill(KeysAfterBinary(keys, c, H[c].key, lk, rk), KidsAfterBinary(kids, c),
                 Hole(Hole(H - {c}, |kids| + 1, g, H[c].children[1]), |kids|, f, H[c].children[0]), 0)
         == Fill(keys, kids, H, 0)
  {
    var t, n := H[c], |kids|;
    var keys', kids' := KeysAfterBinary(keys, c, t.key, lk, rk), KidsAfterBinary(kids, c);
    var H' := Hole(Hole(H - {c}, n + 1, g, t.children[1]), n, f, t.children[0]);
    OrderedBinary(kids, c);
    FillNew(keys', kids', H', n, t.children[0]);
    FillNew(keys', kids', H', n + 1, t.children[1]);
    assert kids'[c] == [n, n + 1] && c !in H';
    assert Fill(keys', kids', H', c).children == [t.children[0], t.children[1]] == t.children;
    FillExpand(keys, kids, H, keys', kids', H', c, 0);
  }

  lemma Regrouped(bits: seq<bool>, i: nat, a: seq<bool>, p: seq<bool>, w: seq<bool>, rest: seq<bool>)
    requires Heads(bits, i, a + (p + rest)) && w == a + p
    ensures Heads(bits, i, w + rest)
  {
    assert a + (p + rest) == a + p + rest;
  }

  /** A unary round on track keeps the decoder on track. */
  lemma {:induction false} UnaryStep(keys: seq<string>, kids: seq<seq<nat>>, H: map<nat, Tree<string>>, c: nat, stack: seq<nat>,
                                     bits: seq<bool>, index: nat, rest: seq<bool>, target: Tree<string>, k: string, f: bool, index': nat)
    requires Growing(keys, kids, [c] + stack) && Track(keys, kids, H, [c] + stack, bits, index, rest, target)
    requires c in H && |H[c].children| == 1 && f == (H[c].children[0].key != "e") && k == (if f then "" else "e")
    requires Heads(bits, index', AltCode(H[c].children[0]) + (PendingCode(H, stack) + rest))
    ensures Ordered(KidsAfterUnary(kids, c))
    ensures Track(KeysAfterUnary(keys, c, H[c].key, k), KidsAfterUnary(kids, c), Hole(H - {c}, |kids|, f, H[c].children[0]),
                  Pushed(|kids|, f, stack), bits, index', rest, target)
  {
    var t, n := H[c], |kids|;
    var kids', H0 := KidsAfterUnary(kids, c), H - {c};
    var H' := Hole(H0, n, f, t.children[0]);
    StackPending(kids, c, stack);
    HolesPop(kids, kids', H, c, stack);
    HolesPush(kids', H0, n, f, t.children[0], stack);
    InnerPop(H, c);
    FlaggedChild(t, 0, f);
    InnerPush(H0, n, f, t.children[0]);
    FillUnary(keys, kids, H, c, k, f);
    assert forall j :: 0 <= j < |stack| ==> stack[j] != n && stack[j] != c;
    PushHole(H0, n, f, t.children[0], stack);
    PendingAgree(H, H0, stack);
    Regrouped(bits, index', AltCode(t.children[0]), PendingCode(H, stack), PendingCode(H', Pushed(n, f, stack)), rest);
  }

  /** A binary round on track keeps the decoder on track. */
  lemma {:induction false} BinaryStep(keys: seq<string>, kids: seq<seq<nat>>, H: map<nat, Tree<string>>, c: nat, stack: seq<nat>,
                                      bits: seq<bool>, index: nat, rest: seq<bool>, target: Tree<string>,
                                      lk: string, rk: string, f: bool, g: bool, index': nat)
    requires Growing(keys, kids, [c] + stack) && Track(keys, kids, H, [c] + stack, bits, index, rest, target)
    requires c in H && |H[c].children| == 2
    requires f == (H[c].children[0].key != "e") && lk == (if f then "" else "e")
    requires g == (H[c].children[1].key != "e") && rk == (if g then "" else "e")
    requires Heads(bits, index', AltCode(H[c].children[0]) + AltCode(H[c].children[1]) + (PendingCode(H, stack) + rest))
    ensures Ordered(KidsAfterBinary(kids, c))
    ensures Track(KeysAfterBinary(keys, c, H[c].key, lk, rk), KidsAfterBinary(kids, c),
                  Hole(Hole(H - {c}, |kids| + 1, g, H[c].children[1]), |kids|, f, H[c].children[0]),
                  Pushed(|kids|, f, Pushed(|kids| + 1, g, stack)), bits, index', rest, target)
  {
    var t, n := H[c], |kids|;
    var kids', H0 := KidsAfterBinary(kids, c), H - {c};
    var H1 := Hole(H0, n + 1, g, t.children[1]);
    var H2 := Hole(H1, n, f, t.children[0]);
    var P1 := Pushed(n + 1, g, stack);
    StackPending(kids, c, stack);
    HolesPop(kids, kids', H, c, stack);
    HolesPush(kids', H0, n + 1, g, t.children[1], stack);
    HolesPush(kids', H1, n, f, t.children[0], P1);
    InnerPop(H, c);
    FlaggedChild(t, 0, f);
    FlaggedChild(t, 1, g);
    InnerPush(H0, n + 1, g, t.children[1]);
    InnerPush(H1, n, f, t.children[0]);
    FillBinary(keys, kids, H, c, lk, rk, f, g);
    assert forall j :: 0 <= j < |stack| ==> stack[j] != n && stack[j] != n + 1 && stack[j] != c;
    assert forall j :: 0 <= j < |P1| ==> P1[j] != n;
    PushHole(H0, n + 1, g, t.children[1], stack);
    PushHole(H1, n, f, t.children[0], P1);
    PendingAgree(H, H0, stack);
    var a0, a1, p := AltCode(t.children[0]), AltCode(t.children[1]), PendingCode(H, stack);
    Assoc(a0, a1, p);
    Regrouped(bits, index', a0 + a1, p, PendingCode(H2, Pushed(n, f, P1)), rest);
  }

  // ---------------------------------------------------------------------
  // The rounds of the loop
  // ---------------------------------------------------------------------

  /** The pending nodes: the current one, then the stack, or none once the loop broke off. */
  function Pend(done: bool, current: nat, stack: seq<nat>): seq<nat>
  {
    if done then [] else [current] + stack
  }

  lemma UpdateAppend<T>(s: seq<T>, i: nat, v: T, tail: seq<T>)
    requires i < |s|
    ensures (s + tail)[i := v] == s[i := v] + tail
  {
  }

  /**
   * A unary node: current takes key and gets a fresh child, which is left
   * with the empty key when flag is set and gets the key "e" otherwise.
   */
  method HangUnary(tree: Arena<string>, current: nat, key: string, flag: bool) returns (child: nat)
    requires tree.Valid() && current < |tree.keys| && tree.children[current] == []
    modifies tree
    ensures tree.Valid() && child == old(|tree.keys|)
    ensures tree.keys == KeysAfterUnary(old(tree.keys), current, key, if flag then "" else "e")
    ensures tree.children == KidsAfterUnary(old(tree.children), current)
  {
    ghost var keys0, kids0 := tree.keys, tree.children;
    tree.SetKey(current, key);
    child := tree.NewNode("");
    assert tree.children[current] + [child] == [child];
    tree.AddChild(current, child);
    UpdateAppend(kids0, current, [child], [[]]);
    if !flag {
      tree.SetKey(child, "e");
    }
    UpdateAppend(keys0, current, key, [if flag then "" else "e"]);
  }

  /**
   * A binary node: current takes key and gets two fresh children, each left
   * with the empty key when its flag is set and given the key "e" otherwise.
   */
  method HangBinary(tree: Arena<string>, current: nat, key: string, leftFlag: bool, rightFlag: bool)
    returns (left: nat, right: nat)
    requires tree.Valid() && current < |tree.keys| && tree.children[current] == []
    modifies tree
    ensures tree.Valid() && left == old(|tree.keys|) && right == left + 1
    ensures tree.keys == KeysAfterBinary(old(tree.keys), current, key, if leftFlag then "" else "e", if rightFlag then "" else "e")
    ensures tree.children == KidsAfterBinary(old(tree.children), current)
  {
    ghost var keys0, kids0 := tree.keys, tree.children;
    tree.SetKey(current, key);
    left := tree.NewNode("");
    right := tree.NewNode("");
    ghost var kids1 := tree.children;
    assert kids1 == kids0 + [[], []] && kids1[current] == [];
    assert kids1[current] + [left] == [left];
    tree.AddChild(current, left);
    assert tree.children[current] + [right] == [left, right];
    tree.AddChild(current, right);
    assert tree.children == kids1[current := [left, right]];
    UpdateAppend(kids0, current, [left, right], [[], []]);
    if !leftFlag {
      tree.SetKey(left, "e");
    }
    if !rightFlag {
      tree.SetKey(right, "e");
    }
    UpdateAppend(keys0, current, key, [if leftFlag then "" else "e", if rightFlag then "" else "e"]);
  }

  /** At a unary hole c, index holds a 0, then the hole's label code, its child's flag and the child's code. */
  ghost predicate UnaryFound(H: map<nat, Tree<string>>, c: nat, stack: seq<nat>, bits: seq<bool>, index: nat, rest: seq<bool>)
  {
    c in H && |H[c].children| == 1 &&
    index + |NodeCode(H[c].key)| + 2 <= |bits| &&
    UnaryLabel(H[c].key) && IsPrefix(NodeCode(H[c].key), bits[index + 1..]) &&
    bits[index + 1 + |NodeCode(H[c].key)|] == (H[c].children[0].key != "e") &&
    Heads(bits, index + |NodeCode(H[c].key)| + 2, AltCode(H[c].children[0]) + (PendingCode(H, stack) + rest))
  }

  /** At a binary hole c, index holds a 1, then the hole's label code, two flags and the children's codes. */
  ghost predicate BinaryFound(H: map<nat, Tree<string>>, c: nat, stack: seq<nat>, bits: seq<bool>, index: nat, rest: seq<bool>)
  {
    c in H && |H[c].children| == 2 &&
    index + |NodeCode(H[c].key)| + 3 <= |bits| &&
    BinaryLabel(H[c].key) && IsPrefix(NodeCode(H[c].key), bits[index + 1..]) &&
    bits[index + 1 + |NodeCode(H[c].key)|] == (H[c].children[0].key != "e") &&
    bits[index + 2 + |NodeCode(H[c].key)|] == (H[c].children[1].key != "e") &&
    Heads(bits, index + |NodeCode(H[c].key)| + 3,
          AltCode(H[c].children[0]) + AltCode(H[c].children[1]) + (PendingCode(H, stack) + rest))
  }

  /** On track, a 0 bit starts a unary node: its label's code and its flag follow. */
  lemma {:induction false} UnaryPlan(keys: seq<string>, kids: seq<seq<nat>>, H: map<nat, Tree<string>>, c: nat, stack: seq<nat>,
                                     bits: seq<bool>, index: nat, rest: seq<bool>, target: Tree<string>)
    requires |keys| == |kids| && Ordered(kids) && index < |bits| && !bits[index]
    ensures Track(keys, kids, H, [c] + stack, bits, index, rest, target) ==> UnaryFound(H, c, stack, bits, index, rest)
  {
    if Track(keys, kids, H, [c] + stack, bits, index, rest, target) {
      TrackCurrent(keys, kids, H, c, stack, bits, index, rest, target);
      UnaryRead(H, c, stack, bits, index, rest);
      InnerParts(H[c]);
    }
  }

  /** On track, a 1 bit starts a binary node: its label's code and its two flags follow. */
  lemma {:induction false} BinaryPlan(keys: seq<string>, kids: seq<seq<nat>>, H: map<nat, Tree<string>>, c: nat, stack: seq<nat>,
                                      bits: seq<bool>, index: nat, rest: seq<bool>, target: Tree<string>)
    requires |keys| == |kids| && Ordered(kids) && index < |bits| && bits[index]
    ensures Track(keys, kids, H, [c] + stack, bits, index, rest, target) ==> BinaryFound(H, c, stack, bits, index, rest)
  {
    if Track(keys, kids, H, [c] + stack, bits, index, rest, target) {
      TrackCurrent(keys, kids, H, c, stack, bits, index, rest, target);
      BinaryRead(H, c, stack, bits, index, rest);
      InnerParts(H[c]);
    }
  }

  /** A label whose code heads the bits from start decodes to itself. */
  lemma LabelPlan(bits: seq<bool>, unary: bool, start: nat, lbl: string)
    requires start <= |bits|
    ensures (if unary then UnaryLabel(lbl) else BinaryLabel(lbl)) && IsPrefix(NodeCode(lbl), bits[start..]) ==>
      DecodeNode(bits, unary, start) == Some(KeyAndIndex(lbl, start + |NodeCode(lbl)|))
  {
    if (if unary then UnaryLabel(lbl) else BinaryLabel(lbl)) && IsPrefix(NodeCode(lbl), bits[start..]) {
      DecodeNodeComplete(bits, unary, start, lbl);
    }
  }

  /** UnaryStep, for any bits: if the round read the target's code, the decoder is still on track. */
  lemma {:induction false} UnaryTracked(keys: seq<string>, kids: seq<seq<nat>>, H: map<nat, Tree<string>>, c: nat, stack: seq<nat>,
                                        bits: seq<bool>, index: nat, rest: seq<bool>, target: Tree<string>,
                                        key: string, f: bool, index': nat)
    requires Growing(keys, kids, [c] + stack)
    ensures Ordered(KidsAfterUnary(kids, c))
    ensures Track(keys, kids, H, [c] + stack, bits, index, rest, target) && c in H && |H[c].children| == 1 &&
            key == H[c].key && f == (H[c].children[0].key != "e") &&
            Heads(bits, index', AltCode(H[c].children[0]) + (PendingCode(H, stack) + rest)) ==>
      Track(KeysAfterUnary(keys, c, key, if f then "" else "e"), KidsAfterUnary(kids, c), Hole(H - {c}, |kids|, f, H[c].children[0]),
            Pushed(|kids|, f, stack), bits, index', rest, target)
  {
    StackPending(kids, c, stack);
    OrderedUnary(kids, c);
    if Track(keys, kids, H, [c] + stack, bits, index, rest, target) && c in H && |H[c].children| == 1 &&
       key == H[c].key && f == (H[c].children[0].key != "e") &&
       Heads(bits, index', AltCode(H[c].children[0]) + (PendingCode(H, stack) + rest)) {
      UnaryStep(keys, kids, H, c, stack, bits, index, rest, target, if f then "" else "e", f, index');
    }
  }

  /** BinaryStep, for any bits. */
  lemma {:induction false} BinaryTracked(keys: seq<string>, kids: seq<seq<nat>>, H: map<nat, Tree<string>>, c: nat, stack: seq<nat>,
                                         bits: seq<bool>, index: nat, rest: seq<bool>, target: Tree<string>,
                                         key: string, f: bool, g: bool, index': nat)
    requires Growing(keys, kids, [c] + stack)
    ensures Ordered(KidsAfterBinary(kids, c))
    ensures Track(keys, kids, H, [c] + stack, bits, index, rest, target) && c in H && |H[c].children| == 2 &&
            key == H[c].key && f == (H[c].children[0].key != "e") && g == (H[c].children[1].key != "e") &&
            Heads(bits, index', AltCode(H[c].children[0]) + AltCode(H[c].children[1]) + (PendingCode(H, stack) + rest)) ==>
      Track(KeysAfterBinary(keys, c, key, if f then "" else "e", if g then "" else "e"), KidsAfterBinary(kids, c),
            Hole(Hole(H - {c}, |kids| + 1, g, H[c].children[1]), |kids|, f, H[c].children[0]),
            Pushed(|kids|, f, Pushed(|kids| + 1, g, stack)), bits, index', rest, target)
  {
    StackPending(kids, c, stack);
    OrderedBinary(kids, c);
    if Track(keys, kids, H, [c] + stack, bits, index, rest, target) && c in H && |H[c].children| == 2 &&
       key == H[c].key && f == (H[c].children[0].key != "e") && g == (H[c].children[1].key != "e") &&
       Heads(bits, index', AltCode(H[c].children[0]) + AltCode(H[c].children[1]) + (PendingCode(H, stack) + rest)) {
      BinaryStep(keys, kids, H, c, stack, bits, index, rest, target, if f then "" else "e", if g then "" else "e", f, g, index');
    }
  }

  /** What any successful decompressNode call gives: a label of the asked-for kind, after at least one bit. */
  lemma LabelRead(bits: seq<bool>, unary: bool, start: nat)
    requires start <= |bits|
    ensures DecodeNode(bits, unary, start).Some? ==>
      var r := DecodeNode(bits, unary, start).value;
      start < r.index <= |bits| && (if unary then UnaryLabel(r.key) else BinaryLabel(r.key))
  {
    if DecodeNode(bits, unary, start).Some? {
      DecodeNodeSound(bits, unary, start);
    }
  }

  /**
   * decompressNode, seen from the loop: a label of the asked-for kind after at
   * least one bit, and lbl itself when lbl's code heads the bits from start.
   */
  method ReadLabel(bits: seq<bool>, unary: bool, start: nat, ghost lbl: string) returns (kai: Option<KeyAndIndex>)
    requires start <= |bits|
    ensures kai.Some? ==> start < kai.value.index <= |bits| && (if unary then UnaryLabel(kai.value.key) else BinaryLabel(kai.value.key))
    ensures (if unary then UnaryLabel(lbl) else BinaryLabel(lbl)) && IsPrefix(NodeCode(lbl), bits[start..]) ==>
      kai == Some(KeyAndIndex(lbl, start + |NodeCode(lbl)|))
  {
    kai := DecompressNode(bits, unary, start);
    LabelRead(bits, unary, start);
    LabelPlan(bits, unary, start, lbl);
  }

  /** The label the target expects at node c, if c is a hole. */
  ghost function Expected(H: map<nat, Tree<string>>, c: nat): string
  {
    if c in H then H[c].key else ""
  }

  /**
   * The bits after the node-kind bit at index begin with lbl's code, a label
   * of that kind, and its one (unary) or two (binary) flags follow.
   */
  ghost predicate Readable(bits: seq<bool>, index: nat, unary: bool, lbl: string)
  {
    index < |bits| && (if unary then UnaryLabel(lbl) else BinaryLabel(lbl)) &&
    IsPrefix(NodeCode(lbl), bits[index + 1..]) && index + |NodeCode(lbl)| + (if unary then 1 else 2) < |bits|
  }

  /** On track, a unary round finds its label and its flag within the bits. */
  lemma {:induction false} UnaryReadable(keys: seq<string>, kids: seq<seq<nat>>, H: map<nat, Tree<string>>, c: nat, stack: seq<nat>,
                                         bits: seq<bool>, index: nat, rest: seq<bool>, target: Tree<string>)
    requires |keys| == |kids| && Ordered(kids) && index < |bits| && !bits[index]
    ensures Track(keys, kids, H, [c] + stack, bits, index, rest, target) ==> Readable(bits, index, true, Expected(H, c))
  {
    UnaryPlan(keys, kids, H, c, stack, bits, index, rest, target);
  }

  /** On track, a binary round finds its label and its two flags within the bits. */
  lemma {:induction false} BinaryReadable(keys: seq<string>, kids: seq<seq<nat>>, H: map<nat, Tree<string>>, c: nat, stack: seq<nat>,
                                          bits: seq<bool>, index: nat, rest: seq<bool>, target: Tree<string>)
    requires |keys| == |kids| && Ordered(kids) && index < |bits| && bits[index]
    ensures Track(keys, kids, H, [c] + stack, bits, index, rest, target) ==> Readable(bits, index, false, Expected(H, c))
  {
    BinaryPlan(keys, kids, H, c, stack, bits, index, rest, target);
  }

  /**
   * The head of a round after the node-kind bit at index: decompressNode, then
   * room for the flags. Fails when decompressNode fails or a flag would lie
   * past the end of the bits (the source's exceptions).
   */
  method ReadHead(bits: seq<bool>, index: nat, unary: bool, ghost lbl: string) returns (ok: bool, key: string, i: nat)
    requires index < |bits|
    ensures ok ==> (if unary then UnaryLabel(key) else BinaryLabel(key)) && index + 1 < i && i + (if unary then 0 else 1) < |bits|
    ensures Readable(bits, index, unary, lbl) ==> ok && key == lbl && i == index + 1 + |NodeCode(lbl)|
  {
    var kai := ReadLabel(bits, unary, index + 1, lbl);
    if kai.None? {
      return false, "", index;
    }
    key, i := kai.value.key, kai.value.index;
    ok := i + (if unary then 0 else 1) < |bits|;
  }

  /** The holes after a unary round at c hung its child as node n, with flag f. */
  ghost function UnaryHoles(H: map<nat, Tree<string>>, c: nat, n: nat, f: bool): map<nat, Tree<string>>
  {
    Hole(H - {c}, n, f, if c in H && |H[c].children| == 1 then H[c].children[0] else Node("e", []))
  }

  /** The holes after a binary round at c hung its children as nodes n and n + 1, with flags f and g. */
  ghost function BinaryHoles(H: map<nat, Tree<string>>, c: nat, n: nat, f: bool, g: bool): map<nat, Tree<string>>
  {
    var two := c in H && |H[c].children| == 2;
    Hole(Hole(H - {c}, n + 1, g, if two then H[c].children[1] else Node("e", [])),
         n, f, if two then H[c].children[0] else Node("e", []))
  }

  /** On track, the label and flag the unary round read are the target's. */
  lemma {:induction false} UnaryAgree(keys: seq<string>, kids: seq<seq<nat>>, H: map<nat, Tree<string>>, c: nat, stack: seq<nat>,
                                      bits: seq<bool>, index: nat, rest: seq<bool>, target: Tree<string>, key: string, i: nat)
    requires |keys| == |kids| && Ordered(kids) && index < |bits| && !bits[index] && i < |bits|
    requires Readable(bits, index, true, Expected(H, c)) ==> key == Expected(H, c) && i == index + 1 + |NodeCode(Expected(H, c))|
    ensures Track(keys, kids, H, [c] + stack, bits, index, rest, target) ==>
      c in H && |H[c].children| == 1 && key == H[c].key && bits[i] == (H[c].children[0].key != "e") &&
      Heads(bits, i + 1, AltCode(H[c].children[0]) + (PendingCode(H, stack) + rest)) &&
      UnaryHoles(H, c, |kids|, bits[i]) == Hole(H - {c}, |kids|, bits[i], H[c].children[0])
  {
    UnaryPlan(keys, kids, H, c, stack, bits, index, rest, target);
    UnaryFoundAgrees(H, c, stack, bits, index, rest, key, i, |kids|);
  }

  lemma UnaryFoundAgrees(H: map<nat, Tree<string>>, c: nat, stack: seq<nat>, bits: seq<bool>, index: nat, rest: seq<bool>,
                         key: string, i: nat, n: nat)
    requires index < |bits| && i < |bits|
    requires Readable(bits, index, true, Expected(H, c)) ==> key == Expected(H, c) && i == index + 1 + |NodeCode(Expected(H, c))|
    ensures UnaryFound(H, c, stack, bits, index, rest) ==>
      c in H && |H[c].children| == 1 && key == H[c].key && bits[i] == (H[c].children[0].key != "e") &&
      Heads(bits, i + 1, AltCode(H[c].children[0]) + (PendingCode(H, stack) + rest)) &&
      UnaryHoles(H, c, n, bits[i]) == Hole(H - {c}, n, bits[i], H[c].children[0])
  {
    if UnaryFound(H, c, stack, bits, index, rest) {
      UnaryReadAgrees(bits, index, H[c].key, Expected(H, c), NodeCode(H[c].key), key, i,
                      H[c].children[0].key != "e", AltCode(H[c].children[0]) + (PendingCode(H, stack) + rest));
      UnaryHolesOne(H, c, n, bits[i]);
    }
  }

  /** On track, the label and flags the binary round read are the target's. */
  lemma {:induction false} BinaryAgree(keys: seq<string>, kids: seq<seq<nat>>, H: map<nat, Tree<string>>, c: nat, stack: seq<nat>,
                                       bits: seq<bool>, index: nat, rest: seq<bool>, target: Tree<string>, key: string, i: nat)
    requires |keys| == |kids| && Ordered(kids) && index < |bits| && bits[index] && i + 1 < |bits|
    requires Readable(bits, index, false, Expected(H, c)) ==> key == Expected(H, c) && i == index + 1 + |NodeCode(Expected(H, c))|
    ensures Track(keys, kids, H, [c] + stack, bits, index, rest, target) ==>
      c in H && |H[c].children| == 2 && key == H[c].key &&
      bits[i] == (H[c].children[0].key != "e") && bits[i + 1] == (H[c].children[1].key != "e") &&
      Heads(bits, i + 2, AltCode(H[c].children[0]) + AltCode(H[c].children[1]) + (PendingCode(H, stack) + rest)) &&
      BinaryHoles(H, c, |kids|, bits[i], bits[i + 1]) ==
        Hole(Hole(H - {c}, |kids| + 1, bits[i + 1], H[c].children[1]), |kids|, bits[i], H[c].children[0])
  {
    BinaryPlan(keys, kids, H, c, stack, bits, index, rest, target);
    BinaryFoundAgrees(H, c, stack, bits, index, rest, key, i, |kids|);
  }

  lemma BinaryFoundAgrees(H: map<nat, Tree<string>>, c: nat, stack: seq<nat>, bits: seq<bool>, index: nat, rest: seq<bool>,
                          key: string, i: nat, n: nat)
    requires index < |bits| && i + 1 < |bits|
    requires Readable(bits, index, false, Expected(H, c)) ==> key == Expected(H, c) && i == index + 1 + |NodeCode(Expected(H, c))|
    ensures BinaryFound(H, c, stack, bits, index, rest) ==>
      c in H && |H[c].children| == 2 && key == H[c].key &&
      bits[i] == (H[c].children[0].key != "e") && bits[i + 1] == (H[c].children[1].key != "e") &&
      Heads(bits, i + 2, AltCode(H[c].children[0]) + AltCode(H[c].children[1]) + (PendingCode(H, stack) + rest)) &&
      BinaryHoles(H, c, n, bits[i], bits[i + 1]) == Hole(Hole(H - {c}, n + 1, bits[i + 1], H[c].children[1]), n, bits[i], H[c].children[0])
  {
    if BinaryFound(H, c, stack, bits, index, rest) {
      BinaryReadAgrees(bits, index, H[c].key, Expected(H, c), NodeCode(H[c].key), key, i,
                       H[c].children[0].key != "e", H[c].children[1].key != "e",
                       AltCode(H[c].children[0]) + AltCode(H[c].children[1]) + (PendingCode(H, stack) + rest));
      BinaryHolesTwo(H, c, n, bits[i], bits[i + 1]);
    }
  }

  /** The holes after a binary round at a binary hole c. */
  lemma BinaryHolesTwo(H: map<nat, Tree<string>>, c: nat, n: nat, f: bool, g: bool)
    requires c in H && |H[c].children| == 2
    ensures BinaryHoles(H, c, n, f, g) == Hole(Hole(H - {c}, n + 1, g, H[c].children[1]), n, f, H[c].children[0])
  {
  }

  /** The holes after a unary round at a unary hole c. */
  lemma UnaryHolesOne(H: map<nat, Tree<string>>, c: nat, n: nat, f: bool)
    requires c in H && |H[c].children| == 1
    ensures UnaryHoles(H, c, n, f) == Hole(H - {c}, n, f, H[c].children[0])
  {
  }

  /**
   * When the bits after index hold lbl's code and a unary node's flag f, the
   * label read is lbl, the reading position i is just past its code, and the
   * flag read there is f.
   */
  lemma UnaryReadAgrees(bits: seq<bool>, index: nat, lbl: string, expected: string, code: seq<bool>,
                        key: string, i: nat, f: bool, w: seq<bool>)
    requires expected == lbl && code == NodeCode(lbl) && index < |bits|
    requires UnaryLabel(lbl) && IsPrefix(code, bits[index + 1..]) && index + |code| + 2 <= |bits|
    requires bits[index + 1 + |code|] == f && Heads(bits, index + |code| + 2, w)
    requires Readable(bits, index, true, expected) ==> key == expected && i == index + 1 + |NodeCode(expected)|
    ensures key == lbl && i + 1 <= |bits| && bits[i] == f && Heads(bits, i + 1, w)
  {
  }

  /** UnaryReadAgrees for a binary node with flags f and g. */
  lemma BinaryReadAgrees(bits: seq<bool>, index: nat, lbl: string, expected: string, code: seq<bool>,
                         key: string, i: nat, f: bool, g: bool, w: seq<bool>)
    requires expected == lbl && code == NodeCode(lbl) && index < |bits|
    requires BinaryLabel(lbl) && IsPrefix(code, bits[index + 1..]) && index + |code| + 3 <= |bits|
    requires bits[index + 1 + |code|] == f && bits[index + 2 + |code|] == g && Heads(bits, index + |code| + 3, w)
    requires Readable(bits, index, false, expected) ==> key == expected && i == index + 1 + |NodeCode(expected)|
    ensures key == lbl && i + 2 <= |bits| && bits[i] == f && bits[i + 1] == g && Heads(bits, i + 2, w)
  {
  }

  /** Where the loop goes next: the current node, the stack, and whether it stops. */
  datatype Position = Position(current: nat, stack: seq<nat>, done: bool)

  /**
   * Where the loop goes after a unary node: down to its child when that is
   * not a leaf, otherwise to the node popped from the stack, or it stops.
   */
  function AdvanceUnary(current: nat, stack: seq<nat>, child: nat, flag: bool): (p: Position)
    ensures Pend(p.done, p.current, p.stack) == Pushed(child, flag, stack)
    ensures p.done <==> !flag && |stack| == 0
  {
    if flag then Position(child, stack, false)
    else if |stack| == 0 then Position(current, [], true)
    else Position(stack[0], stack[1..], false)
  }

  /**
   * Where the loop goes after a binary node: to the left child when it is not
   * a leaf (pushing the right one when that is not a leaf either), else to the
   * right child when it is not a leaf, else to the popped node, or it stops.
   */
  function AdvanceBinary(current: nat, stack: seq<nat>, left: nat, right: nat, leftFlag: bool, rightFlag: bool): (p: Position)
    ensures Pend(p.done, p.current, p.stack) == Pushed(left, leftFlag, Pushed(right, rightFlag, stack))
    ensures p.done <==> !leftFlag && !rightFlag && |stack| == 0
  {
    if leftFlag then Position(left, if rightFlag then [right] + stack else stack, false)
    else if rightFlag then Position(right, stack, false)
    else if |stack| == 0 then Position(current, [], true)
    else Position(stack[0], stack[1..], false)
  }

  /** The bookkeeping of one unary round: the new arena grows, and stays on track when the old one was. */
  lemma {:induction false} UnaryFinish(tree: Arena<string>, keys: seq<string>, kids: seq<seq<nat>>, H: map<nat, Tree<string>>,
                                       c: nat, stack: seq<nat>, bits: seq<bool>, index: nat, rest: seq<bool>, target: Tree<string>,
                                       key: string, i: nat, child: nat, flag: bool, next: nat, H': map<nat, Tree<string>>, pend: seq<nat>)
    requires Growing(keys, kids, [c] + stack)
    requires child == |keys| && c < |keys| && index < |bits| && !bits[index] && UnaryLabel(key) && i < |bits| && flag == bits[i]
    requires Readable(bits, index, true, Expected(H, c)) ==> key == Expected(H, c) && i == index + 1 + |NodeCode(Expected(H, c))|
    requires tree.keys == KeysAfterUnary(keys, c, key, if flag then "" else "e") && tree.children == KidsAfterUnary(kids, c)
    requires next == i + 1 && H' == UnaryHoles(H, c, child, flag) && pend == Pushed(child, flag, stack)
    ensures Growing(tree.keys, tree.children, pend)
    ensures Track(keys, kids, H, [c] + stack, bits, index, rest, target) ==>
      Track(tree.keys, tree.children, H', pend, bits, next, rest, target)
  {
    UnaryAgree(keys, kids, H, c, stack, bits, index, rest, target, key, i);
    UnaryTracked(keys, kids, H, c, stack, bits, index, rest, target, key, flag, i + 1);
    GrowUnary(keys, kids, c, stack, key, if flag then "" else "e", flag);
  }

  /** The hanging half of a unary round, once its label and flag are read. */
  method HangUnaryRound(tree: Arena<string>, bits: seq<bool>, index: nat, current: nat, stack: seq<nat>, key: string, i: nat,
                        ghost H: map<nat, Tree<string>>, ghost rest: seq<bool>, ghost target: Tree<string>)
    returns (next: nat, current': nat, stack': seq<nat>, done: bool, ghost H': map<nat, Tree<string>>)
    requires tree.Valid() && Growing(tree.keys, tree.children, [current] + stack)
    requires index < |bits| && !bits[index] && UnaryLabel(key) && index + 1 < i < |bits|
    requires Readable(bits, index, true, Expected(H, current)) ==>
      key == Expected(H, current) && i == index + 1 + |NodeCode(Expected(H, current))|
    modifies tree
    ensures index < next <= |bits| && tree.Valid() && Growing(tree.keys, tree.children, Pend(done, current', stack'))
    ensures old(|tree.keys|) < |tree.keys|
    ensures Track(old(tree.keys), old(tree.children), H, [current] + stack, bits, index, rest, target) ==>
      Track(tree.keys, tree.children, H', Pend(done, current', stack'), bits, next, rest, target)
  {
    ghost var keys0, kids0 := tree.keys, tree.children;
    StackPending(kids0, current, stack);
    var flag := bits[i];
    var child := HangUnary(tree, current, key, flag);
    next, H' := i + 1, UnaryHoles(H, current, child, flag);
    var p := AdvanceUnary(current, stack, child, flag);
    current', stack', done := p.current, p.stack, p.done;
    UnaryFinish(tree, keys0, kids0, H, current, stack, bits, index, rest, target, key, i, child, flag, next, H', Pend(done, current', stack'));
  }

  /** One round of the loop at a 0 bit: decode a unary node and hang its child. */
  method UnaryRound(tree: Arena<string>, bits: seq<bool>, index: nat, current: nat, stack: seq<nat>,
                    ghost H: map<nat, Tree<string>>, ghost rest: seq<bool>, ghost target: Tree<string>)
    returns (ok: bool, next: nat, current': nat, stack': seq<nat>, done: bool, ghost H': map<nat, Tree<string>>)
    requires tree.Valid() && Growing(tree.keys, tree.children, [current] + stack)
    requires index < |bits| && !bits[index]
    modifies tree
    ensures ok ==> index < next <= |bits| && tree.Valid() && Growing(tree.keys, tree.children, Pend(done, current', stack'))
    ensures ok ==> old(|tree.keys|) < |tree.keys|
    ensures Track(old(tree.keys), old(tree.children), H, [current] + stack, bits, index, rest, target) ==>
      ok && Track(tree.keys, tree.children, H', Pend(done, current', stack'), bits, next, rest, target)
  {
    UnaryReadable(tree.keys, tree.children, H, current, stack, bits, index, rest, target);
    var found, key, i := ReadHead(bits, index, true, Expected(H, current));
    if !found {
      return false, index, current, stack, true, H;
    }
    ok := true;
    next, current', stack', done, H' := HangUnaryRound(tree, bits, index, current, stack, key, i, H, rest, target);
  }

  /** The bookkeeping of one binary round: the new arena grows, and stays on track when the old one was. */
  lemma {:induction false} BinaryFinish(tree: Arena<string>, keys: seq<string>, kids: seq<seq<nat>>, H: map<nat, Tree<string>>,
                                        c: nat, stack: seq<nat>, bits: seq<bool>, index: nat, rest: seq<bool>, target: Tree<string>,
                                        key: string, i: nat, left: nat, right: nat, leftFlag: bool, rightFlag: bool,
                                        next: nat, H': map<nat, Tree<string>>, pend: seq<nat>)
    requires Growing(keys, kids, [c] + stack)
    requires left == |keys| && right == left + 1 && c < |keys| && index < |bits| && bits[index] && BinaryLabel(key)
    requires i + 1 < |bits| && leftFlag == bits[i] && rightFlag == bits[i + 1]
    requires Readable(bits, index, false, Expected(H, c)) ==> key == Expected(H, c) && i == index + 1 + |NodeCode(Expected(H, c))|
    requires tree.keys == KeysAfterBinary(keys, c, key, if leftFlag then "" else "e", if rightFlag then "" else "e")
    requires tree.children == KidsAfterBinary(kids, c)
    requires next == i + 2 && H' == BinaryHoles(H, c, left, leftFlag, rightFlag)
    requires pend == Pushed(left, leftFlag, Pushed(right, rightFlag, stack))
    ensures Growing(tree.keys, tree.children, pend)
    ensures Track(keys, kids, H, [c] + stack, bits, index, rest, target) ==>
      Track(tree.keys, tree.children, H', pend, bits, next, rest, target)
  {
    BinaryAgree(keys, kids, H, c, stack, bits, index, rest, target, key, i);
    BinaryTracked(keys, kids, H, c, stack, bits, index, rest, target, key, leftFlag, rightFlag, i + 2);
    GrowBinary(keys, kids, c, stack, key, if leftFlag then "" else "e", if rightFlag then "" else "e", leftFlag, rightFlag);
  }

  /** The hanging half of a binary round, once its label and flags are read. */
  method HangBinaryRound(tree: Arena<string>, bits: seq<bool>, index: nat, current: nat, stack: seq<nat>, key: string, i: nat,
                         ghost H: map<nat, Tree<string>>, ghost rest: seq<bool>, ghost target: Tree<string>)
    returns (next: nat, current': nat, stack': seq<nat>, done: bool, ghost H': map<nat, Tree<string>>)
    requires tree.Valid() && Growing(tree.keys, tree.children, [current] + stack)
    requires index < |bits| && bits[index] && BinaryLabel(key) && index + 1 < i && i + 1 < |bits|
    requires Readable(bits, index, false, Expected(H, current)) ==>
      key == Expected(H, current) && i == index + 1 + |NodeCode(Expected(H, current))|
    modifies tree
    ensures index < next <= |bits| && tree.Valid() && Growing(tree.keys, tree.children, Pend(done, current', stack'))
    ensures old(|tree.keys|) < |tree.keys|
    ensures Track(old(tree.keys), old(tree.children), H, [current] + stack, bits, index, rest, target) ==>
      Track(tree.keys, tree.children, H', Pend(done, current', stack'), bits, next, rest, target)
  {
    ghost var keys0, kids0 := tree.keys, tree.children;
    StackPending(kids0, current, stack);
    var leftFlag, rightFlag := bits[i], bits[i + 1];
    var left, right := HangBinary(tree, current, key, leftFlag, rightFlag);
    next, H' := i + 2, BinaryHoles(H, current, left, leftFlag, rightFlag);
    var p := AdvanceBinary(current, stack, left, right, leftFlag, rightFlag);
    current', stack', done := p.current, p.stack, p.done;
    BinaryFinish(tree, keys0, kids0, H, current, stack, bits, index, rest, target, key, i, left, right, leftFlag, rightFlag,
                 next, H', Pend(done, current', stack'));
  }

  /**
   * One round of the loop at a 1 bit: decode a binary node and hang its two
   * children. The left child is visited next when it is not a leaf, the right
   * one is pushed (or visited, when the left is a leaf) when it is not a leaf.
   */
  method BinaryRound(tree: Arena<string>, bits: seq<bool>, index: nat, current: nat, stack: seq<nat>,
                     ghost H: map<nat, Tree<string>>, ghost rest: seq<bool>, ghost target: Tree<string>)
    returns (ok: bool, next: nat, current': nat, stack': seq<nat>, done: bool, ghost H': map<nat, Tree<string>>)
    requires tree.Valid() && Growing(tree.keys, tree.children, [current] + stack)
    requires index < |bits| && bits[index]
    modifies tree
    ensures ok ==> index < next <= |bits| && tree.Valid() && Growing(tree.keys, tree.children, Pend(done, current', stack'))
    ensures ok ==> old(|tree.keys|) < |tree.keys|
    ensures Track(old(tree.keys), old(tree.children), H, [current] + stack, bits, index, rest, target) ==>
      ok && Track(tree.keys, tree.children, H', Pend(done, current', stack'), bits, next, rest, target)
  {
    BinaryReadable(tree.keys, tree.children, H, current, stack, bits, index, rest, target);
    var found, key, i := ReadHead(bits, index, false, Expected(H, current));
    if !found {
      return false, index, current, stack, true, H;
    }
    ok := true;
    next, current', stack', done, H' := HangBinaryRound(tree, bits, index, current, stack, key, i, H, rest, target);
  }

  /** One round of the loop: a 0 bit starts a unary node, a 1 bit a binary one. */
  method Round(tree: Arena<string>, bits: seq<bool>, index: nat, current: nat, stack: seq<nat>,
               ghost H: map<nat, Tree<string>>, ghost rest: seq<bool>, ghost target: Tree<string>)
    returns (ok: bool, next: nat, current': nat, stack': seq<nat>, done: bool, ghost H': map<nat, Tree<string>>)
    requires tree.Valid() && Growing(tree.keys, tree.children, [current] + stack)
    requires index < |bits|
    modifies tree
    ensures ok ==> index < next <= |bits| && tree.Valid() && Growing(tree.keys, tree.children, Pend(done, current', stack'))
    ensures ok ==> old(|tree.keys|) < |tree.keys|
    ensures Track(old(tree.keys), old(tree.children), H, [current] + stack, bits, index, rest, target) ==>
      ok && Track(tree.keys, tree.children, H', Pend(done, current', stack'), bits, next, rest, target)
  {
    if !bits[index] {
      ok, next, current', stack', done, H' := UnaryRound(tree, bits, index, current, stack, H, rest, target);
    } else {
      ok, next, current', stack', done, H' := BinaryRound(tree, bits, index, current, stack, H, rest, target);
    }
  }

  // ---------------------------------------------------------------------
  // decompressAlternative
  // ---------------------------------------------------------------------

  /** The bits begin with the alternative code of t, an inner contracted tree. */
  ghost predicate AltEncodes(t: Tree<string>, bits: seq<bool>)
  {
    Inner(t) && IsPrefix(AltCode(t), bits)
  }

  /** Before the loop: the root alone, pending; on track when the bits begin with the target's code. */
  lemma {:induction false} AltStart(keys: seq<string>, kids: seq<seq<nat>>, H: map<nat, Tree<string>>, pend: seq<nat>,
                                    bits: seq<bool>, index: nat, rest: seq<bool>, target: Tree<string>)
    requires keys == [""] && kids == [[]] && pend == [0] && index == 0 && H == map[0 := target]
    requires AltEncodes(target, bits) ==> rest == bits[|AltCode(target)|..]
    ensures Growing(keys, kids, pend)
    ensures AltEncodes(target, bits) ==> Track(keys, kids, H, pend, bits, index, rest, target)
  {
    StartGrowing();
    if AltEncodes(target, bits) {
      StartReading(target, bits, rest);
      StartTrack(target, bits, rest);
    }
  }

  lemma StartGrowing()
    ensures Growing([""], [[]], [0])
  {
    assert Ordered([[]]);
  }

  lemma {:induction false} StartReading(target: Tree<string>, bits: seq<bool>, rest: seq<bool>)
    requires IsPrefix(AltCode(target), bits) && rest == bits[|AltCode(target)|..]
    ensures Reading(map[0 := target], [0], bits, 0, rest)
  {
    var H := map[0 := target];
    PendingSingle(H, 0);
    WholeRead(bits, AltCode(target), PendingCode(H, [0]), rest);
  }

  lemma PendingSingle(H: map<nat, Tree<string>>, c: nat)
    requires c in H
    ensures PendingCode(H, [c]) == AltCode(H[c])
  {
    PendingHead(H, c, []);
    assert [c] + [] == [c];
  }

  lemma WholeRead(bits: seq<bool>, w: seq<bool>, p: seq<bool>, rest: seq<bool>)
    requires IsPrefix(w, bits) && rest == bits[|w|..] && p == w
    ensures Heads(bits, 0, p + rest)
  {
    assert bits == bits[..|w|] + bits[|w|..];
  }

  lemma {:induction false} StartTrack(target: Tree<string>, bits: seq<bool>, rest: seq<bool>)
    requires Inner(target) && Reading(map[0 := target], [0], bits, 0, rest)
    ensures Ordered([[]]) && Track([""], [[]], map[0 := target], [0], bits, 0, rest, target)
  {
    assert Ordered([[]]);
    assert Holes([[]], map[0 := target], [0]);
  }

  /**
   * After the loop: on track, the loop stopped because no node was pending,
   * not because the bits ran out, and the arena is the target.
   */
  lemma {:induction false} AltEnd(keys: seq<string>, kids: seq<seq<nat>>, H: map<nat, Tree<string>>, current: nat, stack: seq<nat>,
                                  done: bool, bits: seq<bool>, index: nat, rest: seq<bool>, target: Tree<string>)
    requires Growing(keys, kids, Pend(done, current, stack)) && 0 < |kids| && (index >= |bits| || done)
    ensures Track(keys, kids, H, Pend(done, current, stack), bits, index, rest, target) ==> done && Unfold(keys, kids, 0) == target
  {
    if Track(keys, kids, H, Pend(done, current, stack), bits, index, rest, target) {
      if !done {
        TrackCurrent(keys, kids, H, current, stack, bits, index, rest, target);
        TrackHead(H, current, stack, bits, index, rest);
        assert false;
      }
      assert H.Keys == {};
      assert H == map[];
      FillEmpty(keys, kids, 0);
    }
  }

  /** An arena of the root alone is the leaf with the empty key. */
  lemma RootAlone(keys: seq<string>, kids: seq<seq<nat>>)
    requires keys == [""] && kids == [[]]
    ensures Ordered(kids) && Unfold(keys, kids, 0) == Node("", [])
  {
    assert Ordered(kids);
  }

  /**
   * The loop of decompressAlternative: rebuilds the contracted tree node by
   * node. Not ok where the source throws: a label that does not decode, or
   * a flag bit past the end.
   */
  method BuildAlternative(compressed: seq<bool>, ghost target: Tree<string>) returns (tree: Arena<string>, ok: bool)
    ensures fresh(tree)
    ensures ok ==> tree.Valid() && Growing(tree.keys, tree.children, []) && 0 < |tree.keys|
    ensures |compressed| == 0 ==> ok && tree.keys == [""] && tree.children == [[]]
    ensures AltEncodes(target, compressed) ==> ok && Unfold(tree.keys, tree.children, 0) == target
  {
    tree := new Arena<string>();
    var current := tree.NewNode("");
    var index, stack, done := 0, [], false;
    ghost var guided := AltEncodes(target, compressed);
    ghost var rest := if guided then compressed[|AltCode(target)|..] else [];
    ghost var H := map[0 := target];
    AltStart(tree.keys, tree.children, H, Pend(done, current, stack), compressed, index, rest, target);
    while index < |compressed| && !done
      invariant fresh(tree) && tree.Valid() && Growing(tree.keys, tree.children, Pend(done, current, stack)) && 0 < |tree.keys|
      invariant index <= |compressed|
      invariant index == 0 ==> tree.keys == [""] && tree.children == [[]]
      invariant guided ==> Track(tree.keys, tree.children, H, Pend(done, current, stack), compressed, index, rest, target)
      decreases |compressed| - index
    {
      ok, index, current, stack, done, H := Round(tree, compressed, index, current, stack, H, rest, target);
      if !ok {
        return;
      }
    }
    AltEnd(tree.keys, tree.children, H, current, stack, done, compressed, index, rest, target);
    GrowingNone(tree.keys, tree.children, Pend(done, current, stack));
    ok := true;
  }

  lemma GrowingNone(keys: seq<string>, kids: seq<seq<nat>>, pend: seq<nat>)
    requires Growing(keys, kids, pend)
    ensures Growing(keys, kids, [])
  {
  }

  /**
   * decompressAlternative: rebuilds the contracted tree and spells it out.
   * None where the source throws.
   */
  method DecompressAlternative(compressed: seq<bool>, ghost target: Tree<string>) returns (r: Option<(string, string)>)
    ensures r.Some? ==> |r.value.0| == |r.value.1| && forall i :: 0 <= i < |r.value.1| ==> r.value.1[i] in ".()"
    ensures |compressed| == 0 ==> r == Some(("", ""))
    ensures AltEncodes(target, compressed) ==> Spellable(target) && r == Some(Rna(target))
  {
    var tree, ok := BuildAlternative(compressed, target);
    if !ok {
      return None;
    }
    if |compressed| == 0 {
      RootAlone(tree.keys, tree.children);
    }
    PairsSpellable(tree.keys, tree.children, 0);
    RnaLengths(tree.TreeAt(0));
    var sequence, structure := TreeToRna(tree, 0);
    r := Some((sequence, structure));
  }
}
