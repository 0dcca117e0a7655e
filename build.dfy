/**
 * The algorithms of huffman.cpp: build_tree, the greedy merge over a
 * priority queue of trees, and build_code, the breadth-first walk that maps
 * every leaf's symbol string to its root-to-leaf path.
 *
 * The priority queue is a sequence; `TopIndex` finds the element that
 * std::priority_queue::top would return (a greatest one under
 * encoding::operator<), and popping removes that element.
 */
module HuffmanBuild {
  import opened Wrappers
  import opened Trees
  import opened Huffman

  /** At every internal node the left child weighs no more than the right one. */
  predicate LeftLighter(t: HTree) {
    match t
    case Leaf(_) => true
    case Node(l, r, _) => l.d.weight <= r.d.weight && LeftLighter(l) && LeftLighter(r)
  }

  /**
   * At every internal node the left child was popped first: it is not less
   * than the right one under encoding::operator<, so at equal weights the
   * tie-break on the symbol strings also decides which goes left.
   */
  predicate PoppedFirstLeft(t: HTree) {
    match t
    case Leaf(_) => true
    case Node(l, r, _) => !Less(l.d, r.d) && PoppedFirstLeft(l) && PoppedFirstLeft(r)
  }

  /** wq.top(): the index of an element no other element exceeds, i.e. a lightest tree. */
  method TopIndex(q: seq<HTree>) returns (k: nat)
    requires |q| > 0
    ensures k < |q|
    ensures forall j | 0 <= j < |q| :: !Less(q[k].d, q[j].d)
    ensures forall j | 0 <= j < |q| :: q[k].d.weight <= q[j].d.weight
  {
    LessIsStrictTotalOrder();
    k := 0;
    var i := 1;
    while i < |q|
      invariant 1 <= i <= |q| && k < i
      invariant forall j | 0 <= j < i :: !Less(q[k].d, q[j].d)
    {
      if Less(q[k].d, q[i].d) {
        k := i;
      }
      i := i + 1;
    }
    forall j | 0 <= j < |q| ensures q[k].d.weight <= q[j].d.weight {
      LessIsInvertedWeight(q[k].d, q[j].d);
    }
  }

  /**
   * wq.top() followed by wq.pop(): takes a lightest tree out of the queue.
   * The queue loses exactly that tree, and with it exactly that tree's leaves.
   */
  method PopTop(q: seq<HTree>) returns (top: HTree, rest: seq<HTree>)
    requires |q| > 0
    ensures |rest| == |q| - 1 && top in q
    ensures forall t | t in rest :: t in q && top.d.weight <= t.d.weight && !Less(top.d, t.d)
    ensures multiset(q) == multiset(rest) + multiset{top}
    ensures multiset(ForestFringe(q)) == multiset(ForestFringe(rest)) + multiset(Fringe(top))
  {
    var k := TopIndex(q);
    top := q[k];
    rest := q[..k] + q[k + 1..];
    ForestFringeRemove(q, k);
    MultisetRemove(q, k);
    forall t | t in rest ensures t in q && top.d.weight <= t.d.weight && !Less(top.d, t.d) {
      var j :| 0 <= j < |rest| && rest[j] == t;
      assert q[if j < k then j else j + 1] == t;
    }
  }

  /** The loop at huffman.cpp:68-70: one leaf per input encoding, in input order. */
  method InitialForest(encs: seq<Encoding>) returns (wq: seq<HTree>)
    ensures |wq| == |encs|
    ensures forall j | 0 <= j < |encs| :: wq[j] == MakeLeaf(encs[j])
    ensures ForestFringe(wq) == encs
  {
    wq := [];
    var i := 0;
    while i < |encs|
      invariant i <= |encs| && |wq| == i
      invariant forall j | 0 <= j < i :: wq[j] == MakeLeaf(encs[j])
      invariant ForestFringe(wq) == encs[..i]
    {
      ForestFringeAppend(wq, [MakeLeaf(encs[i])]);
      assert ForestFringe([MakeLeaf(encs[i])]) == [encs[i]] by {
        assert [MakeLeaf(encs[i])][1..] == [];
      }
      assert encs[..i + 1] == encs[..i] + [encs[i]];
      wq := wq + [MakeLeaf(encs[i])];
      i := i + 1;
    }
    assert encs[..i] == encs;
  }

  /** Every tree of the queue was built by the constructors, first-popped child on the left. */
  predicate ForestOk(q: seq<HTree>) {
    forall t | t in q :: WellWeighted(t) && LeftLighter(t) && PoppedFirstLeft(t)
  }

  /**
   * One round of build_tree's loop (huffman.cpp:78-80): pop the lightest
   * tree, pop the next lightest, push their merge with the first popped on
   * the left. The queue shrinks by one and keeps all its leaves.
   */
  method MergeLightest(wq: seq<HTree>) returns (next: seq<HTree>, min1: HTree, min2: HTree)
    requires |wq| >= 2 && ForestOk(wq)
    ensures |next| == |wq| - 1 && ForestOk(next)
    ensures next[|next| - 1] == MakeNode(min1, min2)
    ensures multiset(wq) == multiset(next[..|next| - 1]) + multiset{min1, min2}
    ensures min1.d.weight <= min2.d.weight && !Less(min1.d, min2.d)
    ensures forall t | t in next[..|next| - 1] :: min2.d.weight <= t.d.weight && !Less(min2.d, t.d)
    ensures multiset(ForestFringe(next)) == multiset(ForestFringe(wq))
  {
    var rest1, rest2;
    min1, rest1 := PopTop(wq);
    min2, rest2 := PopTop(rest1);
    var merged := MakeNode(min1, min2);
    next := rest2 + [merged];
    MergedForestOk(wq, rest1, rest2, min1, min2);
    MergeKeepsLeaves(wq, rest1, rest2, min1, min2);
    assert next[..|next| - 1] == rest2;
    TwoPops(wq, rest1, rest2, min1, min2);
  }

  lemma {:induction false} MergeKeepsLeaves(wq: seq<HTree>, rest1: seq<HTree>, rest2: seq<HTree>, min1: HTree, min2: HTree)
    requires multiset(ForestFringe(wq)) == multiset(ForestFringe(rest1)) + multiset(Fringe(min1))
    requires multiset(ForestFringe(rest1)) == multiset(ForestFringe(rest2)) + multiset(Fringe(min2))
    ensures multiset(ForestFringe(rest2 + [MakeNode(min1, min2)])) == multiset(ForestFringe(wq))
  {
    PushFringe(rest2, MakeNode(min1, min2));
  }


  lemma {:induction false} MergedForestOk(wq: seq<HTree>, rest1: seq<HTree>, rest2: seq<HTree>, min1: HTree, min2: HTree)
    requires ForestOk(wq) && min1 in wq && min2 in rest1
    requires forall t | t in rest1 :: t in wq && min1.d.weight <= t.d.weight && !Less(min1.d, t.d)
    requires forall t | t in rest2 :: t in rest1
    ensures ForestOk(rest2 + [MakeNode(min1, min2)])
  {
  }

  /**
   * build_tree (huffman.cpp:61-83). The forest starts with one leaf per
   * input encoding; each round pops the two lightest trees and pushes their
   * merge, the first popped on the left, until one tree is left. An empty
   * input has no tree (the source then calls top() on an empty queue).
   */
  method BuildTree(encs: seq<Encoding>) returns (res: Option<HTree>)
    ensures res.None? <==> encs == []
    ensures res.Some? ==> WellWeighted(res.value) && LeftLighter(res.value) && PoppedFirstLeft(res.value)
    ensures res.Some? ==> multiset(Fringe(res.value)) == multiset(encs)
    ensures res.Some? ==> res.value.d.weight == TotalWeight(encs)
    ensures res.Some? ==> LeafCount(res.value) == |encs| && InternalCount(res.value) == |encs| - 1
  {
    var wq := InitialForest(encs);
    if |wq| == 0 {
      return None;
    }

    while |wq| > 1
      invariant |wq| >= 1 && ForestOk(wq)
      invariant multiset(ForestFringe(wq)) == multiset(encs)
      decreases |wq|
    {
      var min1, min2;
      wq, min1, min2 := MergeLightest(wq);
    }

    var t := wq[0];
    LastTree(wq, encs);
    return Some(t);
  }

  /** What the invariants of build_tree's loop say of the tree that is left. */
  lemma {:induction false} LastTree(wq: seq<HTree>, encs: seq<Encoding>)
    requires |wq| == 1 && WellWeighted(wq[0])
    requires multiset(ForestFringe(wq)) == multiset(encs)
    ensures multiset(Fringe(wq[0])) == multiset(encs)
    ensures wq[0].d.weight == TotalWeight(encs)
    ensures LeafCount(wq[0]) == |encs| && InternalCount(wq[0]) == |encs| - 1
  {
    var t := wq[0];
    assert ForestFringe(wq) == Fringe(t) by {
      assert wq[1..] == [];
    }
    FringeLength(t);
    InternalIsLeavesMinusOne(t);
    RootIsSumOfLeaves(t);
    TotalWeightPermutation(Fringe(t), encs);
  }

  /** The total weight does not depend on the order of the encodings. */
  lemma {:induction false} TotalWeightPermutation(a: seq<Encoding>, b: seq<Encoding>)
    requires multiset(a) == multiset(b)
    ensures TotalWeight(a) == TotalWeight(b)
    decreases |a|
  {
    if a == [] {
      assert |b| == |multiset(b)| == 0;
    } else {
      assert a[0] in multiset(b);
      var k :| 0 <= k < |b| && b[k] == a[0];
      TotalWeightRemove(b, k);
      var rest := b[..k] + b[k + 1..];
      RemoveSameElement(a, b, k);
      TotalWeightPermutation(a[1..], rest);
    }
  }

  /** Removing the same element from two permutations of each other leaves permutations. */
  lemma {:induction false} RemoveSameElement<T>(a: seq<T>, b: seq<T>, k: nat)
    requires multiset(a) == multiset(b) && a != [] && k < |b| && b[k] == a[0]
    ensures multiset(a[1..]) == multiset(b[..k] + b[k + 1..])
  {
    var x := multiset{a[0]};
    var ra, rb := multiset(a[1..]), multiset(b[..k] + b[k + 1..]);
    assert ra + x == rb + x by {
      MultisetRemove(b, k);
      assert a == [a[0]] + a[1..];
    }
    forall e ensures ra[e] == rb[e] {
      assert (ra + x)[e] == (rb + x)[e];
    }
  }

  lemma {:induction false} TotalWeightRemove(b: seq<Encoding>, k: nat)
    requires k < |b|
    ensures TotalWeight(b) == TotalWeight(b[..k] + b[k + 1..]) + b[k].weight
  {
    assert b == b[..k] + ([b[k]] + b[k + 1..]);
    TotalWeightAppend(b[..k], [b[k]] + b[k + 1..]);
    TotalWeightAppend([b[k]], b[k + 1..]);
    TotalWeightAppend(b[..k], b[k + 1..]);
    assert [b[k]][1..] == [];
  }

  // ---- build_code ----

  /** The symbol strings of a sequence of encodings. */
  function Syms(es: seq<Encoding>): set<string> {
    if es == [] then {} else {es[0].sym} + Syms(es[1..])
  }

  lemma {:induction false} SymsAppend(a: seq<Encoding>, b: seq<Encoding>)
    ensures Syms(a + b) == Syms(a) + Syms(b)
    decreases |a|
  {
    if a == [] {
      assert a + b == b;
    } else {
      assert (a + b)[1..] == a[1..] + b;
      SymsAppend(a[1..], b);
    }
  }

  /** Path `p` of `h` ends at a leaf whose symbol string is `s`. */
  predicate LeafAt(h: HTree, p: string, s: string) {
    IsLeafPath(h, p) && At(h, p).value.d.sym == s
  }

  /** No codeword of the table is a prefix of the codeword of another key. */
  predicate PrefixFree(code: map<string, string>) {
    forall a, b | a in code && b in code && a != b :: !(code[a] <= code[b])
  }

  /** Every entry (node, word) of the BFS queue is the subtree of `h` at path `word`. */
  predicate QueuedAtPaths(h: HTree, q: seq<(HTree, string)>) {
    forall k | 0 <= k < |q| :: At(h, q[k].1) == Some(q[k].0)
  }

  /** The symbols of the leaves of the trees waiting in the BFS queue. */
  function QueueSyms(q: seq<(HTree, string)>): set<string> {
    if q == [] then {} else Syms(Fringe(q[0].0)) + QueueSyms(q[1..])
  }

  function QueueSize(q: seq<(HTree, string)>): nat {
    if q == [] then 0 else Size(q[0].0) + QueueSize(q[1..])
  }

  lemma {:induction false} QueueAppend(a: seq<(HTree, string)>, b: seq<(HTree, string)>)
    ensures QueueSyms(a + b) == QueueSyms(a) + QueueSyms(b)
    ensures QueueSize(a + b) == QueueSize(a) + QueueSize(b)
    decreases |a|
  {
    if a == [] {
      assert a + b == b;
    } else {
      assert (a + b)[1..] == a[1..] + b;
      QueueAppend(a[1..], b);
    }
  }

  /**
   * One BFS step at an internal node: replacing the front entry by its two
   * children (at the path extended by '0' and by '1') keeps every entry at
   * its path, keeps the pending symbols and shrinks the queue.
   */
  lemma {:induction false} ExpandFront(h: HTree, q: seq<(HTree, string)>)
    requires |q| > 0 && q[0].0.Node? && QueuedAtPaths(h, q)
    ensures var q' := q[1..] + [(q[0].0.l, q[0].1 + "0"), (q[0].0.r, q[0].1 + "1")];
      && QueuedAtPaths(h, q')
      && QueueSyms(q') == QueueSyms(q)
      && QueueSize(q') < QueueSize(q)
  {
    ExpandFrontPaths(h, q);
    ExpandFrontMeasures(q[0].0, q[0].1, q);
  }

  lemma {:induction false} ExpandFrontPaths(h: HTree, q: seq<(HTree, string)>)
    requires |q| > 0 && q[0].0.Node? && QueuedAtPaths(h, q)
    ensures QueuedAtPaths(h, q[1..] + [(q[0].0.l, q[0].1 + "0"), (q[0].0.r, q[0].1 + "1")])
  {
    var q' := q[1..] + [(q[0].0.l, q[0].1 + "0"), (q[0].0.r, q[0].1 + "1")];
    AtChildren(h, q[0].1);
    forall k | 0 <= k < |q'| ensures At(h, q'[k].1) == Some(q'[k].0) {
      if k < |q| - 1 {
        assert q'[k] == q[k + 1];
      }
    }
  }

  lemma {:induction false} ExpandFrontMeasures(node: HTree, word: string, q: seq<(HTree, string)>)
    requires |q| > 0 && q[0] == (node, word) && node.Node?
    ensures var q' := q[1..] + [(node.l, word + "0"), (node.r, word + "1")];
      QueueSyms(q') == QueueSyms(q) && QueueSize(q') < QueueSize(q)
  {
    var pending := [(node.l, word + "0"), (node.r, word + "1")];
    QueueAppend(q[1..], pending);
    QueueAppend([pending[0]], [pending[1]]);
    assert [pending[0]] + [pending[1]] == pending;
    assert [pending[0]][1..] == [] && [pending[1]][1..] == [];
    SymsAppend(Fringe(node.l), Fringe(node.r));
  }

  /**
   * A table whose every codeword is the path to a leaf carrying its key is
   * prefix-free: distinct keys sit at distinct leaves, and a leaf's path is
   * a prefix of no other path.
   */
  lemma {:induction false} CodeIsPrefixFree(h: HTree, code: map<string, string>)
    requires forall s | s in code :: LeafAt(h, code[s], s)
    ensures PrefixFree(code)
  {
    forall a, b | a in code && b in code && a != b ensures !(code[a] <= code[b]) {
      if code[a] <= code[b] {
        LeafPathIsNoPrefix(h, code[a], code[b]);
        assert false;
      }
    }
  }

  /**
   * build_code (huffman.cpp:92-109): breadth-first over the tree, appending
   * '0' for a left edge and '1' for a right edge, and recording each leaf's
   * path under its symbol string. The keys are exactly the leaves' symbols,
   * each codeword is the path to a leaf with that symbol, and a one-leaf
   * tree maps its symbol to the empty codeword.
   */
  method BuildCode(h: HTree) returns (code: map<string, string>)
    ensures code.Keys == Syms(Fringe(h))
    ensures forall s | s in code :: LeafAt(h, code[s], s)
    ensures PrefixFree(code)
    ensures h.Leaf? ==> code == map[h.d.sym := ""]
  {
    code := map[];
    var tovisit: seq<(HTree, string)> := [(h, "")];
    assert QueueSyms(tovisit) == Syms(Fringe(h)) by {
      assert tovisit[1..] == [];
    }
    while |tovisit| > 0
      invariant QueuedAtPaths(h, tovisit)
      invariant forall s | s in code :: LeafAt(h, code[s], s)
      invariant code.Keys + QueueSyms(tovisit) == Syms(Fringe(h))
      decreases QueueSize(tovisit)
    {
      var nxt := tovisit[0];
      var node, word := nxt.0, nxt.1;
      if IsLeaf(node) {
        VisitLeaf(h, tovisit, code);
        code := code[node.d.sym := word];
        tovisit := tovisit[1..];
      } else {
        ExpandFront(h, tovisit);
        tovisit := tovisit[1..] + [(node.l, word + "0"), (node.r, word + "1")];
      }
    }
    CodeIsPrefixFree(h, code);
    if h.Leaf? {
      SingleLeafCode(h, code);
    }
  }

  /** One BFS step at a leaf: recording its path under its symbol keeps the invariants. */
  lemma {:induction false} VisitLeaf(h: HTree, q: seq<(HTree, string)>, code: map<string, string>)
    requires |q| > 0 && IsLeaf(q[0].0) && QueuedAtPaths(h, q)
    requires forall s | s in code :: LeafAt(h, code[s], s)
    requires code.Keys + QueueSyms(q) == Syms(Fringe(h))
    ensures QueuedAtPaths(h, q[1..])
    ensures var code' := code[q[0].0.d.sym := q[0].1];
      && (forall s | s in code' :: LeafAt(h, code'[s], s))
      && code'.Keys + QueueSyms(q[1..]) == Syms(Fringe(h))
  {
    assert At(h, q[0].1) == Some(q[0].0);
    assert Syms(Fringe(q[0].0)) == {q[0].0.d.sym} by {
      assert Fringe(q[0].0)[1..] == [];
    }
    forall k | 0 <= k < |q| - 1 ensures At(h, q[1..][k].1) == Some(q[1..][k].0) {
      assert q[1..][k] == q[k + 1];
    }
  }

  /** A one-leaf tree gets the empty codeword for its only symbol. */
  lemma {:induction false} SingleLeafCode(h: HTree, code: map<string, string>)
    requires h.Leaf?
    requires code.Keys == Syms(Fringe(h))
    requires forall s | s in code :: LeafAt(h, code[s], s)
    ensures code == map[h.d.sym := ""]
  {
    assert Syms(Fringe(h)) == {h.d.sym} by {
      assert Fringe(h)[1..] == [];
    }
    assert LeafAt(h, code[h.d.sym], h.d.sym);
  }
}
