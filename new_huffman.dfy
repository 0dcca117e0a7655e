/**
 * The second draft, new_huffman.cpp: trees carry a weight and the index of
 * their symbol in the `words` vector; huffman_encode merges a priority queue
 * of such trees down to one and then walks the tree depth-first with an
 * explicit stack, overwriting one shared codeword buffer as it goes, and
 * prints one line (symbol, codeword) per leaf.
 *
 * Printed lines are modelled as the pairs (word, codeword). The input is the
 * sequence of (word, weight) pairs the reading loop collects.
 */
module NewHuffman {
  import opened Wrappers
  import opened Trees

  /** The weight and the symbol index of a node (new_huffman.cpp:13-21). */
  datatype WI = WI(w: nat, i: nat)

  type WTree = Tree<WI>

  /** The index an internal node stores: -1 converted to a 32-bit unsigned. */
  const NoIndex: nat := 0xFFFF_FFFF

  /** htree(w, i): a leaf; it has no children and records its weight and index. */
  function MakeWLeaf(w: nat, i: nat): (t: WTree)
    ensures t.Leaf? && t.d == WI(w, i)
    ensures Fringe(t) == [WI(w, i)] && LeafCount(t) == 1
  {
    Leaf(WI(w, i))
  }

  /** htree(l, r): an internal node weighing l->w + r->w, with index -1. */
  function MakeWNode(l: WTree, r: WTree): (t: WTree)
    ensures t.Node? && t.l == l && t.r == r
    ensures t.d.w == l.d.w + r.d.w && t.d.i == NoIndex
    ensures Fringe(t) == Fringe(l) + Fringe(r)
    ensures WellFormed(l) && WellFormed(r) ==> WellFormed(t)
  {
    Node(l, r, WI(l.d.w + r.d.w, NoIndex))
  }

  /** Every internal node is as MakeWNode builds it. */
  predicate WellFormed(t: WTree) {
    match t
    case Leaf(_) => true
    case Node(l, r, d) => d.w == l.d.w + r.d.w && d.i == NoIndex && WellFormed(l) && WellFormed(r)
  }

  /** At every internal node the left child weighs no more than the right one. */
  predicate LeftLighter(t: WTree) {
    match t
    case Leaf(_) => true
    case Node(l, r, _) => l.d.w <= r.d.w && LeftLighter(l) && LeftLighter(r)
  }

  /** cmp_ptr: "a comes after b" in the heap order, i.e. a is heavier. */
  predicate CmpPtr(a: WTree, b: WTree) {
    a.d.w > b.d.w
  }

  /**
   * cmp_ptr is a strict weak order whose only criterion is the weight:
   * trees of equal weight are unordered, there is no tie-break.
   */
  lemma {:induction false} CmpPtrIsStrictWeakOrder(a: WTree, b: WTree, c: WTree)
    ensures !CmpPtr(a, a)
    ensures CmpPtr(a, b) && CmpPtr(b, c) ==> CmpPtr(a, c)
    ensures !CmpPtr(a, b) && !CmpPtr(b, a) <==> a.d.w == b.d.w
  {
  }

  /** The leaves of the initial forest: input k becomes a leaf of index k. */
  function Leaves(input: seq<(string, nat)>): (ls: seq<WI>)
    ensures |ls| == |input|
    ensures forall k | 0 <= k < |input| :: ls[k] == WI(input[k].1, k)
  {
    seq(|input|, k requires 0 <= k < |input| => WI(input[k].1, k))
  }

  /**
   * The reading loop of huffman_encode (new_huffman.cpp:37-46): words[k] is
   * the k-th input symbol and the queue gets a leaf of index k for it.
   */
  method InitialForest(input: seq<(string, nat)>) returns (words: seq<string>, wq: seq<WTree>)
    ensures |words| == |wq| == |input|
    ensures forall k | 0 <= k < |input| :: words[k] == input[k].0 && wq[k] == MakeWLeaf(input[k].1, k)
    ensures ForestFringe(wq) == Leaves(input)
  {
    words, wq := [], [];
    while |words| < |input|
      invariant |words| == |wq| <= |input|
      invariant forall k | 0 <= k < |words| :: words[k] == input[k].0 && wq[k] == MakeWLeaf(input[k].1, k)
      invariant ForestFringe(wq) == Leaves(input)[..|wq|]
    {
      var s, d := input[|words|].0, input[|words|].1;
      words := words + [s];
      var leaf := MakeWLeaf(d, |words| - 1);
      ForestFringeAppend(wq, [leaf]);
      assert ForestFringe([leaf]) == [leaf.d] by {
        assert [leaf][1..] == [];
      }
      assert Leaves(input)[..|wq| + 1] == Leaves(input)[..|wq|] + [leaf.d];
      wq := wq + [leaf];
    }
    assert Leaves(input)[..|wq|] == Leaves(input);
  }

  /** wq.top(): with cmp_ptr the top is a lightest tree. */
  method TopIndex(q: seq<WTree>) returns (k: nat)
    requires |q| > 0
    ensures k < |q|
    ensures forall j | 0 <= j < |q| :: !CmpPtr(q[k], q[j])
  {
    k := 0;
    var i := 1;
    while i < |q|
      invariant 1 <= i <= |q| && k < i
      invariant forall j | 0 <= j < i :: !CmpPtr(q[k], q[j])
    {
      if CmpPtr(q[k], q[i]) {
        k := i;
      }
      i := i + 1;
    }
  }

  /** wq.top() then wq.pop(): a lightest tree leaves the queue with exactly its leaves. */
  method PopLightest(q: seq<WTree>) returns (top: WTree, rest: seq<WTree>)
    requires |q| > 0
    ensures |rest| == |q| - 1 && top in q
    ensures forall t | t in rest :: t in q && top.d.w <= t.d.w
    ensures multiset(q) == multiset(rest) + multiset{top}
    ensures multiset(ForestFringe(q)) == multiset(ForestFringe(rest)) + multiset(Fringe(top))
  {
    var k := TopIndex(q);
    top := q[k];
    rest := q[..k] + q[k + 1..];
    ForestFringeRemove(q, k);
    MultisetRemove(q, k);
    forall t | t in rest ensures t in q && top.d.w <= t.d.w {
      var j :| 0 <= j < |rest| && rest[j] == t;
      assert q[if j < k then j else j + 1] == t;
    }
  }

  /** Every tree of the queue was built by the constructors, lighter child on the left. */
  predicate ForestOk(q: seq<WTree>) {
    forall t | t in q :: WellFormed(t) && LeftLighter(t)
  }

  /**
   * One round of the merge loop (new_huffman.cpp:49-51): the two lightest
   * trees are replaced by their merge, the first popped on the left.
   */
  method MergeLightest(wq: seq<WTree>) returns (next: seq<WTree>, min1: WTree, min2: WTree)
    requires |wq| >= 2 && ForestOk(wq)
    ensures |next| == |wq| - 1 && ForestOk(next)
    ensures next[|next| - 1] == MakeWNode(min1, min2)
    ensures multiset(wq) == multiset(next[..|next| - 1]) + multiset{min1, min2}
    ensures min1.d.w <= min2.d.w
    ensures forall t | t in next[..|next| - 1] :: min2.d.w <= t.d.w
    ensures multiset(ForestFringe(next)) == multiset(ForestFringe(wq))
  {
    var rest1, rest2;
    min1, rest1 := PopLightest(wq);
    min2, rest2 := PopLightest(rest1);
    next := rest2 + [MakeWNode(min1, min2)];
    MergedForestOk(wq, rest1, rest2, min1, min2);
    MergeKeepsLeaves(wq, rest1, rest2, min1, min2);
    assert next[..|next| - 1] == rest2;
    TwoPops(wq, rest1, rest2, min1, min2);
  }

  lemma {:induction false} MergeKeepsLeaves(wq: seq<WTree>, rest1: seq<WTree>, rest2: seq<WTree>, min1: WTree, min2: WTree)
    requires multiset(ForestFringe(wq)) == multiset(ForestFringe(rest1)) + multiset(Fringe(min1))
    requires multiset(ForestFringe(rest1)) == multiset(ForestFringe(rest2)) + multiset(Fringe(min2))
    ensures multiset(ForestFringe(rest2 + [MakeWNode(min1, min2)])) == multiset(ForestFringe(wq))
  {
    PushFringe(rest2, MakeWNode(min1, min2));
  }

  lemma {:induction false} MergedForestOk(wq: seq<WTree>, rest1: seq<WTree>, rest2: seq<WTree>, min1: WTree, min2: WTree)
    requires ForestOk(wq) && min1 in wq && min2 in rest1
    requires forall t | t in rest1 :: t in wq && min1.d.w <= t.d.w
    requires forall t | t in rest2 :: t in rest1
    ensures ForestOk(rest2 + [MakeWNode(min1, min2)])
  {
  }

  /**
   * The first half of huffman_encode (new_huffman.cpp:32-52): read the
   * input into `words` and the queue, then merge until one tree is left.
   * The tree has one leaf per input, and leaf k carries input k's weight.
   */
  method MergeForest(input: seq<(string, nat)>) returns (words: seq<string>, root: WTree)
    requires |input| > 0
    ensures |words| == |input| && forall k | 0 <= k < |input| :: words[k] == input[k].0
    ensures WellFormed(root) && LeftLighter(root)
    ensures multiset(Fringe(root)) == multiset(Leaves(input))
    ensures LeafCount(root) == |input|
  {
    var wq;
    words, wq := InitialForest(input);
    while |wq| > 1
      invariant |wq| >= 1 && ForestOk(wq)
      invariant multiset(ForestFringe(wq)) == multiset(Leaves(input))
      decreases |wq|
    {
      var min1, min2;
      wq, min1, min2 := MergeLightest(wq);
    }
    root := wq[0];
    assert ForestFringe(wq) == Fringe(root) by {
      assert wq[1..] == [];
    }
    FringeLength(root);
  }

  /** Every leaf of a tree built from `input` carries an index of `words`. */
  lemma {:induction false} IndicesInRange(root: WTree, input: seq<(string, nat)>)
    requires multiset(Fringe(root)) == multiset(Leaves(input))
    ensures forall d | d in Fringe(root) :: d.i < |input|
  {
    forall d | d in Fringe(root) ensures d.i < |input| {
      assert d in multiset(Fringe(root));
      assert d in Leaves(input);
    }
  }

  // ---- the depth-first walk ----

  /** A printed line of the walk: the symbol index of a leaf and its codeword. */
  datatype Line = Line(index: nat, code: string)

  /** An element of the `tovisit` stack: a subtree, its depth, and whether it is a left child. */
  datatype StackEntry = StackEntry(node: WTree, len: nat, left: bool)

  /**
   * The (symbol index, codeword) lines printed for subtree `t` reached by
   * path `p`, in the order the stack pops them: the right child is pushed
   * last, so its leaves come first.
   */
  function Emitted(t: WTree, p: string): seq<Line> {
    match t
    case Leaf(d) => [Line(d.i, p)]
    case Node(l, r, _) => Emitted(r, p + "1") + Emitted(l, p + "0")
  }

  /**
   * Line `e`, printed k-th for subtree `t` at path `p`, names the k-th leaf
   * of `t` from the right, and its codeword is `p` followed by the path
   * from `t` down to that leaf.
   */
  predicate LeafLine(t: WTree, p: string, e: Line, k: nat) {
    && k < |Fringe(t)|
    && |p| <= |e.code| && e.code[..|p|] == p
    && At(t, e.code[|p|..]) == Some(Leaf(Fringe(t)[|Fringe(t)| - 1 - k]))
    && e.index == Fringe(t)[|Fringe(t)| - 1 - k].i
  }

  /**
   * What the walk prints for a subtree: line k names the k-th leaf from the
   * right and the codeword is `p` followed by the path from `t` to it, so
   * each leaf appears exactly once, with its depth as codeword length.
   */
  lemma {:induction false} EmittedLeaves(t: WTree, p: string)
    ensures |Emitted(t, p)| == |Fringe(t)|
    ensures forall k | 0 <= k < |Emitted(t, p)| :: LeafLine(t, p, Emitted(t, p)[k], k)
  {
    match t
    case Leaf(d) =>
    case Node(l, r, _) =>
      var er, el := Emitted(r, p + "1"), Emitted(l, p + "0");
      EmittedLeaves(r, p + "1");
      EmittedLeaves(l, p + "0");
      forall k | 0 <= k < |er| + |el| ensures LeafLine(t, p, (er + el)[k], k) {
        if k < |er| {
          assert (er + el)[k] == er[k];
          LineOfRight(t, p, er[k], k);
        } else {
          assert (er + el)[k] == el[k - |er|];
          LineOfLeft(t, p, el[k - |er|], k - |er|);
        }
      }
  }

  /** A line of the right subtree is a line of the tree, at the same position. */
  lemma {:induction false} LineOfRight(t: WTree, p: string, e: Line, k: nat)
    requires t.Node? && LeafLine(t.r, p + "1", e, k)
    ensures LeafLine(t, p, e, k)
  {
    StepDown(t, p, "1", e.code);
    assert Fringe(t) == Fringe(t.l) + Fringe(t.r);
    assert Fringe(t)[|Fringe(t)| - 1 - k] == Fringe(t.r)[|Fringe(t.r)| - 1 - k];
  }

  /** A line of the left subtree comes after all the lines of the right one. */
  lemma {:induction false} LineOfLeft(t: WTree, p: string, e: Line, k: nat)
    requires t.Node? && LeafLine(t.l, p + "0", e, k)
    ensures LeafLine(t, p, e, k + |Fringe(t.r)|)
  {
    StepDown(t, p, "0", e.code);
    assert Fringe(t) == Fringe(t.l) + Fringe(t.r);
    assert Fringe(t)[|Fringe(t)| - 1 - (k + |Fringe(t.r)|)] == Fringe(t.l)[|Fringe(t.l)| - 1 - k];
  }

  /** A codeword that extends `p + c` reaches, below `p`, the child that `c` names. */
  lemma {:induction false} StepDown(t: WTree, p: string, c: string, w: string)
    requires t.Node? && (c == "0" || c == "1")
    requires |p + c| <= |w| && w[..|p + c|] == p + c
    ensures |p| <= |w| && w[..|p|] == p
    ensures At(t, w[|p|..]) == At(if c == "0" then t.l else t.r, w[|p + c|..])
  {
    assert w[..|p|] == (p + c)[..|p|];
    assert w[|p|..][0] == c[0];
    assert w[|p|..][1..] == w[|p + c|..];
  }

  /** No printed codeword is a prefix of another printed codeword. */
  lemma {:induction false} EmittedPrefixFree(t: WTree, p: string)
    ensures forall j, k | 0 <= j < |Emitted(t, p)| && 0 <= k < |Emitted(t, p)| && j != k ::
      !(Emitted(t, p)[j].code <= Emitted(t, p)[k].code)
  {
    match t
    case Leaf(d) =>
    case Node(l, r, _) =>
      var er, el := Emitted(r, p + "1"), Emitted(l, p + "0");
      EmittedPrefixFree(r, p + "1");
      EmittedPrefixFree(l, p + "0");
      EmittedLeaves(r, p + "1");
      EmittedLeaves(l, p + "0");
      var e := er + el;
      forall j, k | 0 <= j < |e| && 0 <= k < |e| && j != k ensures !(e[j].code <= e[k].code) {
        if j < |er| && k >= |er| {
          SplitAt(p, "1", "0", e[j].code, e[k].code);
        } else if j >= |er| && k < |er| {
          SplitAt(p, "0", "1", e[j].code, e[k].code);
        } else if j < |er| {
          assert e[j] == er[j] && e[k] == er[k];
        } else {
          assert e[j] == el[j - |er|] && e[k] == el[k - |er|];
        }
      }
  }

  /** Codewords that part ways after `p` are not prefixes of each other. */
  lemma {:induction false} SplitAt(p: string, a: string, b: string, x: string, y: string)
    requires |a| == 1 && |b| == 1 && a != b
    requires |p + a| <= |x| && x[..|p + a|] == p + a
    requires |p + b| <= |y| && y[..|p + b|] == p + b
    ensures !(x <= y)
  {
    assert x[|p|] == (p + a)[|p|] == a[0];
    assert y[|p|] == (p + b)[|p|] == b[0];
  }

  /**
   * The pending lines of the stack: each entry (tree, len, left) with its
   * ghost path prints Emitted(tree, path); the top (the last entry) first.
   */
  ghost function Pending(st: seq<StackEntry>, ps: seq<string>): seq<Line>
    requires |st| == |ps|
  {
    if st == [] then [] else Emitted(st[|st| - 1].node, ps[|st| - 1]) + Pending(st[..|st| - 1], ps[..|st| - 1])
  }

  /** The sum of the sizes of the trees on the stack. */
  function StackSize(st: seq<StackEntry>): nat {
    if st == [] then 0 else Size(st[|st| - 1].node) + StackSize(st[..|st| - 1])
  }

  /**
   * The stack invariant of the walk: entry k sits at path ps[k] of `root`
   * with len == |ps[k]|, its `left` flag is its path's last edge, the
   * lengths grow towards the top, and the shared buffer `cw` holds the
   * path of every entry except its last edge.
   */
  ghost predicate StackOk(root: WTree, st: seq<StackEntry>, ps: seq<string>, cw: seq<char>) {
    && |st| == |ps|
    && (forall k | 0 <= k < |st| :: EntryOk(root, st[k], ps[k], cw))
    && (forall j, k | 0 <= j < k < |st| :: st[j].len <= st[k].len)
  }

  /** The character the walk writes for an edge: '0' to a left child, '1' to a right one. */
  function Edge(left: bool): (c: char)
    ensures left <==> c == '0'
    ensures !left <==> c == '1'
  {
    if left then '0' else '1'
  }

  /**
   * Entry `e` at path `p`: its depth is |p|, it is the subtree of `root`
   * at `p`, its flag names the last edge of `p`, and the buffer holds `p`
   * but for that last edge.
   */
  ghost predicate EntryOk(root: WTree, e: StackEntry, p: string, cw: seq<char>) {
    && |p| == e.len
    && At(root, p) == Some(e.node)
    && (e.len > 0 ==> (e.len - 1 <= |cw| && p[e.len - 1] == Edge(e.left) && cw[..e.len - 1] == p[..e.len - 1]))
  }

  /**
   * Popping the top entry keeps the invariant for the rest; the popped
   * entry lies at its path, its buffer prefix is its path but for the last
   * edge, and no entry left below it is deeper.
   */
  lemma {:induction false} PopKeeps(root: WTree, rest: seq<StackEntry>, top: StackEntry,
                                    ps: seq<string>, p: string, cw: seq<char>)
    requires StackOk(root, rest + [top], ps + [p], cw)
    ensures StackOk(root, rest, ps, cw)
    ensures Pending(rest + [top], ps + [p]) == Emitted(top.node, p) + Pending(rest, ps)
    ensures StackSize(rest + [top]) == Size(top.node) + StackSize(rest)
    ensures EntryOk(root, top, p, cw)
    ensures forall k | 0 <= k < |rest| :: rest[k].len <= top.len
  {
    var st := rest + [top];
    assert st[..|st| - 1] == rest && (ps + [p])[..|st| - 1] == ps;
    forall k | 0 <= k < |rest| ensures rest[k].len <= top.len {
      assert st[k] == rest[k] && st[|rest|] == top;
    }
  }

  /**
   * Writing the popped entry's last edge at cw[len - 1] completes its path
   * in the buffer and leaves the paths of the entries below intact, since
   * they are no longer.
   */
  lemma {:induction false} WriteKeeps(root: WTree, st: seq<StackEntry>, ps: seq<string>,
                                      cw: seq<char>, len: nat, left: bool, p: string)
    requires StackOk(root, st, ps, cw) && len == |p| && 0 < len <= |cw|
    requires forall k | 0 <= k < |st| :: st[k].len <= len
    requires p[len - 1] == Edge(left) && cw[..len - 1] == p[..len - 1]
    ensures StackOk(root, st, ps, cw[len - 1 := Edge(left)])
    ensures cw[len - 1 := Edge(left)][..len] == p
  {
    var cw' := cw[len - 1 := Edge(left)];
    forall k | 0 <= k < |st| && st[k].len > 0 ensures cw'[..st[k].len - 1] == ps[k][..st[k].len - 1] {
      assert cw'[..st[k].len - 1] == cw[..st[k].len - 1];
    }
    assert cw'[..len] == cw'[..len - 1] + [cw'[len - 1]];
    assert p == p[..len - 1] + [p[len - 1]];
  }

  /** Pushing the two children of the popped internal node keeps the invariant. */
  lemma {:induction false} PushKeeps(root: WTree, st: seq<StackEntry>, ps: seq<string>,
                                     cw: seq<char>, node: WTree, p: string)
    requires StackOk(root, st, ps, cw) && node.Node? && At(root, p) == Some(node)
    requires |p| < |cw| && cw[..|p|] == p
    requires forall k | 0 <= k < |st| :: st[k].len <= |p|
    ensures var st', ps' := st + [StackEntry(node.l, |p| + 1, true), StackEntry(node.r, |p| + 1, false)], ps + [p + "0", p + "1"];
      && StackOk(root, st', ps', cw)
      && Pending(st', ps') == Emitted(node, p) + Pending(st, ps)
      && StackSize(st') == StackSize(st) + Size(node) - 1
  {
    AtChildren(root, p);
    var st', ps' := st + [StackEntry(node.l, |p| + 1, true), StackEntry(node.r, |p| + 1, false)], ps + [p + "0", p + "1"];
    assert st'[..|st'| - 1] == st + [StackEntry(node.l, |p| + 1, true)];
    assert st'[..|st'| - 1][..|st'| - 2] == st;
    assert ps'[..|ps'| - 1] == ps + [p + "0"];
    assert ps'[..|ps'| - 1][..|ps'| - 2] == ps;
    assert (p + "0")[..|p|] == p && (p + "1")[..|p|] == p;
    assert EntryOk(root, st'[|st|], ps'[|st|], cw);
    assert EntryOk(root, st'[|st| + 1], ps'[|st| + 1], cw);
  }

  /** `out` prints the lines `emitted`: each symbol index replaced by its word. */
  ghost predicate PrintedAs(words: seq<string>, emitted: seq<Line>, out: seq<(string, string)>) {
    && |out| == |emitted|
    && forall k | 0 <= k < |out| :: emitted[k].index < |words| && out[k] == (words[emitted[k].index], emitted[k].code)
  }

  lemma {:induction false} PrintOne(words: seq<string>, emitted: seq<Line>, out: seq<(string, string)>,
                                    i: nat, p: string)
    requires PrintedAs(words, emitted, out) && i < |words|
    ensures PrintedAs(words, emitted + [Line(i, p)], out + [(words[i], p)])
  {
  }

  /**
   * `if (len > 0) codeword[len-1] = left ? '0' : '1';` (new_huffman.cpp:69):
   * afterwards the buffer spells the popped entry's path, and the entries
   * below it keep theirs.
   */
  method WriteEdge(root: WTree, codeword: array<char>, st: seq<StackEntry>, ghost ps: seq<string>,
                   e: StackEntry, ghost p: string)
    requires StackOk(root, st, ps, codeword[..]) && EntryOk(root, e, p, codeword[..]) && e.len <= codeword.Length
    requires forall k | 0 <= k < |st| :: st[k].len <= e.len
    modifies codeword
    ensures StackOk(root, st, ps, codeword[..]) && codeword[..e.len] == p
    ensures codeword[..] == if e.len > 0 then old(codeword[..])[e.len - 1 := Edge(e.left)] else old(codeword[..])
  {
    if e.len > 0 {
      WriteKeeps(root, st, ps, codeword[..], e.len, e.left, p);
      ghost var cw := codeword[..];
      codeword[e.len - 1] := Edge(e.left);
      assert codeword[..] == cw[e.len - 1 := Edge(e.left)];
    }
  }

  /**
   * A popped leaf prints its word and the codeword buffer's first |p|
   * characters, which spell its path: its line moves from the pending lines
   * to the printed ones, and the trees left on the stack are smaller.
   */
  lemma {:induction false} LeafStep(words: seq<string>, root: WTree, rest: seq<StackEntry>, ps: seq<string>,
                                    cw: seq<char>, node: WTree, p: string,
                                    emitted: seq<Line>, out: seq<(string, string)>, pending: seq<Line>)
    requires forall d | d in Fringe(root) :: d.i < |words|
    requires node.Leaf? && At(root, p) == Some(node) && |p| <= |cw| && cw[..|p|] == p
    requires PrintedAs(words, emitted, out) && |rest| == |ps|
    requires pending == Emitted(node, p) + Pending(rest, ps)
    ensures node.d.i < |words|
    ensures (emitted + [Line(node.d.i, p)]) + Pending(rest, ps) == emitted + pending
    ensures PrintedAs(words, emitted + [Line(node.d.i, p)], out + [(words[node.d.i], cw[..|p|])])
  {
    LeafInFringe(root, p);
    PrintOne(words, emitted, out, node.d.i, p);
    assert Emitted(node, p) == [Line(node.d.i, p)];
  }

  /**
   * The depth-first walk of huffman_encode (new_huffman.cpp:55-82). The
   * stack holds (node, len, left); popping an entry writes its last edge
   * into codeword[len - 1] (the entries below keep their prefixes, as they
   * are no deeper), a leaf prints its word with codeword[0..len), and an
   * internal node pushes its left child and then its right child. The
   * buffer is sized words.size() and every write is in bounds. The lines
   * are what Emitted specifies from the root's empty path.
   */
  method EmitCodewords(words: seq<string>, root: WTree) returns (out: seq<(string, string)>)
    requires LeafCount(root) <= |words|
    requires forall d | d in Fringe(root) :: d.i < |words|
    ensures |out| == |Emitted(root, "")|
    ensures forall k | 0 <= k < |out| ::
      Emitted(root, "")[k].index < |words| && out[k] == (words[Emitted(root, "")[k].index], Emitted(root, "")[k].code)
  {
    var codeword := new char[|words|];
    var tovisit: seq<StackEntry> := [StackEntry(root, 0, false)];
    ghost var paths: seq<string> := [""];
    ghost var emitted: seq<Line> := [];
    out := [];
    assert Pending(tovisit, paths) == Emitted(root, "") by {
      assert tovisit[..0] == [] && paths[..0] == [];
    }
    assert StackSize(tovisit) == Size(root) by {
      assert tovisit[..0] == [];
    }
    while |tovisit| > 0
      invariant StackOk(root, tovisit, paths, codeword[..])
      invariant emitted + Pending(tovisit, paths) == Emitted(root, "")
      invariant PrintedAs(words, emitted, out)
      decreases StackSize(tovisit)
    {
      tovisit, paths, emitted, out := Visit(words, root, codeword, tovisit, paths, emitted, out);
    }
  }

  /**
   * One iteration of the walk (new_huffman.cpp:65-81): pop (node, len,
   * left), write the last edge at codeword[len - 1], then print a leaf or
   * push the two children. The walk's invariant is kept and the trees left
   * on the stack shrink.
   */
  method Visit(words: seq<string>, root: WTree, codeword: array<char>,
               tovisit: seq<StackEntry>, ghost paths: seq<string>,
               ghost emitted: seq<Line>, out: seq<(string, string)>)
    returns (tovisit': seq<StackEntry>, ghost paths': seq<string>,
             ghost emitted': seq<Line>, out': seq<(string, string)>)
    requires LeafCount(root) <= codeword.Length == |words|
    requires forall d | d in Fringe(root) :: d.i < |words|
    requires |tovisit| > 0 && StackOk(root, tovisit, paths, codeword[..])
    requires PrintedAs(words, emitted, out)
    modifies codeword
    ensures StackOk(root, tovisit', paths', codeword[..])
    ensures emitted' + Pending(tovisit', paths') == emitted + Pending(tovisit, paths)
    ensures PrintedAs(words, emitted', out')
    ensures StackSize(tovisit') < StackSize(tovisit)
  {
    var nxt := tovisit[|tovisit| - 1];
    ghost var p := paths[|paths| - 1];
    assert tovisit == tovisit[..|tovisit| - 1] + [nxt] && paths == paths[..|paths| - 1] + [p];
    tovisit' := tovisit[..|tovisit| - 1];
    paths' := paths[..|paths| - 1];
    PopKeeps(root, tovisit', nxt, paths', p, codeword[..]);
    DepthBound(root, p);
    LeafCountPositive(nxt.node);
    WriteEdge(root, codeword, tovisit', paths', nxt, p);
    tovisit', paths', emitted', out' :=
      PrintOrPush(words, root, codeword[..], tovisit', paths', nxt, p, emitted, out,
                  Pending(tovisit, paths), StackSize(tovisit));
  }

  /**
   * The rest of one iteration (new_huffman.cpp:71-80), once codeword
   * spells the popped entry's path p: a leaf prints its word and
   * codeword[0..len); an internal node pushes its left child and then its
   * right child, one deeper. The stack invariant and the lines printed or
   * pending are kept, and the trees on the stack shrink.
   */
  method PrintOrPush(words: seq<string>, root: WTree, cw: seq<char>,
                     rest: seq<StackEntry>, ghost ps: seq<string>, nxt: StackEntry, ghost p: string,
                     ghost emitted: seq<Line>, out: seq<(string, string)>, ghost pending: seq<Line>, ghost size: nat)
    returns (tovisit': seq<StackEntry>, ghost paths': seq<string>,
             ghost emitted': seq<Line>, out': seq<(string, string)>)
    requires LeafCount(root) <= |cw|
    requires forall d | d in Fringe(root) :: d.i < |words|
    requires StackOk(root, rest, ps, cw) && At(root, p) == Some(nxt.node)
    requires |p| == nxt.len <= |cw| && cw[..|p|] == p
    requires forall k | 0 <= k < |rest| :: rest[k].len <= nxt.len
    requires PrintedAs(words, emitted, out)
    requires pending == Emitted(nxt.node, p) + Pending(rest, ps) && size == Size(nxt.node) + StackSize(rest)
    ensures StackOk(root, tovisit', paths', cw)
    ensures emitted' + Pending(tovisit', paths') == emitted + pending
    ensures PrintedAs(words, emitted', out')
    ensures StackSize(tovisit') < size
  {
    var node, len := nxt.node, nxt.len;
    DepthBound(root, p);
    LeafCountPositive(node);
    if node.Leaf? {
      LeafStep(words, root, rest, ps, cw, node, p, emitted, out, pending);
      tovisit', paths' := rest, ps;
      out' := out + [(words[node.d.i], cw[..len])];
      emitted' := emitted + [Line(node.d.i, p)];
    } else {
      PushKeeps(root, rest, ps, cw, node, p);
      var depth: nat := len + 1;
      tovisit' := rest + [StackEntry(node.l, depth, true), StackEntry(node.r, depth, false)];
      paths' := ps + [p + "0", p + "1"];
      out', emitted' := out, emitted;
    }
  }

  /**
   * huffman_encode (new_huffman.cpp:31-83). For an empty input the source
   * calls top() on an empty queue; the model reports no result. Otherwise
   * one line is printed per input word; line j names the word of the leaf
   * at codeword j of the merged tree, the leaves are listed right to left,
   * each exactly once, the codewords are prefix-free and shorter than the
   * number of words.
   */
  method HuffmanEncode(input: seq<(string, nat)>) returns (res: Option<seq<(string, string)>>, ghost root: WTree)
    ensures res.None? <==> input == []
    ensures res.Some? ==>
      && WellFormed(root) && LeftLighter(root)
      && multiset(Fringe(root)) == multiset(Leaves(input))
      && |res.value| == |input| == |Fringe(root)|
    ensures res.Some? ==> forall j | 0 <= j < |res.value| ::
      var line, leaf := res.value[j], Fringe(root)[|input| - 1 - j];
      && At(root, line.1) == Some(Leaf(leaf))
      && leaf.i < |input| && line.0 == input[leaf.i].0
      && |line.1| < |input|
    ensures res.Some? ==> forall j, k | 0 <= j < |res.value| && 0 <= k < |res.value| && j != k ::
      !(res.value[j].1 <= res.value[k].1)
  {
    if |input| == 0 {
      return None, Leaf(WI(0, 0));
    }
    var words, tree := MergeForest(input);
    root := tree;
    IndicesInRange(root, input);
    FringeLength(root);
    var out := EmitCodewords(words, tree);
    EmittedLeaves(root, "");
    EmittedPrefixFree(root, "");
    forall j | 0 <= j < |out| ensures |out[j].1| < |input| {
      DepthBound(root, out[j].1);
      assert out[j].1[0..] == out[j].1;
    }
    return Some(out), root;
  }
}
