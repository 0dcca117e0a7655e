/**
 * The binary tree shared by the drafts: a node has either no children (a
 * leaf) or exactly two (an internal node), and every node carries a datum.
 * Both `htree` structs (huffman.h, huffman.cpp and new_huffman.cpp) are
 * instances: the datum is an `encoding` in the first and a weight with a
 * symbol index in the second. Trees are immutable values, as the const
 * fields of the source make them.
 *
 * A path is a codeword: a string over '0' (left edge) and '1' (right edge).
 */
module Trees {
  import opened Wrappers

  datatype Tree<D> = Leaf(d: D) | Node(l: Tree<D>, r: Tree<D>, d: D)

  /** The subtree reached from `t` by following path `p`, if any. */
  function At<D>(t: Tree<D>, p: string): Option<Tree<D>>
    decreases |p|
  {
    if p == [] then Some(t)
    else if t.Leaf? then None
    else if p[0] == '0' then At(t.l, p[1..])
    else if p[0] == '1' then At(t.r, p[1..])
    else None
  }

  /** `p` leads from the root of `t` to a leaf. */
  predicate IsLeafPath<D>(t: Tree<D>, p: string) {
    At(t, p).Some? && At(t, p).value.Leaf?
  }

  function LeafCount<D>(t: Tree<D>): nat {
    match t
    case Leaf(_) => 1
    case Node(l, r, _) => LeafCount(l) + LeafCount(r)
  }

  function InternalCount<D>(t: Tree<D>): nat {
    match t
    case Leaf(_) => 0
    case Node(l, r, _) => 1 + InternalCount(l) + InternalCount(r)
  }

  function Size<D>(t: Tree<D>): nat {
    match t
    case Leaf(_) => 1
    case Node(l, r, _) => 1 + Size(l) + Size(r)
  }

  /** The data of the leaves, left to right. */
  function Fringe<D>(t: Tree<D>): seq<D> {
    match t
    case Leaf(d) => [d]
    case Node(l, r, _) => Fringe(l) + Fringe(r)
  }

  /** A forest (a work queue of trees): the fringes of its trees, in queue order. */
  function ForestFringe<D>(q: seq<Tree<D>>): seq<D> {
    if q == [] then [] else Fringe(q[0]) + ForestFringe(q[1..])
  }

  /** With zero or two children only, a tree with n leaves has n - 1 internal nodes. */
  lemma {:induction false} InternalIsLeavesMinusOne<D>(t: Tree<D>)
    ensures InternalCount(t) == LeafCount(t) - 1
    ensures Size(t) == 2 * LeafCount(t) - 1
  {
    match t
    case Leaf(_) =>
    case Node(l, r, _) =>
      InternalIsLeavesMinusOne(l);
      InternalIsLeavesMinusOne(r);
  }

  lemma {:induction false} FringeLength<D>(t: Tree<D>)
    ensures |Fringe(t)| == LeafCount(t)
  {
    match t
    case Leaf(_) =>
    case Node(l, r, _) =>
      FringeLength(l);
      FringeLength(r);
  }

  /** Following a path one more edge from an internal node reaches its children. */
  lemma {:induction false} AtChildren<D>(t: Tree<D>, p: string)
    requires At(t, p).Some? && At(t, p).value.Node?
    ensures At(t, p + "0") == Some(At(t, p).value.l)
    ensures At(t, p + "1") == Some(At(t, p).value.r)
    decreases |p|
  {
    if p != [] {
      assert (p + "0")[1..] == p[1..] + "0";
      assert (p + "1")[1..] == p[1..] + "1";
      if p[0] == '0' {
        AtChildren(t.l, p[1..]);
      } else {
        AtChildren(t.r, p[1..]);
      }
    }
  }

  /**
   * Codewords are prefix-free: a path that ends at a leaf is a prefix of
   * no other path of the tree.
   */
  lemma {:induction false} LeafPathIsNoPrefix<D>(t: Tree<D>, p: string, q: string)
    requires IsLeafPath(t, p) && At(t, q).Some? && p <= q
    ensures p == q
    decreases |p|
  {
    if p != [] {
      assert q[0] == p[0];
      assert p[1..] <= q[1..];
      if p[0] == '0' {
        LeafPathIsNoPrefix(t.l, p[1..], q[1..]);
      } else {
        LeafPathIsNoPrefix(t.r, p[1..], q[1..]);
      }
      assert p == [p[0]] + p[1..] && q == [q[0]] + q[1..];
    }
  }

  /**
   * Each edge of a path leaves at least one leaf behind, so the depth of a
   * subtree plus its leaf count is at most the leaf count of the tree; in
   * particular a leaf lies at depth at most LeafCount(t) - 1.
   */
  lemma {:induction false} DepthBound<D>(t: Tree<D>, p: string)
    requires At(t, p).Some?
    ensures |p| + LeafCount(At(t, p).value) <= LeafCount(t)
    decreases |p|
  {
    if p != [] {
      if p[0] == '0' {
        DepthBound(t.l, p[1..]);
        assert LeafCount(t.r) >= 1 by { LeafCountPositive(t.r); }
      } else {
        DepthBound(t.r, p[1..]);
        assert LeafCount(t.l) >= 1 by { LeafCountPositive(t.l); }
      }
    }
  }

  lemma {:induction false} LeafCountPositive<D>(t: Tree<D>)
    ensures LeafCount(t) >= 1
  {
    if t.Node? {
      LeafCountPositive(t.l);
    }
  }

  lemma {:induction false} ForestFringeAppend<D>(a: seq<Tree<D>>, b: seq<Tree<D>>)
    ensures ForestFringe(a + b) == ForestFringe(a) + ForestFringe(b)
    decreases |a|
  {
    if a == [] {
      assert a + b == b;
    } else {
      assert (a + b)[1..] == a[1..] + b;
      ForestFringeAppend(a[1..], b);
    }
  }

  /** Taking tree k out of a forest takes exactly its leaves out of the forest's fringe. */
  lemma {:induction false} ForestFringeRemove<D>(q: seq<Tree<D>>, k: nat)
    requires k < |q|
    ensures multiset(ForestFringe(q))
         == multiset(ForestFringe(q[..k] + q[k + 1..])) + multiset(Fringe(q[k]))
  {
    assert q == q[..k] + ([q[k]] + q[k + 1..]);
    ForestFringeAppend(q[..k], [q[k]] + q[k + 1..]);
    ForestFringeAppend([q[k]], q[k + 1..]);
    ForestFringeAppend(q[..k], q[k + 1..]);
    assert ForestFringe([q[k]]) == Fringe(q[k]) by {
      assert [q[k]][1..] == [];
    }
  }

  /** Pushing a tree onto the queue adds exactly its leaves to the forest's fringe. */
  lemma {:induction false} PushFringe<D>(q: seq<Tree<D>>, t: Tree<D>)
    ensures multiset(ForestFringe(q + [t])) == multiset(ForestFringe(q)) + multiset(Fringe(t))
  {
    ForestFringeAppend(q, [t]);
    assert [t][1..] == [];
  }

  /** Two pops in a row take both popped trees out of the queue. */
  lemma {:induction false} TwoPops<T>(wq: seq<T>, rest1: seq<T>, rest2: seq<T>, min1: T, min2: T)
    requires multiset(wq) == multiset(rest1) + multiset{min1}
    requires multiset(rest1) == multiset(rest2) + multiset{min2}
    ensures multiset(wq) == multiset(rest2) + multiset{min1, min2}
  {
    assert multiset{min1, min2} == multiset{min1} + multiset{min2};
  }

  lemma {:induction false} MultisetRemove<T>(b: seq<T>, k: nat)
    requires k < |b|
    ensures multiset(b) == multiset(b[..k] + b[k + 1..]) + multiset{b[k]}
  {
    assert b == b[..k] + [b[k]] + b[k + 1..];
  }

  /** The leaf at the end of a path is one of the tree's leaves. */
  lemma {:induction false} LeafInFringe<D>(t: Tree<D>, p: string)
    requires IsLeafPath(t, p)
    ensures At(t, p).value.d in Fringe(t)
    decreases |p|
  {
    if p != [] {
      if p[0] == '0' {
        LeafInFringe(t.l, p[1..]);
      } else {
        LeafInFringe(t.r, p[1..]);
      }
    }
  }
}
