/**
 * The data structures of huffman.h (duplicated verbatim at huffman.cpp:17-41):
 * an `encoding` is a (symbol string, weight) pair with an order and a sum,
 * and an `htree` is a binary tree whose every node carries an encoding.
 * Weights are natural numbers added exactly; the source's weights are
 * doubles whose rounded sums can create or break ties (see README.md).
 */
module Huffman {
  import opened Trees

  datatype Encoding = Encoding(sym: string, weight: nat)

  type HTree = Tree<Encoding>

  /** std::string's operator<: lexicographic order on characters. */
  predicate StrLess(a: string, b: string)
    decreases |a|
  {
    if a == [] then b != []
    else if b == [] then false
    else if a[0] != b[0] then a[0] < b[0]
    else StrLess(a[1..], b[1..])
  }

  /**
   * encoding::operator< (huffman.h:31-34). It is inverted on weight, so that
   * the top (the greatest element) of an STL priority_queue is a lightest
   * encoding; equal weights are ordered by symbol string.
   */
  predicate Less(a: Encoding, b: Encoding) {
    if a.weight == b.weight then StrLess(a.sym, b.sym) else a.weight > b.weight
  }

  /** encoding::operator+ (huffman.h:35-37). */
  function Plus(a: Encoding, b: Encoding): (c: Encoding)
    ensures c.weight == a.weight + b.weight
    ensures |c.sym| == |a.sym| + |b.sym| && c.sym[..|a.sym|] == a.sym && c.sym[|a.sym|..] == b.sym
  {
    Encoding(a.sym + b.sym, a.weight + b.weight)
  }

  /** htree(encoding e): the leaf constructor (huffman.h:48). */
  function MakeLeaf(e: Encoding): (t: HTree)
    ensures IsLeaf(t) && t.d == e && WellWeighted(t) && Fringe(t) == [e]
  {
    Leaf(e)
  }

  /** htree(l, r): the two-children constructor, e = l->e + r->e (huffman.h:47). */
  function MakeNode(l: HTree, r: HTree): (t: HTree)
    ensures !IsLeaf(t) && t.l == l && t.r == r
    ensures t.d.weight == l.d.weight + r.d.weight
    ensures WellWeighted(l) && WellWeighted(r) ==> WellWeighted(t)
    ensures Fringe(t) == Fringe(l) + Fringe(r)
  {
    Node(l, r, Plus(l.d, r.d))
  }

  /** htree::is_leaf (huffman.h:49): no children, so neither edge leads anywhere. */
  predicate IsLeaf(t: HTree): (b: bool)
    ensures b <==> At(t, "0").None? && At(t, "1").None?
  {
    t.Leaf?
  }

  /** Every internal node carries the sum of its children's encodings, as MakeNode builds it. */
  predicate WellWeighted(t: HTree) {
    match t
    case Leaf(_) => true
    case Node(l, r, e) => e == Plus(l.d, r.d) && WellWeighted(l) && WellWeighted(r)
  }

  /** The sum of a sequence of encodings, folded from the left. */
  function SumOf(es: seq<Encoding>): Encoding
    decreases |es|
  {
    if es == [] then Encoding("", 0) else Plus(SumOf(es[..|es| - 1]), es[|es| - 1])
  }

  /**
   * The plain sum of the weights, folded from the right. SumOf mirrors the
   * merges of operator+ (whose symbol strings depend on the order of the
   * fold); the weight alone is order-free, and this fold is the one the
   * queue lemmas, which remove an element anywhere, induct on.
   * SumOfWeightIsTotal shows that the two agree.
   */
  function TotalWeight(es: seq<Encoding>): nat {
    if es == [] then 0 else es[0].weight + TotalWeight(es[1..])
  }

  /** Both folds give the same total weight. */
  lemma {:induction false} SumOfWeightIsTotal(es: seq<Encoding>)
    ensures SumOf(es).weight == TotalWeight(es)
    decreases |es|
  {
    if es != [] {
      var front, last := es[..|es| - 1], es[|es| - 1];
      SumOfWeightIsTotal(front);
      TotalWeightAppend(front, [last]);
      assert front + [last] == es;
      assert [last][1..] == [];
    }
  }

  // ---- Properties of the order ----

  lemma {:induction false} LessIsInvertedWeight(a: Encoding, b: Encoding)
    ensures a.weight > b.weight ==> Less(a, b)
    ensures Less(a, b) ==> a.weight >= b.weight
    ensures !Less(a, b) ==> a.weight <= b.weight
    ensures a.weight == b.weight ==> (Less(a, b) <==> StrLess(a.sym, b.sym))
  {
  }

  lemma {:induction false} StrLessIrreflexive(a: string)
    ensures !StrLess(a, a)
    decreases |a|
  {
    if a != [] {
      StrLessIrreflexive(a[1..]);
    }
  }

  lemma {:induction false} StrLessTransitive(a: string, b: string, c: string)
    requires StrLess(a, b) && StrLess(b, c)
    ensures StrLess(a, c)
    decreases |a|
  {
    if a != [] && a[0] == b[0] && b[0] == c[0] {
      StrLessTransitive(a[1..], b[1..], c[1..]);
    }
  }

  lemma {:induction false} StrLessConnected(a: string, b: string)
    requires a != b
    ensures StrLess(a, b) || StrLess(b, a)
    decreases |a|
  {
    if a != [] && b != [] && a[0] == b[0] {
      StrLessConnected(a[1..], b[1..]);
    }
  }

  /**
   * encoding::operator< is a strict total order, so std::priority_queue's
   * requirement of a strict weak ordering is met and its top is well defined.
   */
  lemma {:induction false} LessIsStrictTotalOrder()
    ensures forall a :: !Less(a, a)
    ensures forall a, b, c :: Less(a, b) && Less(b, c) ==> Less(a, c)
    ensures forall a, b :: a != b ==> Less(a, b) || Less(b, a)
  {
    forall a: Encoding ensures !Less(a, a) {
      StrLessIrreflexive(a.sym);
    }
    forall a: Encoding, b: Encoding, c: Encoding | Less(a, b) && Less(b, c)
      ensures Less(a, c)
    {
      if a.weight == b.weight == c.weight {
        StrLessTransitive(a.sym, b.sym, c.sym);
      }
    }
    forall a: Encoding, b: Encoding | a != b ensures Less(a, b) || Less(b, a) {
      if a.weight == b.weight {
        StrLessConnected(a.sym, b.sym);
      }
    }
  }

  // ---- Properties of trees built by the two constructors ----

  /**
   * In a tree built by the constructors, every node's encoding is the sum of
   * its leaves' encodings: the symbol strings of the leaves concatenated left
   * to right, and the total of their weights.
   */
  lemma {:induction false} RootIsSumOfLeaves(t: HTree)
    requires WellWeighted(t)
    ensures t.d.sym == SumOf(Fringe(t)).sym
    ensures t.d.weight == TotalWeight(Fringe(t))
  {
    match t
    case Leaf(e) =>
      assert [e][..0] == [];
      assert [e][1..] == [];
    case Node(l, r, _) =>
      RootIsSumOfLeaves(l);
      RootIsSumOfLeaves(r);
      SumOfAppend(Fringe(l), Fringe(r));
      TotalWeightAppend(Fringe(l), Fringe(r));
  }

  lemma {:induction false} SumOfAppend(a: seq<Encoding>, b: seq<Encoding>)
    ensures SumOf(a + b).sym == SumOf(a).sym + SumOf(b).sym
    ensures SumOf(a + b).weight == SumOf(a).weight + SumOf(b).weight
    decreases |b|
  {
    if b == [] {
      assert a + b == a;
    } else {
      assert (a + b)[..|a + b| - 1] == a + b[..|b| - 1];
      SumOfAppend(a, b[..|b| - 1]);
    }
  }

  lemma {:induction false} TotalWeightAppend(a: seq<Encoding>, b: seq<Encoding>)
    ensures TotalWeight(a + b) == TotalWeight(a) + TotalWeight(b)
    decreases |a|
  {
    if a == [] {
      assert a + b == b;
    } else {
      assert (a + b)[1..] == a[1..] + b;
      TotalWeightAppend(a[1..], b);
    }
  }
}
