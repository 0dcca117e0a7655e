/**
 * std::copy(m.begin() + from, m.begin() + to, m.begin()), the one way the
 * buffers move their data: the range [from, to) slides down to index 0.
 * std::copy leaves the result unspecified when the destination lies inside
 * the source range, which is the case here when from == 0 and the range is
 * not empty; the model assumes the element-by-element front-to-back copy of
 * a typical implementation (what memmove gives), which is correct because
 * the destination starts at or before the source.
 */
module ArrayCopy {
  method CopyDown<T>(a: array<T>, from: nat, to: nat)
    requires from <= to <= a.Length
    modifies a
    ensures a[..to - from] == old(a[from..to])
    ensures a[to - from..] == old(a[to - from..])
  {
    var i := 0;
    while i < to - from
      invariant 0 <= i <= to - from
      invariant a[..i] == old(a[from..from + i])
      invariant a[i..] == old(a[i..])
    {
      a[i] := a[from + i];
      assert a[..i + 1] == a[..i] + [a[i]];
      assert old(a[from..from + i + 1]) == old(a[from..from + i]) + [old(a[from + i])];
      i := i + 1;
    }
  }
}
