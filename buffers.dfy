/**
 * huffman_buffers: the encode and decode buffers that turn a stream of
 * symbols into a stream of bytes and back. Each keeps a fixed array `m` of
 * `Buffsize` bits whose live part is m[first_data..next_empty); a byte is
 * packed from, or unpacked into, eight bits least significant first.
 *
 * The tree the buffers use is the tree of new_huffman.cpp, whose leaves
 * carry the symbol index the decoder returns (`t->i`). The codeword table
 * of the encoder holds, for each symbol index, the path to a leaf with
 * that index, and "" for an index absent from the tree.
 */
module HuffmanBuffers {
  import opened Wrappers
  import opened Trees
  import opened NewHuffman
  import opened ArrayCopy

  /** The capacity of both buffers, in bits (huffman_buffers.h:50). */
  const Buffsize: nat := 4096 * 8

  /** The number of bits in a byte (huffman_buffers.h:52). */
  const ByteSize: nat := 8

  /** The table of the global `masks` object: masks[i] == 1 << i. */
  const Masks: seq<bv8> := [1, 2, 4, 8, 16, 32, 64, 128]

  /** The constructor of bit_to_byte_masks (huffman_buffers.cpp:13-20). */
  method MakeMasks() returns (masks: seq<bv8>)
    ensures |masks| == 8 && forall i | 0 <= i < 8 :: masks[i] == (1 as bv8) << i
    ensures masks == Masks
  {
    masks := [];
    var i := 0;
    while i < 8
      invariant 0 <= i <= 8 && |masks| == i
      invariant forall j | 0 <= j < i :: masks[j] == (1 as bv8) << j
    {
      masks := masks + [(1 as bv8) << i];
      i := i + 1;
    }
  }

  /** Bit i of a byte, 0 being the least significant. */
  predicate Bit(d: bv8, i: nat)
    requires i < 8
  {
    d & Masks[i] != 0
  }

  /** The byte whose bit i is bits[i]: what bits_to_byte computes. */
  function Pack(bits: seq<bool>): bv8
    requires |bits| <= 8
  {
    if bits == [] then 0
    else Pack(bits[..|bits| - 1]) | (if bits[|bits| - 1] then Masks[|bits| - 1] else 0)
  }

  /** Bit i of Pack(bits) is set iff bits[i] is true; the bits above |bits| are 0. */
  lemma {:induction false} PackBit(bits: seq<bool>, i: nat)
    requires |bits| <= 8 && i < 8
    ensures Bit(Pack(bits), i) <==> i < |bits| && bits[i]
    decreases |bits|
  {
    if bits != [] {
      var n := |bits| - 1;
      var front := bits[..n];
      PackBit(front, i);
      MaskBit(Pack(front), bits[n], n, i);
      assert i < n ==> front[i] == bits[i];
    }
  }

  /** Or-ing in mask j sets bit j and leaves the other bits as they are. */
  lemma {:induction false} MaskBit(d: bv8, on: bool, j: nat, i: nat)
    requires j < 8 && i < 8
    ensures Bit(d | (if on then Masks[j] else 0), i) <==> (Bit(d, i) || (on && i == j))
  {
    assert Masks[i] & Masks[j] == (if i == j then Masks[i] else 0) by {
      assert Masks == [1, 2, 4, 8, 16, 32, 64, 128];
    }
  }

  /** Two bytes with the same eight bits are equal. */
  lemma {:induction false} SameBits(x: bv8, y: bv8)
    requires forall i | 0 <= i < 8 :: Bit(x, i) == Bit(y, i)
    ensures x == y
  {
    assert Bit(x, 0) == Bit(y, 0) && Bit(x, 1) == Bit(y, 1) && Bit(x, 2) == Bit(y, 2) && Bit(x, 3) == Bit(y, 3);
    assert Bit(x, 4) == Bit(y, 4) && Bit(x, 5) == Bit(y, 5) && Bit(x, 6) == Bit(y, 6) && Bit(x, 7) == Bit(y, 7);
  }

  /**
   * bits_to_byte(b, n) (huffman_buffers.cpp:23-32): or together masks[i]
   * for every i < n with b[i] set. Bits at n and above are not read.
   */
  method BitsToByte(b: array<bool>, n: nat) returns (d: bv8)
    requires n <= 8 && n <= b.Length
    ensures d == Pack(b[..n])
    ensures forall i | 0 <= i < 8 :: Bit(d, i) <==> i < n && b[i]
  {
    d := 0;
    var i := 0;
    while i < n
      invariant 0 <= i <= n
      invariant d == Pack(b[..i])
    {
      if b[i] {
        d := d | Masks[i];
      }
      assert b[..i + 1][..i] == b[..i];
      i := i + 1;
    }
    assert b[..i] == b[..n];
    forall i | 0 <= i < 8 ensures Bit(d, i) <==> i < n && b[i] {
      PackBit(b[..n], i);
    }
  }

  /** The eight bits decode_buffer::put_byte appends for byte b, least significant first. */
  function ByteBits(b: bv8): (bits: seq<bool>)
    ensures |bits| == 8
  {
    seq(8, i requires 0 <= i < 8 => MaskedBit(b, i))
  }

  /** The test decode_buffer::put_byte applies for bit i: (b & masks[i]) == masks[i]. */
  predicate MaskedBit(b: bv8, i: nat)
    requires i < 8
  {
    b & Masks[i] == Masks[i]
  }

  /** Packing the bits of a byte gives the byte back. */
  lemma {:induction false} PackByteBits(b: bv8)
    ensures Pack(ByteBits(b)) == b
  {
    forall i | 0 <= i < 8 ensures Bit(Pack(ByteBits(b)), i) == Bit(b, i) {
      PackBit(ByteBits(b), i);
      SingleBit(b, i);
    }
    SameBits(Pack(ByteBits(b)), b);
  }

  lemma {:induction false} SingleBit(b: bv8, i: nat)
    requires i < 8
    ensures MaskedBit(b, i) == Bit(b, i)
  {
    assert Masks == [1, 2, 4, 8, 16, 32, 64, 128];
  }

  /**
   * Unpacking a packed byte gives its bits back, followed by the zero bits
   * that bits_to_byte pads with when it packs fewer than eight.
   */
  lemma {:induction false} ByteBitsPack(bits: seq<bool>)
    requires |bits| <= 8
    ensures ByteBits(Pack(bits)) == bits + seq(8 - |bits|, _ => false)
  {
    var padded := bits + seq(8 - |bits|, _ => false);
    forall i | 0 <= i < 8 ensures ByteBits(Pack(bits))[i] == padded[i] {
      PackBit(bits, i);
      SingleBit(Pack(bits), i);
    }
  }

  /** The bits put_byte writes for a codeword: '1' is true, any other character false. */
  function Bits(code: string): (bits: seq<bool>)
    ensures |bits| == |code|
  {
    seq(|code|, i requires 0 <= i < |code| => code[i] == '1')
  }

  // ---- the codeword table ----

  /** The path to the leftmost leaf with symbol index `s`, if there is one. */
  function FindPath(t: WTree, s: nat): (r: Option<string>)
    ensures r.Some? ==> IsLeafPath(t, r.value) && At(t, r.value).value.d.i == s
  {
    match t
    case Leaf(d) => if d.i == s then Some("") else None
    case Node(l, r, _) =>
      var pl := FindPath(l, s);
      if pl.Some? then Some("0" + pl.value)
      else
        var pr := FindPath(r, s);
        if pr.Some? then Some("1" + pr.value) else None
  }

  /** Every symbol index of a leaf is found. */
  lemma {:induction false} FindPathComplete(t: WTree, d: WI)
    requires d in Fringe(t)
    ensures FindPath(t, d.i).Some?
  {
    match t
    case Leaf(_) =>
    case Node(l, r, _) =>
      if d in Fringe(l) {
        FindPathComplete(l, d);
      } else {
        FindPathComplete(r, d);
      }
  }

  /**
   * The encoding table of the constructor (huffman_buffers.h:66-69):
   * `numsymb` entries, entry s the codeword of symbol s, "" for a symbol
   * without a leaf.
   */
  function CodeTable(numsymb: nat, h: WTree): (table: seq<string>)
    ensures |table| == numsymb
    ensures forall s | 0 <= s < numsymb ::
      if FindPath(h, s).Some? then table[s] == FindPath(h, s).value else table[s] == ""
  {
    seq(numsymb, s requires 0 <= s < numsymb => if FindPath(h, s).Some? then FindPath(h, s).value else "")
  }

  // ---- the decoder's tree walk ----

  /** A decoded symbol and the number of bits used up to reach its leaf. */
  datatype Decoded = Decoded(index: nat, used: nat)

  /**
   * The loop of decode_buffer::pop_byte (huffman_buffers.cpp:113-130) on
   * the live bits, `used` of them consumed already: the bounds test comes
   * before the leaf test, so no symbol is returned once the bits run out,
   * even at a leaf.
   */
  function Walk(t: WTree, bits: seq<bool>, used: nat): (r: Option<Decoded>)
    ensures r.Some? ==> used <= r.value.used < used + |bits|
    decreases |bits|
  {
    if |bits| == 0 then None
    else if t.Leaf? then Some(Decoded(t.d.i, used))
    else Walk(if bits[0] then t.r else t.l, bits[1..], used + 1)
  }

  /** The path that a sequence of bits spells: true is '1' (right), false is '0' (left). */
  function Path(bits: seq<bool>): (p: string)
    ensures |p| == |bits|
  {
    seq(|bits|, i requires 0 <= i < |bits| => if bits[i] then '1' else '0')
  }

  /**
   * What the walk returns is a leaf: it stops with at least one bit left,
   * at the end of the path spelt by the bits it used, and reports that
   * leaf's index.
   */
  lemma {:induction false} WalkFindsLeaf(t: WTree, bits: seq<bool>, used: nat)
    requires Walk(t, bits, used).Some?
    ensures var r := Walk(t, bits, used).value;
      && IsLeafPath(t, Path(bits[..r.used - used]))
      && At(t, Path(bits[..r.used - used])).value.d.i == r.index
    decreases |bits|
  {
    if t.Node? {
      var c := if bits[0] then t.r else t.l;
      WalkFindsLeaf(c, bits[1..], used + 1);
      var r := Walk(t, bits, used).value;
      var p := Path(bits[..r.used - used]);
      assert p[0] == (if bits[0] then '1' else '0');
      assert p[1..] == Path(bits[1..][..r.used - (used + 1)]);
    }
  }

  /**
   * A codeword followed by at least one more bit decodes to the codeword's
   * leaf and uses exactly the codeword's bits.
   */
  lemma {:induction false} WalkFollowsPath(t: WTree, p: string, rest: seq<bool>, used: nat)
    requires IsLeafPath(t, p) && rest != []
    ensures Walk(t, Bits(p) + rest, used) == Some(Decoded(At(t, p).value.d.i, used + |p|))
    decreases |p|
  {
    if p != [] {
      assert (Bits(p) + rest)[1..] == Bits(p[1..]) + rest;
      if p[0] == '0' {
        WalkFollowsPath(t.l, p[1..], rest, used + 1);
      } else {
        WalkFollowsPath(t.r, p[1..], rest, used + 1);
      }
    } else {
      assert Bits(p) + rest == rest;
    }
  }

  /**
   * The caveat of the leaf-after-bounds test: a buffer holding exactly one
   * codeword and nothing after it decodes to nothing.
   */
  lemma {:induction false} WalkNeedsOneMoreBit(t: WTree, p: string, used: nat)
    requires IsLeafPath(t, p)
    ensures Walk(t, Bits(p), used) == None
    decreases |p|
  {
    if p != [] {
      assert Bits(p)[1..] == Bits(p[1..]);
      if p[0] == '0' {
        WalkNeedsOneMoreBit(t.l, p[1..], used + 1);
      } else {
        WalkNeedsOneMoreBit(t.r, p[1..], used + 1);
      }
    }
  }

  /**
   * The two buffers agree: the bits the encoder writes for symbol s,
   * followed by any further bit, decode back to s, using exactly the bits
   * of its codeword.
   */
  lemma {:induction false} EncodeThenDecode(numsymb: nat, h: WTree, s: nat, rest: seq<bool>)
    requires s < numsymb && rest != []
    requires exists d :: d in Fringe(h) && d.i == s
    ensures Walk(h, Bits(CodeTable(numsymb, h)[s]) + rest, 0)
         == Some(Decoded(s, |CodeTable(numsymb, h)[s]|))
  {
    var d :| d in Fringe(h) && d.i == s;
    FindPathComplete(h, d);
    WalkFollowsPath(h, FindPath(h, s).value, rest, 0);
  }

  /** The bits that encode_buffer::put_byte appends for a stream of symbols, in order. */
  function EncodeAll(table: seq<string>, syms: seq<nat>): seq<bool>
    requires forall k | 0 <= k < |syms| :: syms[k] < |table|
    decreases |syms|
  {
    if syms == [] then [] else Bits(table[syms[0]]) + EncodeAll(table, syms[1..])
  }

  /**
   * `n` successive calls of decode_buffer::pop_byte, each walking from the
   * root over the bits the previous ones left.
   */
  function DecodeN(t: WTree, bits: seq<bool>, n: nat): Option<seq<nat>>
    decreases n
  {
    if n == 0 then Some([])
    else
      match Walk(t, bits, 0)
      case None => None
      case Some(d) =>
        var more := DecodeN(t, bits[d.used..], n - 1);
        if more.None? then None else Some([d.index] + more.value)
  }

  /** Some leaf of `h` carries symbol index `s`. */
  predicate HasLeaf(h: WTree, s: nat) {
    exists d :: d in Fringe(h) && d.i == s
  }

  /**
   * Decoding the concatenated codewords of a stream of symbols gives back
   * the stream, provided at least one further bit follows (the bounds test
   * of pop_byte comes before its leaf test).
   */
  lemma {:induction false} StreamRoundTrip(numsymb: nat, h: WTree, syms: seq<nat>, rest: seq<bool>)
    requires rest != []
    requires forall k | 0 <= k < |syms| :: syms[k] < numsymb && HasLeaf(h, syms[k])
    ensures DecodeN(h, EncodeAll(CodeTable(numsymb, h), syms) + rest, |syms|) == Some(syms)
    decreases |syms|
  {
    if syms != [] {
      var table := CodeTable(numsymb, h);
      var code := table[syms[0]];
      var tail := EncodeAll(table, syms[1..]) + rest;
      assert forall k | 0 <= k < |syms[1..]| :: syms[1..][k] == syms[k + 1];
      StreamRoundTrip(numsymb, h, syms[1..], rest);
      assert HasLeaf(h, syms[0]);
      EncodeThenDecode(numsymb, h, syms[0], tail);
      EncodeAllCons(table, syms, rest);
      DecodeNCons(h, Bits(code), tail, |syms| - 1, syms[0], syms[1..]);
      assert [syms[0]] + syms[1..] == syms;
    }
  }

  /** The stream's bits are the first symbol's codeword, then the rest of the stream's. */
  lemma {:induction false} EncodeAllCons(table: seq<string>, syms: seq<nat>, rest: seq<bool>)
    requires syms != [] && forall k | 0 <= k < |syms| :: syms[k] < |table|
    ensures EncodeAll(table, syms) + rest == Bits(table[syms[0]]) + (EncodeAll(table, syms[1..]) + rest)
  {
    assert forall k | 0 <= k < |syms[1..]| :: syms[1..][k] == syms[k + 1];
  }

  /** A walk that reports symbol `s` after the bits `code` leaves the rest to the next walks. */
  lemma {:induction false} DecodeNCons(t: WTree, code: seq<bool>, tail: seq<bool>, n: nat, s: nat, more: seq<nat>)
    requires Walk(t, code + tail, 0) == Some(Decoded(s, |code|))
    requires DecodeN(t, tail, n) == Some(more)
    ensures DecodeN(t, code + tail, n + 1) == Some([s] + more)
  {
    assert (code + tail)[|code|..] == tail;
  }

  /**
   * The sizing rule of huffman_buffers.h:39-42, 47-49: put_byte of a
   * codeword of length `len` is possible whenever pop_byte is not (fewer
   * than eight bits buffered) iff the buffer holds the codeword plus a byte.
   */
  lemma {:induction false} RoomForLongestCodeword(len: nat)
    ensures (forall ne: nat | ne < ByteSize :: PutFits(len, ne)) <==> len + ByteSize <= Buffsize
  {
    if len + ByteSize > Buffsize {
      assert !PutFits(len, ByteSize - 1);
    }
  }

  /** The test of encode_buffer::put_byte: a codeword of length `len` fits after `ne` bits. */
  predicate PutFits(len: nat, ne: nat) {
    len < Buffsize - ne
  }

  // ---- encode_buffer ----

  class EncodeBuffer {
    /** The bit store; its live bits are m[..nextEmpty]. */
    const m: array<bool>
    /** The codeword of every symbol index, fixed at construction. */
    const encodings: seq<string>
    var nextEmpty: nat
    /** Set by the constructor and otherwise unused by the encoder. */
    var firstData: nat

    ghost predicate Valid()
      reads this
    {
      m.Length == Buffsize && nextEmpty <= Buffsize
    }

    /** The buffered bits, oldest first. */
    ghost function Contents(): seq<bool>
      reads this, m
      requires Valid()
    {
      m[..nextEmpty]
    }

    /** encode_buffer(numsymb, h) (huffman_buffers.h:66-69): empty, with the table of `h`. */
    constructor (numsymb: nat, h: WTree)
      ensures Valid() && fresh(m)
      ensures nextEmpty == 0 && firstData == 0 && Contents() == []
      ensures encodings == CodeTable(numsymb, h)
    {
      m := new bool[Buffsize];
      encodings := CodeTable(numsymb, h);
      nextEmpty, firstData := 0, 0;
    }

    /**
     * put_byte(b) (huffman_buffers.cpp:37-46): when the codeword of b is
     * strictly shorter than the free room, its bits are appended ('1' as
     * true); otherwise nothing changes.
     */
    method PutByte(b: nat) returns (ok: bool)
      requires Valid() && b < |encodings|
      modifies this, m
      ensures Valid() && firstData == old(firstData)
      ensures ok <==> |encodings[b]| < Buffsize - old(nextEmpty)
      ensures ok ==> Contents() == old(Contents()) + Bits(encodings[b])
      ensures !ok ==> nextEmpty == old(nextEmpty) && m[..] == old(m[..])
    {
      var code := encodings[b];
      if |code| < Buffsize - nextEmpty {
        var j := 0;
        while j < |code|
          invariant 0 <= j <= |code| && nextEmpty == old(nextEmpty) + j && Valid()
          invariant firstData == old(firstData)
          invariant m[..nextEmpty] == old(m[..nextEmpty]) + Bits(code)[..j]
        {
          m[nextEmpty] := code[j] == '1';
          assert m[..nextEmpty + 1] == m[..nextEmpty] + [m[nextEmpty]];
          assert Bits(code)[..j + 1] == Bits(code)[..j] + [code[j] == '1'];
          nextEmpty := nextEmpty + 1;
          j := j + 1;
        }
        assert Bits(code)[..j] == Bits(code);
        ok := true;
      } else {
        ok := false;
      }
    }

    /**
     * pop_byte (huffman_buffers.cpp:48-60): with at least a byte buffered,
     * the first eight bits are packed into `b` and the rest slide down.
     */
    method PopByte() returns (ok: bool, b: bv8)
      requires Valid()
      modifies this, m
      ensures Valid() && firstData == old(firstData)
      ensures ok <==> ByteSize <= old(nextEmpty)
      ensures ok ==> b == Pack(old(Contents())[..ByteSize]) && Contents() == old(Contents())[ByteSize..]
      ensures !ok ==> nextEmpty == old(nextEmpty) && m[..] == old(m[..])
    {
      if ByteSize <= nextEmpty {
        b := BitsToByte(m, ByteSize);
        assert m[..ByteSize] == old(Contents())[..ByteSize];
        CopyDown(m, ByteSize, nextEmpty);
        nextEmpty := nextEmpty - ByteSize;
        ok := true;
      } else {
        ok, b := false, 0;
      }
    }

    /**
     * terminate (huffman_buffers.cpp:63-72): with fewer than eight bits
     * buffered, they are packed, zero-padded, into `b` and the buffer
     * empties.
     */
    method Terminate() returns (ok: bool, b: bv8)
      requires Valid()
      modifies this
      ensures Valid() && firstData == old(firstData)
      ensures ok <==> old(nextEmpty) < ByteSize
      ensures ok ==> b == Pack(old(Contents())) && nextEmpty == 0
      ensures !ok ==> nextEmpty == old(nextEmpty)
    {
      if nextEmpty < ByteSize {
        b := BitsToByte(m, nextEmpty);
        nextEmpty := 0;
        ok := true;
      } else {
        ok, b := false, 0;
      }
    }
  }

  // ---- decode_buffer ----

  /**
   * The loop of decode_buffer::put_byte (huffman_buffers.cpp:99-102): bit i
   * of b goes to m[at + i], for i from 0 to 7.
   */
  method WriteByteBits(m: array<bool>, at: nat, b: bv8)
    requires at + ByteSize <= m.Length
    modifies m
    ensures m[..at + ByteSize] == old(m[..at]) + ByteBits(b)
  {
    ghost var before := m[..at];
    var i := 0;
    while i < ByteSize
      invariant 0 <= i <= ByteSize
      invariant m[..at + i] == before + ByteBits(b)[..i]
    {
      m[at + i] := MaskedBit(b, i);
      assert m[..at + i + 1] == m[..at + i] + [m[at + i]];
      assert ByteBits(b)[..i + 1] == ByteBits(b)[..i] + [MaskedBit(b, i)];
      i := i + 1;
    }
    assert ByteBits(b)[..i] == ByteBits(b);
  }

  class DecodeBuffer {
    /** The bit store; its live bits are m[firstData..nextEmpty). */
    const m: array<bool>
    var nextEmpty: nat
    var firstData: nat
    /** The tree, held through a const handle and never changed. */
    const hufftree: WTree

    /** Nothing but slide_array writes firstData, and it writes 0. */
    ghost predicate Valid()
      reads this
    {
      m.Length == Buffsize && firstData == 0 && nextEmpty <= Buffsize
    }

    ghost function Contents(): seq<bool>
      reads this, m
      requires Valid()
    {
      m[firstData..nextEmpty]
    }

    /** decode_buffer(numsymb, h) (huffman_buffers.h:93-95). */
    constructor (numsymb: nat, h: WTree)
      ensures Valid() && fresh(m)
      ensures nextEmpty == 0 && firstData == 0 && Contents() == [] && hufftree == h
    {
      m := new bool[Buffsize];
      nextEmpty, firstData := 0, 0;
      hufftree := h;
    }

    /**
     * slide_array (huffman_buffers.cpp:76-83): the live bits move to the
     * front unchanged and firstData becomes 0.
     */
    method SlideArray()
      requires m.Length == Buffsize && firstData <= nextEmpty <= Buffsize
      modifies this, m
      ensures Valid() && Contents() == old(m[firstData..nextEmpty])
    {
      CopyDown(m, firstData, nextEmpty);
      nextEmpty := nextEmpty - firstData;
      firstData := 0;
    }

    /**
     * put_byte(b) (huffman_buffers.cpp:85-106): with room for a byte, the
     * eight bits of b are appended, least significant first; otherwise
     * nothing changes.
     */
    method PutByte(b: bv8) returns (ok: bool)
      requires Valid()
      modifies this, m
      ensures Valid()
      ensures ok <==> Buffsize - old(nextEmpty) >= ByteSize
      ensures ok ==> Contents() == old(Contents()) + ByteBits(b)
      ensures !ok ==> nextEmpty == old(nextEmpty) && m[..] == old(m[..])
    {
      if Buffsize - nextEmpty >= ByteSize {
        WriteByteBits(m, nextEmpty, b);
        nextEmpty := nextEmpty + ByteSize;
        ok := true;
      } else {
        ok := false;
      }
    }

    /**
     * pop_byte (huffman_buffers.cpp:108-132): walk the tree from the root
     * along the live bits (true to the right child); at a leaf, with bits
     * still left, report its index and drop the bits used. If the bits run
     * out first, nothing changes.
     */
    method PopByte() returns (ok: bool, b: nat)
      requires Valid()
      modifies this, m
      ensures Valid()
      ensures var r := Walk(hufftree, old(Contents()), 0);
        && (ok <==> r.Some?)
        && (ok ==> b == r.value.index && Contents() == old(Contents())[r.value.used..])
      ensures !ok ==> nextEmpty == old(nextEmpty) && m[..] == old(m[..])
    {
      var t := hufftree;
      var bitLoc := firstData;
      while bitLoc < nextEmpty
        invariant firstData <= bitLoc <= nextEmpty
        invariant Walk(hufftree, Contents(), 0) == Walk(t, m[bitLoc..nextEmpty], bitLoc)
        decreases nextEmpty - bitLoc
      {
        if t.Leaf? {
          b := t.d.i;
          CopyDown(m, bitLoc, nextEmpty);
          nextEmpty := nextEmpty - bitLoc;
          return true, b;
        }
        assert m[bitLoc..nextEmpty][1..] == m[bitLoc + 1..nextEmpty];
        if m[bitLoc] {
          t := t.r;
        } else {
          t := t.l;
        }
        bitLoc := bitLoc + 1;
      }
      return false, 0;
    }
  }
}
