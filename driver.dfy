/**
 * The older buffer pipeline of driver.cpp. Symbols are turned into their
 * codewords, stored as characters '0' and '1' in a "fake binary" buffer,
 * and every eight of those characters are then packed into one byte of a
 * "real binary" buffer.
 *
 * Both buffers are instances of one FIFO over a fixed array. Elements are
 * written at `nextEmpty` and read at `consumed`, and `Reset` slides the
 * unread part down to the front.
 */
module Driver {
  import ArrayCopy

  const CharSize: nat := 8

  class FeedBuffer<T(0)> {
    const data: array<T>
    const S: nat
    var nextEmpty: nat
    var consumed: nat

    ghost predicate Valid()
      reads this
    {
      data.Length == S && consumed <= nextEmpty <= S
    }

    /** The elements pushed and not yet popped, oldest first. */
    ghost function Unread(): seq<T>
      reads this, data
      requires Valid()
    {
      data[consumed..nextEmpty]
    }

    /** room(): the free slots behind the unread elements, all the array not consumed or unread. */
    function Room(): (r: nat)
      reads this, data
      requires Valid()
      ensures consumed + |Unread()| + r == data.Length
    {
      S - nextEmpty
    }

    /** toread(): how many elements are pushed and not yet popped. */
    function ToRead(): (r: nat)
      reads this, data
      requires Valid()
      ensures r == |Unread()|
    {
      nextEmpty - consumed
    }

    /** The buffer has room for S elements and holds none. */
    constructor(size: nat)
      ensures Valid() && fresh(data)
      ensures S == size && Unread() == [] && Room() == size
    {
      data := new T[size];
      S := size;
      nextEmpty := 0;
      consumed := 0;
    }

    /** Writes `d` at `nextEmpty`: it becomes the newest unread element. */
    method Push(d: T)
      requires Valid() && Room() > 0
      modifies this, data
      ensures Valid()
      ensures Unread() == old(Unread()) + [d]
      ensures Room() == old(Room()) - 1 && consumed == old(consumed)
    {
      data[nextEmpty] := d;
      nextEmpty := nextEmpty + 1;
    }

    /** Returns the element at `consumed`: the oldest unread one. */
    method Pop() returns (d: T)
      requires Valid() && ToRead() > 0
      modifies this
      ensures Valid()
      ensures d == old(Unread())[0] && Unread() == old(Unread())[1..]
      ensures Room() == old(Room())
    {
      consumed := consumed + 1;
      d := data[consumed - 1];
    }

    /** Pushes a[0], ..., a[l - 1] in that order; the caller guarantees the room. */
    method Append(a: seq<T>, l: nat)
      requires Valid() && l <= |a| && Room() >= l
      modifies this, data
      ensures Valid()
      ensures Unread() == old(Unread()) + a[..l]
      ensures Room() == old(Room()) - l && consumed == old(consumed)
    {
      var i := 0;
      while i < l
        invariant 0 <= i <= l
        invariant Valid()
        invariant Unread() == old(Unread()) + a[..i]
        invariant Room() == old(Room()) - i && consumed == old(consumed)
      {
        Push(a[i]);
        assert a[..i + 1] == a[..i] + [a[i]];
        i := i + 1;
      }
    }

    /** Moves the unread elements, in order, to the front of the array. */
    method Reset()
      requires Valid()
      modifies this, data
      ensures Valid()
      ensures Unread() == old(Unread()) && consumed == 0
      ensures ToRead() == old(ToRead())
    {
      ArrayCopy.CopyDown(data, consumed, nextEmpty);
      nextEmpty := nextEmpty - consumed;
      consumed := 0;
    }
  }

  function Pow2(i: nat): nat {
    if i == 0 then 1 else 2 * Pow2(i - 1)
  }

  /**
   * The number a string of '0'/'1' characters stands for, least
   * significant digit first; any character other than '1' counts as 0.
   */
  function BinValue(s: seq<char>): nat {
    if s == [] then 0 else (if s[0] == '1' then 1 else 0) + 2 * BinValue(s[1..])
  }

  /** The n-digit binary string of v, least significant digit first. */
  function BinString(v: nat, n: nat): seq<char> {
    if n == 0 then [] else [if v % 2 == 1 then '1' else '0'] + BinString(v / 2, n - 1)
  }

  /** Appending a digit adds it at the next power of two. */
  lemma {:induction false} BinValueAppend(s: seq<char>, c: char)
    ensures BinValue(s + [c]) == BinValue(s) + (if c == '1' then Pow2(|s|) else 0)
  {
    if s != [] {
      assert (s + [c])[1..] == s[1..] + [c];
      BinValueAppend(s[1..], c);
    }
  }

  lemma {:induction false} BinValueBound(s: seq<char>)
    ensures BinValue(s) < Pow2(|s|)
  {
    if s != [] {
      BinValueBound(s[1..]);
    }
  }

  /**
   * Reading the value back as n binary digits gives digit i as '1' exactly
   * when character i was '1': each character sets its own bit.
   */
  lemma {:induction false} BinStringOfValue(s: seq<char>)
    ensures |BinString(BinValue(s), |s|)| == |s|
    ensures forall i :: 0 <= i < |s| ==>
      BinString(BinValue(s), |s|)[i] == (if s[i] == '1' then '1' else '0')
  {
    if s != [] {
      var v := BinValue(s);
      assert v % 2 == (if s[0] == '1' then 1 else 0);
      assert v / 2 == BinValue(s[1..]);
      BinStringOfValue(s[1..]);
    }
  }

  /** The other round trip: an n-digit string of a value below 2^n reads back as it. */
  lemma {:induction false} BinValueOfString(v: nat, n: nat)
    requires v < Pow2(n)
    ensures |BinString(v, n)| == n
    ensures BinValue(BinString(v, n)) == v
  {
    if n > 0 {
      BinValueOfString(v / 2, n - 1);
      assert BinString(v, n)[1..] == BinString(v / 2, n - 1);
    }
  }

  /**
   * trans_bin_string: the byte whose bit i is set exactly when a[i] is '1'.
   * The value is kept unsigned, 0 to 255.
   */
  method TransBinString(a: array<char>) returns (res: nat)
    requires a.Length == CharSize
    ensures res == BinValue(a[..]) && res < 256
  {
    res := 0;
    var i := 0;
    while i < CharSize
      invariant 0 <= i <= CharSize
      invariant res == BinValue(a[..i])
    {
      BinValueAppend(a[..i], a[i]);
      assert a[..i + 1] == a[..i] + [a[i]];
      if a[i] == '1' {
        res := res + Pow2(i);
      }
      i := i + 1;
    }
    assert a[..] == a[..CharSize];
    BinValueBound(a[..]);
    assert Pow2(8) == 256;
  }

  /** The codewords of `syms`, one after the other. */
  function Concat(encodings: seq<string>, syms: seq<nat>): string
    requires forall k :: 0 <= k < |syms| ==> syms[k] < |encodings|
  {
    if syms == [] then []
    else Concat(encodings, syms[..|syms| - 1]) + encodings[syms[|syms| - 1]]
  }

  /**
   * The packed bytes of a string of '0'/'1' characters, eight characters a
   * byte; fewer than eight characters left over make no byte.
   */
  function Packed(s: seq<char>): seq<char> {
    if |s| < CharSize then []
    else [ByteChar(s[..CharSize])] + Packed(s[CharSize..])
  }

  function ByteChar(s: seq<char>): char
    requires |s| == CharSize
  {
    BinValueBound(s);
    assert Pow2(8) == 256;
    BinValue(s) as char
  }

  lemma {:induction false} PackedAppend(a: seq<char>, b: seq<char>)
    requires |a| % CharSize == 0
    ensures Packed(a + b) == Packed(a) + Packed(b)
    decreases |a|
  {
    if a == [] {
      assert a + b == b;
    } else {
      assert (a + b)[..CharSize] == a[..CharSize];
      assert (a + b)[CharSize..] == a[CharSize..] + b;
      PackedAppend(a[CharSize..], b);
    }
  }

  /** The inverse of Packed: each byte written out as its eight binary digits. */
  function Unpacked(bytes: seq<char>): seq<char> {
    if bytes == [] then [] else BinString(bytes[0] as nat, CharSize) + Unpacked(bytes[1..])
  }

  predicate IsBinary(s: seq<char>) {
    forall i :: 0 <= i < |s| ==> s[i] == '0' || s[i] == '1'
  }

  /**
   * Packing loses nothing: a string of '0'/'1' characters whose length is a
   * multiple of eight is recovered from its bytes, each byte's bit i being
   * the character at position i of its group.
   */
  lemma {:induction false} UnpackPacked(s: seq<char>)
    requires IsBinary(s) && |s| % CharSize == 0
    ensures Unpacked(Packed(s)) == s
    decreases |s|
  {
    if s != [] {
      var chunk := s[..CharSize];
      BinStringOfValue(chunk);
      assert BinString(BinValue(chunk), CharSize) == chunk;
      BinValueBound(chunk);
      assert Pow2(8) == 256;
      assert Packed(s)[0] as nat == BinValue(chunk);
      assert Packed(s)[1..] == Packed(s[CharSize..]);
      UnpackPacked(s[CharSize..]);
      assert s == chunk + s[CharSize..];
    }
  }

  /** And the bytes are recovered from their digits. */
  lemma {:induction false} PackUnpacked(bytes: seq<char>)
    requires forall k :: 0 <= k < |bytes| ==> bytes[k] as nat < 256
    ensures |Unpacked(bytes)| == CharSize * |bytes|
    ensures Packed(Unpacked(bytes)) == bytes
    decreases |bytes|
  {
    if bytes != [] {
      assert Pow2(8) == 256;
      BinValueOfString(bytes[0] as nat, CharSize);
      PackUnpacked(bytes[1..]);
      var u := Unpacked(bytes);
      assert u[..CharSize] == BinString(bytes[0] as nat, CharSize);
      assert u[CharSize..] == Unpacked(bytes[1..]);
      assert bytes == [bytes[0]] + bytes[1..];
    }
  }

  /** Packing one more group of eight characters adds its byte at the end. */
  lemma {:induction false} PackedPrefix(s: seq<char>, n: nat)
    requires 8 * n + 8 <= |s|
    ensures Packed(s[..8 * n + 8]) == Packed(s[..8 * n]) + [ByteChar(s[8 * n..8 * n + 8])]
  {
    var chunk := s[8 * n..8 * n + 8];
    assert s[..8 * n + 8] == s[..8 * n] + chunk;
    PackedAppend(s[..8 * n], chunk);
    assert chunk[..CharSize] == chunk && chunk[CharSize..] == [];
  }

  /**
   * file_to_huff over the input bytes: appends the codeword of each input
   * symbol in turn while it fits in the buffer, stops at the first one that
   * does not fit without consuming it, and returns the number consumed.
   */
  method FileToHuff(input: seq<nat>, encodings: seq<string>, fake: FeedBuffer<char>)
    returns (n: nat)
    requires |encodings| == 256 && forall k :: 0 <= k < |input| ==> input[k] < 256
    requires fake.Valid()
    modifies fake, fake.data
    ensures fake.Valid() && fake.consumed == old(fake.consumed)
    ensures n <= |input|
    ensures fake.Unread() == old(fake.Unread()) + Concat(encodings, input[..n])
    ensures n < |input| ==> fake.Room() < |encodings[input[n]]|
  {
    n := 0;
    while n < |input|
      invariant n <= |input|
      invariant fake.Valid() && fake.consumed == old(fake.consumed)
      invariant fake.Unread() == old(fake.Unread()) + Concat(encodings, input[..n])
    {
      var encoding := encodings[input[n]];
      if fake.Room() >= |encoding| {
        fake.Append(encoding, |encoding|);
        assert encoding[..|encoding|] == encoding;
        assert input[..n + 1][..n] == input[..n];
        n := n + 1;
      } else {
        return;
      }
    }
  }

  /** The inner loop of huff_to_bin: pops the next eight characters into `a`. */
  method PopChunk(fake: FeedBuffer<char>, a: array<char>)
    requires fake.Valid() && fake.ToRead() >= CharSize
    requires a.Length == CharSize && a != fake.data
    modifies fake, a
    ensures fake.Valid() && fake.Room() == old(fake.Room())
    ensures a[..] == old(fake.Unread())[..CharSize]
    ensures fake.Unread() == old(fake.Unread())[CharSize..]
  {
    var j := 0;
    while j < CharSize
      invariant 0 <= j <= CharSize
      invariant fake.Valid() && fake.Room() == old(fake.Room())
      invariant fake.Unread() == old(fake.Unread())[j..]
      invariant a[..j] == old(fake.Unread())[..j]
    {
      a[j] := fake.Pop();
      assert a[..j + 1] == a[..j] + [a[j]];
      j := j + 1;
    }
    assert a[..] == a[..CharSize];
  }

  /** One round of huff_to_bin: eight characters of `fake` become one byte of `bin`. */
  method TransferByte(fake: FeedBuffer<char>, bin: FeedBuffer<char>, toTrans: array<char>)
    requires fake != bin && fake.data != bin.data
    requires toTrans.Length == CharSize && toTrans != fake.data && toTrans != bin.data
    requires fake.Valid() && bin.Valid() && fake.ToRead() >= CharSize && bin.Room() > 0
    modifies fake, bin, bin.data, toTrans
    ensures fake.Valid() && bin.Valid()
    ensures fake.Unread() == old(fake.Unread())[CharSize..]
    ensures bin.Unread() == old(bin.Unread()) + [ByteChar(old(fake.Unread())[..CharSize])]
    ensures bin.Room() == old(bin.Room()) - 1 && fake.ToRead() == old(fake.ToRead()) - CharSize
  {
    PopChunk(fake, toTrans);
    var binByte := TransBinString(toTrans);
    bin.Push(binByte as char);
  }

  /**
   * After n rounds of huff_to_bin: `fake` has lost its first 8n unread
   * characters and `bin` has gained the n bytes they pack into.
   */
  ghost predicate Transferred(fake: FeedBuffer<char>, bin: FeedBuffer<char>,
                              fake0: seq<char>, bin0: seq<char>, n: nat)
    reads fake, fake.data, bin, bin.data
  {
    && fake.Valid() && bin.Valid()
    && 8 * n + |fake.Unread()| == |fake0|
    && fake.Unread() == fake0[8 * n..]
    && bin.Unread() == bin0 + Packed(fake0[..8 * n])
  }

  /**
   * huff_to_bin: moves eight characters at a time out of `fake` and pushes
   * the byte they stand for onto `bin`, until fewer than eight are left
   * or `bin` is full. Returns the number of bytes pushed.
   */
  method HuffToBin(fake: FeedBuffer<char>, bin: FeedBuffer<char>) returns (n: nat)
    requires fake != bin && fake.data != bin.data
    requires fake.Valid() && bin.Valid()
    modifies fake, bin, bin.data
    ensures fake.Valid() && bin.Valid()
    ensures fake.ToRead() < CharSize || bin.Room() == 0
    ensures n == old(bin.Room()) - bin.Room()
    ensures |old(fake.Unread())| == 8 * n + |fake.Unread()|
    ensures fake.Unread() == old(fake.Unread())[8 * n..]
    ensures bin.Unread() == old(bin.Unread()) + Packed(old(fake.Unread())[..8 * n])
  {
    var toTrans := new char[CharSize];
    ghost var fake0, bin0, room0 := fake.Unread(), bin.Unread(), bin.Room();
    n := 0;
    while fake.ToRead() >= CharSize && bin.Room() > 0
      invariant Transferred(fake, bin, fake0, bin0, n)
      invariant n + bin.Room() == room0
      decreases fake.ToRead()
    {
      TransferStep(fake, bin, toTrans, fake0, bin0, n);
      n := n + 1;
    }
  }

  /** One round of the huff_to_bin loop, in terms of the state before the loop. */
  method TransferStep(fake: FeedBuffer<char>, bin: FeedBuffer<char>, toTrans: array<char>,
                      ghost fake0: seq<char>, ghost bin0: seq<char>, n: nat)
    requires fake != bin && fake.data != bin.data
    requires toTrans.Length == CharSize && toTrans != fake.data && toTrans != bin.data
    requires Transferred(fake, bin, fake0, bin0, n)
    requires fake.ToRead() >= CharSize && bin.Room() > 0
    modifies fake, bin, bin.data, toTrans
    ensures Transferred(fake, bin, fake0, bin0, n + 1)
    ensures bin.Room() == old(bin.Room()) - 1 && fake.ToRead() == old(fake.ToRead()) - CharSize
  {
    assert fake.Unread()[..CharSize] == fake0[8 * n..8 * n + 8];
    TransferByte(fake, bin, toTrans);
    PackedPrefix(fake0, n);
    assert fake0[8 * (n + 1)..] == fake0[8 * n..][CharSize..];
  }
}
