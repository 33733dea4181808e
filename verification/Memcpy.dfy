/** usb_memcpy: a byte copy that moves whole 32-bit words where alignment allows. */
module Memcpy {
  import opened MachineWords

  /** A C object: its bytes, and the address of its first byte. */
  datatype Buffer = Buffer(bytes: array<byte>, addr: nat)

  /** Distance of an address above the last 4-byte boundary. */
  function Misalign(b: Buffer, o: nat): nat {
    (b.addr + o) % 4
  }

  /** `was` with the first i bytes of src written at offset o. */
  ghost function Patched(was: seq<byte>, o: nat, src: seq<byte>, i: nat): (now: seq<byte>)
    requires i <= |src| && o + i <= |was|
    ensures |now| == |was|
  {
    was[..o] + src[..i] + was[o + i..]
  }

  /** Byte by byte: the copied ones come from src, the others stay. */
  lemma PatchedAt(was: seq<byte>, o: nat, src: seq<byte>, i: nat, k: nat)
    requires i <= |src| && o + i <= |was| && k < |was|
    ensures Patched(was, o, src, i)[k] == if o <= k < o + i then src[k - o] else was[k]
  {
  }

  /** Regions of n bytes at d and s do not overlap. */
  ghost predicate Disjoint(dst: Buffer, d: nat, src: Buffer, s: nat, n: nat) {
    dst.bytes != src.bytes || d + n <= s || s + n <= d
  }

  /** A word load; machines that trap need the address to be 4-aligned. */
  method LoadWord(b: Buffer, o: nat) returns (w: uint32)
    requires o + 4 <= b.bytes.Length && (b.addr + o) % 4 == 0
    ensures w == LoadLE(b.bytes[o..o + 4])
  {
    w := LoadLE(b.bytes[o..o + 4]);
  }

  /** A word store, under the same alignment rule. */
  method StoreWord(b: Buffer, o: nat, w: uint32)
    requires o + 4 <= b.bytes.Length && (b.addr + o) % 4 == 0
    modifies b.bytes
    ensures b.bytes[..] == Spliced(old(b.bytes[..]), o, StoreLE(w))
  {
    var v := StoreLE(w);
    b.bytes[o], b.bytes[o + 1], b.bytes[o + 2], b.bytes[o + 3] := v[0], v[1], v[2], v[3];
  }

  /** dword2array: the bytes of a word, written one at a time at any alignment. */
  method Dword2Array(b: Buffer, o: nat, w: uint32)
    requires o + 4 <= b.bytes.Length
    modifies b.bytes
    ensures b.bytes[..] == Spliced(old(b.bytes[..]), o, StoreLE(w))
  {
    b.bytes[o] := w % 0x100;
    b.bytes[o + 1] := w / 0x100 % 0x100;
    b.bytes[o + 2] := w / 0x1_0000 % 0x100;
    b.bytes[o + 3] := w / 0x100_0000 % 0x100;
  }

  /** One word moved: by a word store when the destination is aligned too, by bytes otherwise. */
  method MoveWord(dst: Buffer, d: nat, src: Buffer, s: nat, aligned: bool, ghost word: seq<byte>)
    requires d + 4 <= dst.bytes.Length && s + 4 <= src.bytes.Length && src.bytes[s..s + 4] == word
    requires Misalign(src, s) == 0 && (aligned ==> Misalign(dst, d) == 0)
    modifies dst.bytes
    ensures dst.bytes[..] == Spliced(old(dst.bytes[..]), d, word)
  {
    var w := LoadWord(src, s);
    StoreLoad(word);
    if aligned {
      StoreWord(dst, d, w);
    } else {
      Dword2Array(dst, d, w);
    }
  }

  /** The copy of |from| bytes from source memory S at s to destination memory D at d has moved its first i
      bytes: `was` is the old destination, `from` the bytes to copy. */
  ghost predicate MovedIn(D: seq<byte>, d: nat, S: seq<byte>, s: nat, was: seq<byte>, from: seq<byte>, i: nat) {
    && i <= |from| && d + |from| <= |was| && |was| == |D| && s + |from| <= |S|
    && S[s..s + |from|] == from
    && D == Patched(was, d, from, i)
  }

  /** Writing w at offset a leaves a region that does not overlap it alone. */
  lemma SpliceKeeps(p: seq<byte>, a: nat, w: seq<byte>, s: nat, n: nat)
    requires a + |w| <= |p| && s + n <= |p| && (a + |w| <= s || s + n <= a)
    ensures Spliced(p, a, w)[s..s + n] == p[s..s + n]
  {
  }

  /** Patching k more bytes onto i patched ones. */
  lemma PatchMore(was: seq<byte>, o: nat, from: seq<byte>, i: nat, k: nat)
    requires i + k <= |from| && o + |from| <= |was|
    ensures Spliced(Patched(was, o, from, i), o + i, from[i..i + k]) == Patched(was, o, from, i + k)
  {
    assert from[..i + k] == from[..i] + from[i..i + k];
  }

  /** Moving the next k bytes is k steps of the copy, also when source and destination share memory. */
  lemma MoreMoved(D: seq<byte>, d: nat, S: seq<byte>, s: nat, was: seq<byte>, from: seq<byte>, i: nat, k: nat,
                  shared: bool)
    requires MovedIn(D, d, S, s, was, from, i) && i + k <= |from|
    requires shared ==> D == S && (d + |from| <= s || s + |from| <= d)
    ensures S[s + i..s + i + k] == from[i..i + k]
    ensures var D' := Spliced(D, d + i, from[i..i + k]);
      MovedIn(D', d, if shared then D' else S, s, was, from, i + k)
  {
    var x, y := S[s + i..s + i + k], from[i..i + k];
    forall j | 0 <= j < |x|
      ensures x[j] == y[j]
    {
      assert S[s..s + |from|][i + j] == from[i + j];
    }
    PatchMore(was, d, from, i, k);
    if shared {
      SpliceKeeps(D, d + i, from[i..i + k], s, |from|);
    }
  }

  ghost predicate Moved(dst: Buffer, d: nat, src: Buffer, s: nat, was: seq<byte>, from: seq<byte>, i: nat)
    reads dst.bytes, src.bytes
  {
    Disjoint(dst, d, src, s, |from|) && MovedIn(dst.bytes[..], d, src.bytes[..], s, was, from, i)
  }

  /** A byte move is one step of the copy. */
  method ByteStep(dst: Buffer, d: nat, src: Buffer, s: nat, ghost was: seq<byte>, ghost from: seq<byte>, i: nat)
    requires Moved(dst, d, src, s, was, from, i) && i < |from|
    modifies dst.bytes
    ensures Moved(dst, d, src, s, was, from, i + 1)
  {
    MoreMoved(dst.bytes[..], d, src.bytes[..], s, was, from, i, 1, dst.bytes == src.bytes);
    ghost var D, S := dst.bytes[..], src.bytes[..];
    assert src.bytes[..][s + i..s + i + 1] == [src.bytes[s + i]];
    dst.bytes[d + i] := src.bytes[s + i];
    assert dst.bytes[..] == Spliced(D, d + i, from[i..i + 1]);
    assert dst.bytes != src.bytes ==> src.bytes[..] == S;
  }

  /** Word accesses at offset i are aligned on every side that uses them. */
  ghost predicate WordAligned(dst: Buffer, d: nat, src: Buffer, s: nat, aligned: bool, i: nat) {
    Misalign(src, s + i) == 0 && (aligned ==> Misalign(dst, d + i) == 0)
  }

  lemma NextAligned(dst: Buffer, d: nat, src: Buffer, s: nat, aligned: bool, i: nat)
    requires WordAligned(dst, d, src, s, aligned, i)
    ensures WordAligned(dst, d, src, s, aligned, i + 4)
  {
  }

  /** A word move is four steps of the copy. */
  method WordStep(dst: Buffer, d: nat, src: Buffer, s: nat, aligned: bool,
                  ghost was: seq<byte>, ghost from: seq<byte>, i: nat)
    requires Moved(dst, d, src, s, was, from, i) && i + 4 <= |from|
    requires WordAligned(dst, d, src, s, aligned, i)
    modifies dst.bytes
    ensures Moved(dst, d, src, s, was, from, i + 4)
  {
    ghost var D, S, shared := dst.bytes[..], src.bytes[..], dst.bytes == src.bytes;
    MoreMoved(D, d, S, s, was, from, i, 4, shared);
    assert src.bytes[s + i..s + i + 4] == from[i..i + 4];
    MoveWord(dst, d + i, src, s + i, aligned, from[i..i + 4]);
    assert src.bytes[..] == if shared then dst.bytes[..] else S;
  }

  /** Byte moves up to the first 4-aligned source address. */
  method AlignSource(dst: Buffer, d: nat, src: Buffer, s: nat, ghost was: seq<byte>, ghost from: seq<byte>, n: nat)
    returns (i: nat)
    requires Moved(dst, d, src, s, was, from, 0) && n == |from|
    modifies dst.bytes
    ensures Moved(dst, d, src, s, was, from, i)
    ensures i < n ==> Misalign(src, s + i) == 0
  {
    i := 0;
    while i < n && Misalign(src, s + i) != 0
      invariant Moved(dst, d, src, s, was, from, i)
    {
      ByteStep(dst, d, src, s, was, from, i);
      i := i + 1;
    }
  }

  /** The four word moves of one pass of the unrolled loop. */
  method QuadStep(dst: Buffer, d: nat, src: Buffer, s: nat, aligned: bool,
                  ghost was: seq<byte>, ghost from: seq<byte>, i: nat)
    requires Moved(dst, d, src, s, was, from, i) && i + 16 <= |from|
    requires WordAligned(dst, d, src, s, aligned, i)
    modifies dst.bytes
    ensures Moved(dst, d, src, s, was, from, i + 16)
    ensures WordAligned(dst, d, src, s, aligned, i + 16)
  {
    for j := 0 to 4
      invariant Moved(dst, d, src, s, was, from, i + 4 * j)
      invariant WordAligned(dst, d, src, s, aligned, i + 4 * j)
    {
      WordStep(dst, d, src, s, aligned, was, from, i + 4 * j);
      NextAligned(dst, d, src, s, aligned, i + 4 * j);
    }
  }

  /** Pointers equally far from a word boundary reach one together. */
  lemma AlignTogether(a: nat, b: nat, i: nat)
    requires a % 4 == b % 4
    ensures (a + i) % 4 == (b + i) % 4
  {
  }

  /** Word moves, four at a time, while sixteen bytes remain. */
  method CopyQuads(dst: Buffer, d: nat, src: Buffer, s: nat, aligned: bool,
                   ghost was: seq<byte>, ghost from: seq<byte>, start: nat, n: nat)
    returns (i: nat)
    requires Moved(dst, d, src, s, was, from, start) && n == |from|
    requires start < n ==> WordAligned(dst, d, src, s, aligned, start)
    modifies dst.bytes
    ensures Moved(dst, d, src, s, was, from, i) && n - i < 16
    ensures i < n ==> WordAligned(dst, d, src, s, aligned, i)
  {
    i := start;
    while n - i >= 16
      invariant Moved(dst, d, src, s, was, from, i)
      invariant i < n ==> WordAligned(dst, d, src, s, aligned, i)
    {
      QuadStep(dst, d, src, s, aligned, was, from, i);
      i := i + 16;
    }
  }

  /** Single word moves while four bytes remain. */
  method CopyWords(dst: Buffer, d: nat, src: Buffer, s: nat, aligned: bool,
                   ghost was: seq<byte>, ghost from: seq<byte>, start: nat, n: nat)
    returns (i: nat)
    requires Moved(dst, d, src, s, was, from, start) && n == |from|
    requires start < n ==> WordAligned(dst, d, src, s, aligned, start)
    modifies dst.bytes
    ensures Moved(dst, d, src, s, was, from, i) && n - i < 4
  {
    i := start;
    while n - i >= 4
      invariant Moved(dst, d, src, s, was, from, i)
      invariant i < n ==> WordAligned(dst, d, src, s, aligned, i)
    {
      WordStep(dst, d, src, s, aligned, was, from, i);
      NextAligned(dst, d, src, s, aligned, i);
      i := i + 4;
    }
  }

  /** Byte moves for what is left. */
  method CopyTail(dst: Buffer, d: nat, src: Buffer, s: nat,
                  ghost was: seq<byte>, ghost from: seq<byte>, start: nat, n: nat)
    requires Moved(dst, d, src, s, was, from, start) && n == |from|
    modifies dst.bytes
    ensures Moved(dst, d, src, s, was, from, n)
  {
    var i := start;
    while i < n
      invariant Moved(dst, d, src, s, was, from, i)
    {
      ByteStep(dst, d, src, s, was, from, i);
      i := i + 1;
    }
  }

  /** usb_memcpy(dst + d, src + s, n): exactly dst[d..d + n) changes, to the source bytes. */
  method UsbMemcpy(dst: Buffer, d: nat, src: Buffer, s: nat, n: nat)
    requires d + n <= dst.bytes.Length && s + n <= src.bytes.Length
    requires Disjoint(dst, d, src, s, n)
    modifies dst.bytes
    ensures dst.bytes[..] == Patched(old(dst.bytes[..]), d, old(src.bytes[s..s + n]), n)
  {
    ghost var was, from := dst.bytes[..], src.bytes[s..s + n];
    assert src.bytes[..][s..s + n] == from;
    assert was[..d] + from[..0] + was[d..] == was;
    var i := AlignSource(dst, d, src, s, was, from, n);
    var aligned := Misalign(dst, d) == Misalign(src, s);
    if aligned {
      AlignTogether(dst.addr + d, src.addr + s, i);
    }
    i := CopyQuads(dst, d, src, s, aligned, was, from, i, n);
    i := CopyWords(dst, d, src, s, aligned, was, from, i, n);
    CopyTail(dst, d, src, s, was, from, i, n);
  }
}
