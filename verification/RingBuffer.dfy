/** The byte ring buffer with free-running 32-bit indices. */
module RingBuffer {
  import opened MachineWords
  import opened Memcpy

  /** The n bytes found from slot o on, going around a ring of cap slots. */
  ghost function Window(p: seq<byte>, cap: nat, o: nat, n: nat): (w: seq<byte>)
    requires o < cap <= |p| && n <= cap
    ensures |w| == n
  {
    seq(n, i requires 0 <= i < n => p[Fold(o + i, cap)])
  }

  /** How many slots beyond slot o, going around, slot t lies. */
  function Rank(t: nat, o: nat, cap: nat): nat
    requires o < cap && t < cap
  {
    if t >= o then t - o else cap - o + t
  }

  /** q is p with data stored from slot o on around the ring, and nothing else changed. */
  ghost predicate Stored(p: seq<byte>, q: seq<byte>, cap: nat, o: nat, data: seq<byte>) {
    && o < cap <= |p| && |q| == |p|
    && (forall t :: 0 <= t < cap ==> q[t] == if Rank(t, o, cap) < |data| then data[Rank(t, o, cap)] else p[t])
    && q[cap..] == p[cap..]
  }

  /** Dropping from the front of a window advances its start. */
  lemma WindowDrop(p: seq<byte>, cap: nat, o: nat, n: nat, k: nat)
    requires o < cap <= |p| && k <= n <= cap
    ensures Window(p, cap, Fold(o + k, cap), n - k) == Window(p, cap, o, n)[k..]
  {
    forall i | 0 <= i < n - k
      ensures Window(p, cap, Fold(o + k, cap), n - k)[i] == Window(p, cap, o, n)[k..][i]
    {
      assert Fold(Fold(o + k, cap) + i, cap) == Fold(o + (k + i), cap);
    }
  }

  /** Storing behind a window that leaves room extends the window. */
  lemma WindowAppend(p: seq<byte>, q: seq<byte>, cap: nat, o: nat, n: nat, data: seq<byte>)
    requires o < cap && n + |data| <= cap && Stored(p, q, cap, Fold(o + n, cap), data)
    ensures Window(q, cap, o, n + |data|) == Window(p, cap, o, n) + data
  {
    forall i | 0 <= i < n + |data|
      ensures Window(q, cap, o, n + |data|)[i] == (Window(p, cap, o, n) + data)[i]
    {
      var t := Fold(o + i, cap);
      assert q[t] == if Rank(t, Fold(o + n, cap), cap) < |data| then data[Rank(t, Fold(o + n, cap), cap)] else p[t];
    }
  }

  /** Two block copies, split where the ring wraps, store data from slot o on. */
  lemma SplitStore(p: seq<byte>, cap: nat, o: nat, data: seq<byte>, remain: nat)
    requires o < cap <= |p| && |data| <= cap && remain == Min(cap - o, |data|)
    ensures Stored(p, Patched(Patched(p, o, data[..remain], remain), 0, data[remain..], |data| - remain), cap, o, data)
  {
    var q1 := Patched(p, o, data[..remain], remain);
    var q, n := Patched(q1, 0, data[remain..], |data| - remain), |data|;
    forall t | 0 <= t < cap
      ensures q[t] == if Rank(t, o, cap) < n then data[Rank(t, o, cap)] else p[t]
    {
      if t < n - remain {
        assert q[t] == data[remain + t];
      } else if o <= t < o + remain {
        assert q[t] == q1[t] == data[t - o];
      } else {
        assert q[t] == q1[t] == p[t];
      }
    }
    assert q[cap..] == p[cap..];
  }

  /** Two block copies, split where the ring wraps, fetch a window. */
  lemma SplitFetch(p: seq<byte>, cap: nat, o: nat, n: nat, remain: nat)
    requires o < cap <= |p| && n <= cap && remain == Min(cap - o, n)
    ensures Window(p, cap, o, n) == p[o..o + remain] + p[..n - remain]
  {
    forall i | 0 <= i < n
      ensures Window(p, cap, o, n)[i] == (p[o..o + remain] + p[..n - remain])[i]
    {
      assert Window(p, cap, o, n)[i] == p[Fold(o + i, cap)];
    }
  }

  lemma PatchedTwice(d: seq<byte>, x: seq<byte>, y: seq<byte>)
    requires |x| + |y| <= |d|
    ensures Patched(Patched(d, 0, x, |x|), |x|, y, |y|) == x + y + d[|x| + |y|..]
  {
  }

  lemma StoredByte(p: seq<byte>, cap: nat, i: nat, b: byte)
    requires i < cap <= |p|
    ensures Stored(p, p[i := b], cap, i, [b])
  {
    SplitStore(p, cap, i, [b], 1);
    assert p[i := b] == Patched(Patched(p, i, [b][..1], 1), 0, [b][1..], 0);
  }

  /** The unread bytes of a ring, given its wrapping write and read indices. */
  ghost function Unread(p: seq<byte>, cap: nat, wr: uint32, rd: uint32): (c: seq<byte>)
    requires 0 < cap <= |p| && Sub32(wr, rd) <= cap
    ensures |c| == Sub32(wr, rd)
  {
    Window(p, cap, SlotOf(rd, cap), Sub32(wr, rd))
  }

  /** Advancing the read index drops the oldest bytes, also when the index wraps. */
  lemma AdvanceUnread(p: seq<byte>, cap: nat, wr: uint32, rd: uint32, k: uint32)
    requires IsPow2(cap) && 0 < cap <= |p| && cap < 0x1_0000_0000 && k <= Sub32(wr, rd) <= cap
    ensures Sub32(wr, Add32(rd, k)) == Sub32(wr, rd) - k
    ensures Unread(p, cap, wr, Add32(rd, k)) == Unread(p, cap, wr, rd)[k..]
  {
    SlotMoves(rd, k, cap);
    WindowDrop(p, cap, SlotOf(rd, cap), Sub32(wr, rd), k);
  }

  /** Advancing the write index over bytes stored at it appends them, also when the index wraps. */
  lemma PublishUnread(p: seq<byte>, q: seq<byte>, cap: nat, wr: uint32, rd: uint32, data: seq<byte>)
    requires IsPow2(cap) && 0 < cap <= |p| && cap < 0x1_0000_0000 && Sub32(wr, rd) + |data| <= cap
    requires Stored(p, q, cap, SlotOf(wr, cap), data)
    ensures Sub32(Add32(wr, |data|), rd) == Sub32(wr, rd) + |data|
    ensures Unread(q, cap, Add32(wr, |data|), rd) == Unread(p, cap, wr, rd) + data
  {
    var n := Sub32(wr, rd);
    assert wr == Add32(rd, n);
    SlotMoves(rd, n, cap);
    WindowAppend(p, q, cap, SlotOf(rd, cap), n, data);
  }

  /** The last `cap` elements, or all when there are no more. */
  ghost function LastOf<T>(c: seq<T>, cap: nat): (r: seq<T>)
    ensures |r| == Min(|c|, cap)
  {
    if |c| <= cap then c else c[|c| - cap..]
  }

  /** What overwrite leaves in a ring that held c: the input is cut to its first cap bytes before it goes in. */
  ghost function Overwritten(c: seq<byte>, data: seq<byte>, cap: nat): seq<byte> {
    LastOf(c + data[..Min(|data|, cap)], cap)
  }

  /** Dropping just enough for the cut input and then appending it is what overwrite leaves. */
  lemma RoomThenInput(c: seq<byte>, data: seq<byte>, cap: nat)
    ensures var n := Min(|data|, cap); LastOf(c, cap - n) + data[..n] == Overwritten(c, data, cap)
  {
  }

  /** Overwrite keeps the last bytes of contents and input iff the input fits the ring, or its first cap bytes
      happen to equal its last ones. */
  lemma OverwriteKeepsLastExactly(c: seq<byte>, data: seq<byte>, cap: nat)
    ensures Overwritten(c, data, cap) == LastOf(c + data, cap) <==>
      |data| <= cap || data[..cap] == data[|data| - cap..]
  {
    if |data| > cap {
      assert (c + data[..cap])[|c|..] == data[..cap];
      assert LastOf(c + data[..cap], cap) == data[..cap];
      assert (c + data)[|c + data| - cap..] == data[|data| - cap..];
    } else {
      assert data[..|data|] == data;
    }
  }

  /** Three bytes into a ring of two: the first two stay. */
  lemma OverwriteExample()
    ensures Overwritten([], [1, 2, 3], 2) == [1, 2] != [2, 3] == LastOf([1, 2, 3], 2)
  {
    var data: seq<byte> := [1, 2, 3];
    assert data[..2] == [1, 2] && [] + data[..2] == [1, 2];
    assert data[1..] == [2, 3];
  }

  class Ring {
    var wr: uint32    // in: counts bytes written, wraps at 2^32
    var rd: uint32    // out: counts bytes read, wraps at 2^32
    var mask: uint32  // capacity - 1
    var pool: Buffer

    constructor () {
      wr, rd, mask := 0, 0, 0;
      var none := new byte[0];
      pool := Buffer(none, 0);
    }

    ghost predicate Valid()
      reads this, pool.bytes
    {
      && 2 <= mask + 1 < 0x1_0000_0000 && IsPow2(mask + 1) && mask + 1 <= pool.bytes.Length
      && Sub32(wr, rd) <= mask + 1
    }

    ghost function Capacity(): nat
      reads this
    {
      mask + 1
    }

    /** The bytes written and not yet read, oldest first. */
    ghost function Contents(): (c: seq<byte>)
      requires Valid()
      reads this, pool.bytes
      ensures |c| == Sub32(wr, rd)
    {
      Unread(pool.bytes[..], mask + 1, wr, rd)
    }

    /** usb_ringbuffer_init. */
    method Init(mem: Buffer, size: uint32) returns (rc: int)
      requires size <= mem.bytes.Length
      modifies this
      ensures rc == 0 || rc == -1
      ensures rc == 0 <==> size >= 2 && IsPow2(size)
      ensures rc == 0 ==> Valid() && Contents() == [] && Capacity() == size && pool == mem
      ensures rc != 0 ==> wr == old(wr) && rd == old(rd) && mask == old(mask) && pool == old(pool)
    {
      if size >= 1 {
        Pow2Test(size);
      }
      if size < 2 || And(size, size - 1) != 0 {
        return -1;
      }
      wr, rd, mask, pool := 0, 0, size - 1, mem;
      return 0;
    }

    /** usb_ringbuffer_reset. */
    method Reset()
      requires Valid()
      modifies this`wr, this`rd
      ensures Valid() && Contents() == [] && wr == 0 && rd == 0
    {
      wr, rd := 0, 0;
    }

    /** usb_ringbuffer_reset_read: the reader discards everything and leaves the writer's index alone. */
    method ResetRead()
      requires Valid()
      modifies this`rd
      ensures Valid() && Contents() == []
    {
      rd := wr;
    }

    method GetUsed() returns (n: uint32)
      requires Valid()
      ensures n == |Contents()|
    {
      n := Sub32(wr, rd);
    }

    method GetFree() returns (n: uint32)
      requires Valid()
      ensures n == Capacity() - |Contents()|
    {
      n := Sub32(Add32(mask, 1), Sub32(wr, rd));
    }

    method CheckFull() returns (full: bool)
      requires Valid()
      ensures full <==> |Contents()| == Capacity()
    {
      var used := GetUsed();
      full := used > mask;
    }

    method CheckEmpty() returns (empty: bool)
      requires Valid()
      ensures empty <==> Contents() == []
    {
      empty := wr == rd;
    }

    /** Moving the read index forward within the contents drops the oldest bytes. */
    method Advance(k: uint32)
      requires Valid() && k <= |Contents()|
      modifies this`rd
      ensures Valid() && Contents() == old(Contents())[k..]
    {
      AdvanceUnread(pool.bytes[..], mask + 1, wr, rd, k);
      rd := Add32(rd, k);
    }

    /** Moving the write index over bytes stored at it appends them. */
    method Publish(ghost before: seq<byte>, ghost data: seq<byte>, k: uint32)
      requires Valid() && k == |data| && |Contents()| + k <= Capacity()
      requires Stored(before, pool.bytes[..], mask + 1, SlotOf(wr, mask + 1), data)
      modifies this`wr
      ensures Valid()
      ensures Contents() == Unread(before, mask + 1, old(wr), rd) + data
    {
      PublishUnread(before, pool.bytes[..], mask + 1, wr, rd, data);
      wr := Add32(wr, k);
    }

    /** A block copy of the bytes d. */
    static method CopyTo(dst: Buffer, o: nat, src: Buffer, s: nat, n: nat, ghost d: seq<byte>)
      requires o + n <= dst.bytes.Length && s + n <= src.bytes.Length && src.bytes != dst.bytes
      requires src.bytes[s..s + n] == d
      modifies dst.bytes
      ensures dst.bytes[..] == Patched(old(dst.bytes[..]), o, d, n)
    {
      UsbMemcpy(dst, o, src, s, n);
    }

    /** Two block copies into the pool from slot `offset` on. */
    static method CopyIn(pool: Buffer, cap: nat, offset: nat, data: Buffer, size: nat)
      requires offset < cap <= pool.bytes.Length && size <= cap && size <= data.bytes.Length
      requires data.bytes != pool.bytes
      modifies pool.bytes
      ensures Stored(old(pool.bytes[..]), pool.bytes[..], cap, offset, data.bytes[..size])
    {
      var remain := cap - offset;
      remain := if remain > size then size else remain;
      ghost var p, d := pool.bytes[..], data.bytes[..size];
      CopyTo(pool, offset, data, 0, remain, d[..remain]);
      CopyTo(pool, 0, data, remain, size - remain, d[remain..]);
      SplitStore(p, cap, offset, d, remain);
      assert data.bytes[..size] == d;
    }

    /** Two block copies out of the pool from slot `offset` on. */
    static method CopyOut(data: Buffer, pool: Buffer, cap: nat, offset: nat, n: nat)
      requires offset < cap <= pool.bytes.Length && n <= cap && n <= data.bytes.Length
      requires data.bytes != pool.bytes
      modifies data.bytes
      ensures data.bytes[..] == Window(pool.bytes[..], cap, offset, n) + old(data.bytes[n..])
    {
      var remain := cap - offset;
      remain := if remain > n then n else remain;
      ghost var d, p := data.bytes[..], pool.bytes[..];
      CopyTo(data, 0, pool, offset, remain, p[offset..offset + remain]);
      CopyTo(data, remain, pool, 0, n - remain, p[..n - remain]);
      PatchedTwice(d, p[offset..offset + remain], p[..n - remain]);
      SplitFetch(p, cap, offset, n, remain);
    }

    /** The two block copies of write and overwrite: data[..size] goes in at the write index. */
    method StoreAtIn(data: Buffer, size: uint32)
      requires Valid() && size <= Capacity() && size <= data.bytes.Length && data.bytes != pool.bytes
      modifies pool.bytes
      ensures Stored(old(pool.bytes[..]), pool.bytes[..], mask + 1, SlotOf(wr, mask + 1), data.bytes[..size])
    {
      CopyIn(pool, mask + 1, SlotOf(wr, mask + 1), data, size);
    }

    /** The common end of write and overwrite: data[..n], for which there is room, joins the contents. */
    method Append(data: Buffer, n: uint32)
      requires Valid() && |Contents()| + n <= Capacity() && n <= data.bytes.Length && data.bytes != pool.bytes
      modifies this`wr, pool.bytes
      ensures Valid()
      ensures Contents() == old(Contents()) + data.bytes[..n]
      ensures pool.bytes[Capacity()..] == old(pool.bytes[Capacity()..])
    {
      ghost var p := pool.bytes[..];
      StoreAtIn(data, n);
      Publish(p, data.bytes[..n], n);
    }

    /** usb_ringbuffer_write: accepts as much as fits. */
    method Write(data: Buffer, size: uint32) returns (n: uint32)
      requires Valid() && size <= data.bytes.Length && data.bytes != pool.bytes
      modifies this`wr, pool.bytes
      ensures Valid()
      ensures n == Min(size, Capacity() - |old(Contents())|)
      ensures Contents() == old(Contents()) + data.bytes[..n]
      ensures pool.bytes[Capacity()..] == old(pool.bytes[Capacity()..])
    {
      var unused := GetFree();
      n := if size > unused then unused else size;
      Append(data, n);
    }

    /** The first half of overwrite: the input is cut to the capacity, and the oldest bytes make room for it. */
    method MakeRoom(size: uint32) returns (n: uint32)
      requires Valid()
      modifies this`rd
      ensures Valid() && n == Min(size, Capacity())
      ensures Contents() == LastOf(old(Contents()), Capacity() - n)
    {
      var unused := GetFree();
      n := size;
      if n > unused {
        if n > mask + 1 {
          n := mask + 1;
        }
        Advance(n - unused);
      }
    }

    /** usb_ringbuffer_overwrite: drops the oldest bytes to make room. When the input exceeds
        the capacity it is cut first, so its first bytes are the ones kept. */
    method Overwrite(data: Buffer, size: uint32) returns (n: uint32)
      requires Valid() && size <= data.bytes.Length && data.bytes != pool.bytes
      modifies this`wr, this`rd, pool.bytes
      ensures Valid()
      ensures n == Min(size, Capacity())
      ensures Contents() == Overwritten(old(Contents()), data.bytes[..size], Capacity())
      ensures pool.bytes[Capacity()..] == old(pool.bytes[Capacity()..])
    {
      ghost var c, d := Contents(), data.bytes[..size];
      n := MakeRoom(size);
      RoomThenInput(c, d, Capacity());
      assert data.bytes[..n] == d[..n];
      Append(data, n);
    }

    /** usb_ringbuffer_peek. */
    method Peek(data: Buffer, size: uint32) returns (n: uint32)
      requires Valid() && size <= data.bytes.Length && data.bytes != pool.bytes
      modifies data.bytes
      ensures Valid() && Contents() == old(Contents())
      ensures n == Min(size, |Contents()|)
      ensures data.bytes[..] == Contents()[..n] + old(data.bytes[n..])
    {
      var used := GetUsed();
      n := if size > used then used else size;
      assert Contents()[..n] == Window(pool.bytes[..], mask + 1, SlotOf(rd, mask + 1), n);
      CopyOut(data, pool, mask + 1, SlotOf(rd, mask + 1), n);
    }

    /** usb_ringbuffer_read. */
    method Read(data: Buffer, size: uint32) returns (n: uint32)
      requires Valid() && size <= data.bytes.Length && data.bytes != pool.bytes
      modifies this`rd, data.bytes
      ensures Valid()
      ensures n == Min(size, |old(Contents())|)
      ensures old(Contents()) == data.bytes[..n] + Contents()
      ensures data.bytes[n..] == old(data.bytes[n..])
    {
      n := Peek(data, size);
      Advance(n);
    }

    /** usb_ringbuffer_drop, and usb_ringbuffer_linear_read_done. */
    method Drop(size: uint32) returns (n: uint32)
      requires Valid()
      modifies this`rd
      ensures Valid()
      ensures n == Min(size, |old(Contents())|) && Contents() == old(Contents())[n..]
    {
      var used := GetUsed();
      n := if size > used then used else size;
      Advance(n);
    }

    /** One byte stored at the write index. */
    method StoreByteAtIn(b: byte)
      requires Valid()
      modifies pool.bytes
      ensures Stored(old(pool.bytes[..]), pool.bytes[..], mask + 1, SlotOf(wr, mask + 1), [b])
    {
      ghost var p := pool.bytes[..];
      pool.bytes[SlotOf(wr, mask + 1)] := b;
      StoredByte(p, mask + 1, SlotOf(wr, mask + 1), b);
    }

    /** usb_ringbuffer_write_byte. */
    method WriteByte(b: byte) returns (ok: bool)
      requires Valid()
      modifies this`wr, pool.bytes
      ensures Valid()
      ensures ok <==> |old(Contents())| < Capacity()
      ensures Contents() == if ok then old(Contents()) + [b] else old(Contents())
    {
      var full := CheckFull();
      if full {
        return false;
      }
      ghost var p := pool.bytes[..];
      StoreByteAtIn(b);
      Publish(p, [b], 1);
      return true;
    }

    /** usb_ringbuffer_overwrite_byte. */
    method OverwriteByte(b: byte)
      requires Valid()
      modifies this`wr, this`rd, pool.bytes
      ensures Valid()
      ensures Contents() == (if |old(Contents())| == Capacity() then old(Contents())[1..] else old(Contents())) + [b]
    {
      var full := CheckFull();
      if full {
        Advance(1);
      }
      ghost var p := pool.bytes[..];
      StoreByteAtIn(b);
      Publish(p, [b], 1);
    }

    /** usb_ringbuffer_peek_byte. */
    method PeekByte() returns (ok: bool, b: byte)
      requires Valid()
      ensures ok <==> Contents() != []
      ensures ok ==> b == Contents()[0]
    {
      b := 0;
      var empty := CheckEmpty();
      if empty {
        return false, b;
      }
      b := pool.bytes[SlotOf(rd, mask + 1)];
      assert Fold(SlotOf(rd, mask + 1) + 0, mask + 1) == SlotOf(rd, mask + 1);
      return true, b;
    }

    /** usb_ringbuffer_read_byte. */
    method ReadByte() returns (ok: bool, b: byte)
      requires Valid()
      modifies this`rd
      ensures Valid()
      ensures ok <==> old(Contents()) != []
      ensures old(Contents()) == if ok then [b] + Contents() else Contents()
    {
      ok, b := PeekByte();
      ghost var c := Contents();
      Advance(if ok then 1 else 0);
      assert ok ==> c == [b] + c[1..];
    }

    /** usb_ringbuffer_drop_byte. */
    method DropByte() returns (ok: bool)
      requires Valid()
      modifies this`rd
      ensures Valid()
      ensures ok <==> old(Contents()) != []
      ensures Contents() == if ok then old(Contents())[1..] else old(Contents())
    {
      var empty := CheckEmpty();
      if empty {
        return false;
      }
      Advance(1);
      return true;
    }

    /** usb_ringbuffer_linear_write_setup: the longest contiguous run of free slots at the write index. */
    method LinearWriteSetup() returns (offset: nat, size: uint32)
      requires Valid()
      ensures offset + size <= Capacity() && size <= Capacity() - |Contents()|
      ensures size == 0 <==> |Contents()| == Capacity()
      ensures size > 0 ==> offset == SlotOf(wr, Capacity())
      ensures 0 < size < Capacity() - |Contents()| ==> offset + size == Capacity()
    {
      var unused := GetFree();
      offset := SlotOf(wr, mask + 1);
      var remain := mask + 1 - offset;
      remain := if remain > unused then unused else remain;
      if remain != 0 {
        size := remain;
      } else {
        size := unused - remain;
        offset := 0;
      }
    }

    /** usb_ringbuffer_linear_read_setup: the longest contiguous prefix of the contents. */
    method LinearReadSetup() returns (offset: nat, size: uint32)
      requires Valid()
      ensures offset + size <= Capacity() && size <= |Contents()|
      ensures pool.bytes[offset..offset + size] == Contents()[..size]
      ensures size == 0 <==> Contents() == []
      ensures 0 < size < |Contents()| ==> offset + size == Capacity()
    {
      var used := GetUsed();
      offset := SlotOf(rd, mask + 1);
      var remain := mask + 1 - offset;
      remain := if remain > used then used else remain;
      SplitFetch(pool.bytes[..], mask + 1, offset, used, remain);
      if remain != 0 {
        size := remain;
      } else {
        size := used - remain;
        offset := 0;
      }
    }

    /** usb_ringbuffer_linear_write_done after the client filled slots from the write index on:
        `before` is the pool as it was at the setup, `data` what the client put there. */
    method LinearWriteDone(size: uint32, ghost before: seq<byte>, ghost data: seq<byte>) returns (n: uint32)
      requires Valid() && |before| == pool.bytes.Length && |data| == Min(size, Capacity() - |Contents()|)
      requires Stored(before, pool.bytes[..], mask + 1, SlotOf(wr, mask + 1), data)
      modifies this`wr
      ensures Valid() && n == |data|
      ensures Contents() == Unread(before, Capacity(), old(wr), rd) + data
    {
      var unused := GetFree();
      n := if size > unused then unused else size;
      Publish(before, data, n);
    }
  }
}
