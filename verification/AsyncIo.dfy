/** The growable ring buffer of src/base/system.cpp behind asynchronous file output. */
module AsyncIo {
  import opened Utf8
  import opened Sequences
  import opened Arith

  const ASYNC_BUFSIZE: nat := 8 * 1024
  const ASYNC_LOCAL_BUFSIZE: nat := 64 * 1024
  const LARGEST: nat := 0x8000_0000

  /** How much of the pending bytes the worker takes in one round. */
  function DrainCount(queue: seq<Byte>): (n: nat)
    ensures n <= |queue|
    ensures queue != [] ==> n > 0
  {
    if |queue| < 65536 then |queue| else 65536
  }

  // ---- doubling with 32-bit wrap-around ----

  /** An unsigned int after n times `cur_size *= 2`. */
  function Doubled(size: nat, n: nat): nat {
    if n == 0 then size else (2 * Doubled(size, n - 1)) % WORD32
  }

  function SizeAt(k: nat): nat {
    if k == 0 then 0x2000 else 2 * SizeAt(k - 1)
  }

  /** The ring starts with ASYNC_BUFSIZE bytes and is doubled up to 2^31. */
  ghost predicate IsBufferSize(size: nat) {
    exists k: nat :: k <= 18 && size == SizeAt(k)
  }

  lemma {:induction false} SizesGrow(j: nat, k: nat)
    requires j <= k
    ensures 0x2000 <= SizeAt(j) <= SizeAt(k)
    ensures j < k ==> 2 * SizeAt(j) <= SizeAt(k)
    decreases k
  {
    if j < k {
      SizesGrow(j, k - 1);
    } else if k > 0 {
      SizesGrow(k - 1, k - 1);
    }
  }

  lemma BufferSizeBounds(size: nat)
    requires IsBufferSize(size)
    ensures 0x2000 <= size <= LARGEST
    ensures size < LARGEST ==> IsBufferSize(2 * size)
  {
    var k: nat :| k <= 18 && size == SizeAt(k);
    assert SizeAt(9) == 0x40_0000 && SizeAt(18) == LARGEST;
    SizesGrow(k, 18);
    assert SizeAt(k + 1) == 2 * size;
  }

  lemma {:induction false} DoublingSticks(size: nat, n: nat)
    requires IsBufferSize(size)
    ensures Doubled(size, n) == 0 || IsBufferSize(Doubled(size, n))
  {
    if n > 0 {
      DoublingSticks(size, n - 1);
      if Doubled(size, n - 1) != 0 {
        BufferSizeBounds(Doubled(size, n - 1));
      }
    }
  }

  lemma {:induction false} DoublingReaches(size: nat, need: nat)
    returns (n: nat)
    requires IsBufferSize(size) && need <= LARGEST
    ensures Doubled(size, n) >= need
    decreases LARGEST - size
  {
    BufferSizeBounds(size);
    if size >= need {
      n := 0;
    } else {
      var m := DoublingReaches(2 * size, need);
      DoubleFirst(size, m);
      n := m + 1;
    }
  }

  lemma {:induction false} DoubleFirst(size: nat, n: nat)
    requires 2 * size < WORD32
    ensures Doubled(size, n + 1) == Doubled(2 * size, n)
  {
    if n > 0 { DoubleFirst(size, n - 1); }
  }

  /** The doubling loop ends exactly for needs of at most 2^31 bytes; beyond, the unsigned size
      wraps to 0 and stays there. */
  lemma DoublingEndsIff(size: nat, need: nat)
    requires IsBufferSize(size)
    ensures (exists n: nat :: Doubled(size, n) >= need) <==> need <= LARGEST
  {
    if need <= LARGEST {
      var n := DoublingReaches(size, need);
    } else {
      forall n: nat ensures Doubled(size, n) < need {
        DoublingSticks(size, n);
        if Doubled(size, n) != 0 { BufferSizeBounds(Doubled(size, n)); }
      }
    }
  }

  /** The doubling loop, started at `size`, ends after n turns. */
  ghost predicate LoopEndsAt(size: nat, need: nat, n: nat) {
    Doubled(size, n) >= need && forall m: nat :: m < n ==> Doubled(size, m) < need
  }

  lemma {:induction false} FirstEnd(size: nat, need: nat, n: nat) returns (k: nat)
    requires Doubled(size, n) >= need
    ensures LoopEndsAt(size, need, k)
    decreases n
  {
    k := n;
    if m: nat :| m < n && Doubled(size, m) >= need {
      k := FirstEnd(size, need, m);
    }
  }

  lemma DoubledBound(size: nat, n: nat)
    requires IsBufferSize(size)
    ensures Doubled(size, n) <= LARGEST
  {
    DoublingSticks(size, n);
    if Doubled(size, n) != 0 { BufferSizeBounds(Doubled(size, n)); }
  }

  /** What a write of d bytes to a ring with len bytes does when it does not fit in place: the needed
      size is computed modulo 2^32.  The loop ends with a buffer that holds everything if and only if
      at most 2^31 bytes are needed; for needs above that and below 2^32 it never ends, and beyond it
      ends with a buffer that is too small. */
  lemma GrowthOutcome(size: nat, len: nat, d: nat)
    requires IsBufferSize(size) && len < size && d < WORD32 && d >= size - len
    ensures var sum, need := len + d + 1, (len + d + 1) % WORD32;
            && ((exists n: nat :: LoopEndsAt(size, need, n) && Doubled(size, n) > len + d) <==> sum <= LARGEST)
            && ((forall n: nat :: !LoopEndsAt(size, need, n)) <==> LARGEST < sum < WORD32)
            && ((exists n: nat :: LoopEndsAt(size, need, n) && Doubled(size, n) <= len + d) <==> sum >= WORD32)
  {
    hide Doubled, IsBufferSize;
    var sum, need := len + d + 1, (len + d + 1) % WORD32;
    BufferSizeBounds(size);
    assert need == if sum < WORD32 then sum else sum - WORD32;
    DoublingEndsIff(size, need);
    if need <= LARGEST {
      var m: nat :| Doubled(size, m) >= need;
      var n := FirstEnd(size, need, m);
      DoubledBound(size, n);
    }
    forall n: nat ensures Doubled(size, n) <= LARGEST {
      DoubledBound(size, n);
    }
  }

  /** The size that the loop arrives at. */
  ghost function NextSize(size: nat, need: nat): (n: nat)
    requires IsBufferSize(size) && need <= LARGEST
    ensures IsBufferSize(n) && n >= need && n >= size && (n == size || n < 2 * need)
    decreases LARGEST - size
  {
    if size >= need then size
    else
      BufferSizeBounds(size);
      NextSize(2 * size, need)
  }

  /** next_buffer_size */
  method NextBufferSize(curSize: nat, needSize: nat) returns (size: nat)
    requires IsBufferSize(curSize) && needSize <= LARGEST
    ensures size == NextSize(curSize, needSize)
    ensures IsBufferSize(size) && size >= needSize && size >= curSize
    ensures size == curSize || size < 2 * needSize
  {
    hide IsBufferSize, NextSize;
    size := curSize;
    while size < needSize
      invariant IsBufferSize(size) && NextSize(size, needSize) == NextSize(curSize, needSize)
      decreases LARGEST - size
    {
      NextStep(size, needSize);
      size := (size * 2) % WORD32;
    }
    NextStep(size, needSize);
  }

  lemma NextStep(size: nat, need: nat)
    requires IsBufferSize(size) && need <= LARGEST
    ensures size >= need ==> NextSize(size, need) == size
    ensures size < need ==> (size * 2) % WORD32 == 2 * size && IsBufferSize(2 * size) && size < 2 * size <= LARGEST
                            && NextSize(size, need) == NextSize(2 * size, need)
  {
    BufferSizeBounds(size);
    if size < need { BufferSizeBounds(2 * size); }
  }

  /** That size is where the wrapping loop ends. */
  lemma {:induction false} NextSizeIs(size: nat, need: nat) returns (n: nat)
    requires IsBufferSize(size) && need <= LARGEST
    ensures LoopEndsAt(size, need, n) && Doubled(size, n) == NextSize(size, need)
    decreases LARGEST - size
  {
    hide IsBufferSize, Doubled, NextSize;
    NextStep(size, need);
    NotDoubled(size);
    if size >= need {
      n := 0;
    } else {
      var k := NextSizeIs(2 * size, need);
      n := k + 1;
      DoubleFirst(size, k);
      forall m: nat | m < n ensures Doubled(size, m) < need {
        if m > 0 {
          DoubleFirst(size, m - 1);
          assert Doubled(2 * size, m - 1) < need;
        }
      }
    }
  }

  lemma NotDoubled(size: nat)
    ensures Doubled(size, 0) == size
  {
  }

  // ---- the ring ----

  /** The pending bytes of a buffer m read from r and written at w. */
  function RingBytes(m: seq<Byte>, r: nat, w: nat): seq<Byte>
    requires r <= |m| && w <= |m|
  {
    if r <= w then m[r..w] else m[r..] + m[..w]
  }

  /** m with d copied over it from position p on. */
  function Overlay(m: seq<Byte>, p: nat, d: seq<Byte>): (o: seq<Byte>)
    requires p + |d| <= |m|
    ensures |o| == |m|
  {
    m[..p] + d + m[p + |d|..]
  }

  /** mem_copy of the bytes d into dst from position p on. */
  method MemCopy(dst: array<Byte>, p: nat, d: seq<Byte>)
    requires p + |d| <= dst.Length
    modifies dst
    ensures dst[..] == Overlay(old(dst[..]), p, d)
  {
    forall i | 0 <= i < |d| { dst[p + i] := d[i]; }
  }

  /** Two copies one after the other at the front of a buffer. */
  lemma OverlayTwice(m: seq<Byte>, d: seq<Byte>, e: seq<Byte>)
    requires |d| + |e| <= |m|
    ensures Overlay(Overlay(m, 0, d), |d|, e)[..|d| + |e|] == d + e
  {
    assert Overlay(m, 0, d)[..|d|] == d;
  }

  lemma TwoOverlays(m: seq<Byte>, d: seq<Byte>, e: seq<Byte>)
    requires |d| + |e| <= |m|
    ensures Overlay(Overlay(m, 0, d), |d|, e) == Overlay(m, 0, d + e)
  {
    assert Overlay(m, 0, d)[|d| + |e|..] == m[|d| + |e|..];
  }

  lemma WrapMod(x: nat, n: nat)
    requires 0 < n && x < 2 * n
    ensures x % n == if x < n then x else x - n
  {
  }

  lemma WriteFits(m: seq<Byte>, r: nat, w: nat, d: seq<Byte>)
    requires r < |m| && w < |m| && |RingBytes(m, r, w)| + |d| < |m| && w + |d| <= |m|
    ensures var w' := if w + |d| < |m| then w + |d| else 0;
            RingBytes(Overlay(m, w, d), r, w') == RingBytes(m, r, w) + d
  {
  }

  lemma WriteWraps(m: seq<Byte>, r: nat, w: nat, d: seq<Byte>)
    requires r < |m| && w < |m| && |RingBytes(m, r, w)| + |d| < |m| && w + |d| > |m|
    ensures var k := |m| - w;
            RingBytes(Overlay(Overlay(m, w, d[..k]), 0, d[k..]), r, |d| - k) == RingBytes(m, r, w) + d
  {
    var k := |m| - w;
    assert r <= w && |d| - k < r;
    OverlayEnds(m, r, w, d[..k], d[k..]);
    assert d == d[..k] + d[k..];
    hide RingBytes, Overlay;
    ConcatAssociates(m[r..w], d[..k], d[k..]);
  }

  lemma OverlayEnds(m: seq<Byte>, r: nat, w: nat, d: seq<Byte>, e: seq<Byte>)
    requires r <= w && w + |d| == |m| && |e| < r
    ensures RingBytes(Overlay(Overlay(m, w, d), 0, e), r, |e|) == m[r..w] + d + e
  {
    var n := m[..w] + d;
    assert Overlay(m, w, d) == n;
    var o := e + n[|e|..];
    assert Overlay(n, 0, e) == o;
    assert o[..|e|] == e;
    assert o[r..] == n[r..] == m[r..w] + d;
  }

  lemma TakeFromRing(m: seq<Byte>, r: nat, w: nat, n: nat)
    requires r < |m| && w < |m| && n <= |RingBytes(m, r, w)|
    ensures r + n < 2 * |m|
    ensures RingBytes(m, if r + n < |m| then r + n else r + n - |m|, w) == RingBytes(m, r, w)[n..]
  {
  }

  /** Capping the two pieces one after the other takes a prefix of their concatenation. */
  lemma FrontOfTwo(m: seq<Byte>, all1: seq<Byte>, all2: seq<Byte>, len1: nat, len2: nat)
    requires len1 <= |all1| && len2 <= |all2| && len1 + len2 <= |m|
    requires len1 < |all1| ==> len2 == 0
    ensures Overlay(Overlay(m, 0, all1[..len1]), len1, all2[..len2])[..len1 + len2] == (all1 + all2)[..len1 + len2]
  {
    OverlayTwice(m, all1[..len1], all2[..len2]);
  }

  /** The buffer with its two positions. */
  datatype Memory = Memory(m: seq<Byte>, r: nat, w: nat)

  ghost predicate ValidMemory(c: Memory) {
    IsBufferSize(|c.m|) && c.r < |c.m| && c.w < |c.m|
  }

  /** The bytes written and not yet taken by the worker, oldest first. */
  function Pending(c: Memory): seq<Byte>
    requires c.r <= |c.m| && c.w <= |c.m|
  {
    RingBytes(c.m, c.r, c.w)
  }

  function Wrap(x: nat, n: nat): nat { if x < n then x else x - n }

  /** The memory after a write that fits in place. */
  function PutInPlace(c: Memory, data: seq<Byte>): Memory
    requires c.w < |c.m| && |data| <= |c.m|
  {
    var k := |c.m| - c.w;
    if |data| <= k then Memory(Overlay(c.m, c.w, data), c.r, Wrap(c.w + |data|, |c.m|))
    else Memory(Overlay(Overlay(c.m, c.w, data[..k]), 0, data[k..]), c.r, |data| - k)
  }

  function Fresh(n: nat): (z: seq<Byte>)
    ensures |z| == n
  {
    seq(n, _ => 0)
  }

  /** The memory after a write that makes the buffer grow. */
  ghost function PutGrown(c: Memory, data: seq<Byte>): Memory
    requires ValidMemory(c) && |Pending(c)| + |data| + 1 <= LARGEST
  {
    var all := Pending(c) + data;
    Memory(Overlay(Fresh(NextSize(|c.m|, |all| + 1)), 0, all), 0, |all|)
  }

  /** The memory after aio_write_unlocked. */
  ghost function Put(c: Memory, data: seq<Byte>): Memory
    requires ValidMemory(c) && |Pending(c)| + |data| + 1 <= LARGEST
  {
    if |data| < |c.m| - |Pending(c)| then PutInPlace(c, data) else PutGrown(c, data)
  }

  /** The memory after the worker has taken n bytes. */
  function Drained(c: Memory, n: nat): Memory
    requires c.r < |c.m| && n <= |c.m|
  {
    Memory(c.m, Wrap(c.r + n, |c.m|), c.w)
  }

  lemma PutAppends(c: Memory, data: seq<Byte>)
    requires ValidMemory(c) && |Pending(c)| + |data| + 1 <= LARGEST
    ensures ValidMemory(Put(c, data)) && Pending(Put(c, data)) == Pending(c) + data
  {
    hide IsBufferSize, RingBytes, Overlay, NextSize;
    RingLength(c.m, c.r, c.w);
    if |data| < |c.m| - |Pending(c)| {
      if c.w + |data| <= |c.m| { WriteFits(c.m, c.r, c.w, data); } else { WriteWraps(c.m, c.r, c.w, data); }
    } else {
      GrownAppends(Fresh(NextSize(|c.m|, |Pending(c) + data| + 1)), Pending(c) + data);
    }
  }

  lemma GrownAppends(m: seq<Byte>, all: seq<Byte>)
    requires |all| < |m|
    ensures RingBytes(Overlay(m, 0, all), 0, |all|) == all
  {
  }

  lemma DrainedDrops(c: Memory, n: nat)
    requires ValidMemory(c) && n <= |Pending(c)|
    ensures n <= |c.m| && ValidMemory(Drained(c, n)) && Pending(Drained(c, n)) == Pending(c)[n..]
  {
    hide IsBufferSize, RingBytes;
    RingLength(c.m, c.r, c.w);
    TakeFromRing(c.m, c.r, c.w, n);
  }

  class Ring {
    var buffer: array<Byte>
    var readPos: nat
    var writePos: nat

    ghost predicate Valid()
      reads this
    {
      IsBufferSize(buffer.Length) && readPos < buffer.Length && writePos < buffer.Length
    }

    ghost function Mem(): Memory
      reads this, buffer
    {
      Memory(buffer[..], readPos, writePos)
    }

    /** The pending bytes. */
    ghost function Contents(): seq<Byte>
      requires Valid()
      reads this, buffer
    {
      Pending(Mem())
    }

    constructor ()
      ensures Valid() && fresh(buffer) && Contents() == []
    {
      buffer := new Byte[ASYNC_BUFSIZE](_ => 0);
      readPos, writePos := 0, 0;
      new;
      assert buffer.Length == SizeAt(0);
    }

    /** buffer_ptrs: the pending bytes are len1 bytes from start1 on, then len2 bytes from 0 on. */
    method BufferPtrs() returns (start1: nat, len1: nat, len2: nat)
      requires Valid()
      ensures start1 + len1 <= buffer.Length && len2 <= buffer.Length
      ensures Contents() == buffer[start1..start1 + len1] + buffer[..len2]
      ensures readPos != writePos ==> start1 == readPos && len1 > 0
      ensures len2 > 0 ==> start1 + len1 == buffer.Length
    {
      hide IsBufferSize;
      start1, len1, len2 := 0, 0, 0;
      if readPos < writePos {
        start1, len1 := readPos, writePos - readPos;
      } else if readPos > writePos {
        start1, len1, len2 := readPos, buffer.Length - readPos, writePos;
      }
    }

    /** buffer_len */
    function BufferLen(): (n: nat)
      requires Valid()
      reads this, buffer
      ensures n == |Contents()| < buffer.Length
    {
      if writePos >= readPos then writePos - readPos else buffer.Length + writePos - readPos
    }

    /** aio_write_unlocked: appends, growing the ring when it would become full. */
    method WriteUnlocked(data: seq<Byte>)
      requires Valid() && |data| < WORD32 && |Contents()| + |data| + 1 <= LARGEST
      modifies this, buffer
      ensures Valid() && (buffer == old(buffer) || fresh(buffer))
      ensures Mem() == Put(old(Mem()), data)
      ensures Contents() == old(Contents()) + data
    {
      hide IsBufferSize, RingBytes, Overlay, NextSize;
      BufferSizeBounds(buffer.Length);
      PutAppends(Mem(), data);
      var remaining := buffer.Length - BufferLen();
      if |data| < remaining {
        WriteInPlace(data);
      } else {
        var newWritten := (BufferLen() + |data| + 1) % WORD32;
        var nextSize := NextBufferSize(buffer.Length, newWritten);
        var nextBuffer := new Byte[nextSize](_ => 0);
        assert nextBuffer[..] == Fresh(nextSize);
        var nextLen := CopyPending(nextBuffer);
        MemCopy(nextBuffer, nextLen, data);
        TwoOverlays(Fresh(nextSize), Contents(), data);
        nextLen := nextLen + |data|;
        buffer, readPos, writePos := nextBuffer, 0, nextLen;
      }
    }

    /** Copies the pending bytes to the front of a new buffer. */
    method CopyPending(nextBuffer: array<Byte>) returns (nextLen: nat)
      requires Valid() && nextBuffer != buffer && BufferLen() <= nextBuffer.Length
      modifies nextBuffer
      ensures nextLen == BufferLen() && nextBuffer[..] == Overlay(old(nextBuffer[..]), 0, Contents())
    {
      hide IsBufferSize, RingBytes;
      var start1, len1, len2 := BufferPtrs();
      ghost var m, all1, all2 := buffer[..], buffer[start1..start1 + len1], buffer[..len2];
      assert |Contents()| == len1 + len2;
      TwoOverlays(nextBuffer[..], all1, all2);
      nextLen := 0;
      MemCopy(nextBuffer, nextLen, buffer[start1..start1 + len1]);
      nextLen := nextLen + len1;
      MemCopy(nextBuffer, nextLen, buffer[..len2]);
      nextLen := nextLen + len2;
      assert buffer[..] == m;
    }

    /** The branch of aio_write_unlocked that finds room, around the end of the buffer if need be. */
    method WriteInPlace(data: seq<Byte>)
      requires Valid() && |Contents()| + |data| < buffer.Length
      modifies this`writePos, buffer
      ensures Valid() && Mem() == PutInPlace(old(Mem()), data)
    {
      hide IsBufferSize, RingBytes, Overlay;
      var rest := data;
      var contiguous := buffer.Length - writePos;
      if |rest| > contiguous {
        MemCopy(buffer, writePos, rest[..contiguous]);
        rest := rest[contiguous..];
        writePos := 0;
      }
      MemCopy(buffer, writePos, rest);
      WrapMod(writePos + |rest|, buffer.Length);
      writePos := (writePos + |rest|) % buffer.Length;
    }

    /** The copy in aio_thread: fills the local buffer with the oldest bytes. */
    method CopyFront(local: array<Byte>) returns (localLen: nat)
      requires Valid() && local.Length == ASYNC_LOCAL_BUFSIZE && local != buffer
      modifies local
      ensures localLen == DrainCount(Contents()) && local[..localLen] == Contents()[..localLen]
    {
      hide IsBufferSize, RingBytes, Overlay;
      var start1, len1, len2 := BufferPtrs();
      ghost var all1, all2, before := buffer[start1..start1 + len1], buffer[..len2], local[..];
      len1 := CopyPiece(local, 0, start1, len1);
      assert buffer[0..len2] == all2;
      len2 := CopyPiece(local, len1, 0, len2);
      localLen := len1 + len2;
      FrontOfTwo(before, all1, all2, len1, len2);
    }

    /** One of the two pieces, as much of it as the local buffer takes. */
    method CopyPiece(local: array<Byte>, localLen: nat, start: nat, len: nat) returns (n: nat)
      requires local != buffer && localLen <= local.Length && start + len <= buffer.Length
      modifies local
      ensures n == if len > local.Length - localLen then local.Length - localLen else len
      ensures local[..] == Overlay(old(local[..]), localLen, buffer[start..start + len][..n])
    {
      hide Overlay;
      n := len;
      if n > local.Length - localLen {
        n := local.Length - localLen;
      }
      assert buffer[start..start + n] == buffer[start..start + len][..n];
      MemCopy(local, localLen, buffer[start..start + n]);
    }

    /** One round of aio_thread under the lock: the oldest bytes move to the local buffer. */
    method Drain(local: array<Byte>) returns (localLen: nat)
      requires Valid() && local.Length == ASYNC_LOCAL_BUFSIZE && local != buffer
      modifies this`readPos, local
      ensures Valid() && localLen == DrainCount(old(Contents())) <= local.Length
      ensures local[..localLen] == old(Contents())[..localLen]
      ensures Mem() == Drained(old(Mem()), localLen) && Contents() == old(Contents())[localLen..]
    {
      hide IsBufferSize, RingBytes;
      ghost var m := buffer[..];
      localLen := CopyFront(local);
      assert buffer[..] == m;
      DrainedDrops(Mem(), localLen);
      WrapMod(readPos + localLen, buffer.Length);
      readPos := (readPos + localLen) % buffer.Length;
    }
  }

  lemma RingLength(m: seq<Byte>, r: nat, w: nat)
    requires r < |m| && w < |m|
    ensures |RingBytes(m, r, w)| < |m|
  {
  }
}
