/** The streaming interface of src/base/hash_libtomcrypt.cpp: whatever the chunks, the digest is
    that of their concatenation. */
module Sha256Stream {
  import opened Sha256Spec
  import opened Words
  import opened Sequences
  import Sha256

  /** The bytes of m after its last whole block. */
  function Tail(m: seq<Octet>): (t: seq<Octet>)
    ensures |t| == |m| % 64
  {
    m[|m| / 64 * 64..]
  }

  lemma {:induction false} HashLocal(m: seq<Octet>, m': seq<Octet>, n: nat)
    requires 64 * n <= |m| && 64 * n <= |m'| && m[..64 * n] == m'[..64 * n]
    ensures HashAfter(m, n) == HashAfter(m', n)
  {
    hide Compress;
    if n > 0 {
      SamePart(m, m', 64 * (n - 1), 64 * n);
      HashLocal(m, m', n - 1);
    }
  }

  lemma SamePart(m: seq<Octet>, m': seq<Octet>, i: nat, j: nat)
    requires i <= j <= |m| && j <= |m'| && m[..j] == m'[..j]
    ensures m[..i] == m'[..i] && m[i..j] == m'[i..j]
  {
    assert m[..j][..i] == m[..i] && m'[..j][..i] == m'[..i];
    assert m[..j][i..] == m[i..j] && m'[..j][i..] == m'[i..j];
  }

  lemma BlockCount(len: nat, c: nat)
    ensures len % 64 + c < 64 ==> (len + c) / 64 == len / 64 && (len + c) % 64 == len % 64 + c
    ensures len % 64 + c == 64 ==> (len + c) / 64 == len / 64 + 1 && (len + c) % 64 == 0
  {
  }

  lemma TailIs(m: seq<Octet>, n: nat)
    requires |m| / 64 == n
    ensures 64 * n <= |m| && Tail(m) == m[64 * n..]
  {
  }

  /** A chunk that does not reach the end of the block only extends the tail. */
  lemma ExtendTail(m: seq<Octet>, c: seq<Octet>)
    requires |Tail(m)| + |c| < 64
    ensures Tail(m + c) == Tail(m) + c && |m + c| / 64 == |m| / 64
    ensures HashAfter(m + c, |m| / 64) == HashAfter(m, |m| / 64)
  {
    hide HashAfter, Tail;
    var n := |m| / 64;
    BlockCount(|m|, |c|);
    TailIs(m, n);
    TailIs(m + c, n);
    assert (m + c)[64 * n..] == m[64 * n..] + c;
    assert (m + c)[..64 * n] == m[..64 * n];
    HashLocal(m + c, m, n);
  }

  /** A chunk that completes the block compresses tail and chunk. */
  lemma CompleteBlock(m: seq<Octet>, c: seq<Octet>)
    requires |Tail(m)| + |c| == 64
    ensures Tail(m + c) == [] && |m + c| / 64 == |m| / 64 + 1
    ensures HashAfter(m + c, |m| / 64 + 1) == Compress(HashAfter(m, |m| / 64), Tail(m) + c)
  {
    hide Compress, Tail;
    var n := |m| / 64;
    BlockCount(|m|, |c|);
    TailIs(m, n);
    assert (m + c)[..64 * n] == m[..64 * n];
    HashLocal(m + c, m, n);
    assert (m + c)[64 * n..64 * (n + 1)] == m[64 * n..] + c;
  }

  lemma LengthStep(n: nat)
    ensures ((512 * n) % 0x1_0000_0000_0000_0000 + 512) % 0x1_0000_0000_0000_0000 == (512 * (n + 1)) % 0x1_0000_0000_0000_0000
  {
  }

  lemma LengthEnd(len: nat)
    ensures ((512 * (len / 64)) % 0x1_0000_0000_0000_0000 + 8 * (len % 64)) % 0x1_0000_0000_0000_0000
         == (8 * len) % 0x1_0000_0000_0000_0000
  {
    assert 512 * (len / 64) + 8 * (len % 64) == 8 * len;
  }

  lemma Remainder32(n: nat)
    ensures 0 <= n % 0x1_0000_0000 <= n
    ensures n < 0x1_0000_0000 ==> n % 0x1_0000_0000 == n
  {
  }

  /** The part of a chunk that sha256_update sees: its length modulo 2^32. */
  function Cut32(data: seq<Octet>): (c: seq<Octet>)
    ensures |data| < 0x1_0000_0000 ==> c == data
  {
    Remainder32(|data|);
    data[..|data| % 0x1_0000_0000]
  }

  lemma Sofar(before: seq<Octet>, data: seq<Octet>, at: nat, n: nat)
    requires at + n <= |data|
    ensures before + data[..at] + data[at..at + n] == before + data[..at + n]
  {
    assert data[..at] + data[at..at + n] == data[..at + n];
  }

  class Context {
    const state: array<Word>
    const buf: array<Octet>
    var curlen: nat
    var length: nat
    ghost var message: seq<Octet>  // everything fed so far

    /** state is the fold over the complete blocks, buf the remainder. */
    ghost predicate Absorbed()
      reads this, state, buf
    {
      && state.Length == 8 && buf.Length == 64
      && curlen == |Tail(message)| && buf[..curlen] == Tail(message)
      && state[..] == HashAfter(message, |message| / 64)
    }

    /** In addition, length holds the bits of the complete blocks. */
    ghost predicate Valid()
      reads this, state, buf
    {
      Absorbed() && length == (512 * (|message| / 64)) % 0x1_0000_0000_0000_0000
    }

    /** sha256_init */
    constructor ()
      ensures Valid() && message == [] && fresh(state) && fresh(buf)
    {
      state := new Word[8](i requires 0 <= i < 8 => H0[i]);
      buf := new Octet[64](_ => 0);
      curlen, length := 0, 0;
      message := [];
      new;
      assert state[..] == H0;
    }

    /** Compresses one block and counts its bits. */
    method TakeBlock(block: seq<Octet>, ghost chunk: seq<Octet>)
      requires state.Length == 8 && state[..] == HashAfter(message, |message| / 64)
      requires length == (512 * (|message| / 64)) % 0x1_0000_0000_0000_0000
      requires |Tail(message)| + |chunk| == 64 && block == Tail(message) + chunk
      modifies this`length, this`message, state
      ensures message == old(message) + chunk && Tail(message) == []
      ensures state[..] == HashAfter(message, |message| / 64)
      ensures length == (512 * (|message| / 64)) % 0x1_0000_0000_0000_0000
    {
      hide HashAfter, Compress, Tail;
      CompleteBlock(message, chunk);
      Sha256.ShaCompress(state, block);
      LengthStep(|message| / 64);
      length := (length + 512) % 0x1_0000_0000_0000_0000;
      message := message + chunk;
    }

    /** memcpy of n bytes into buf, and the compression when it gets full. */
    method Buffer(chunk: seq<Octet>)
      requires Valid() && curlen + |chunk| <= 64
      modifies this`curlen, this`length, this`message, state, buf
      ensures Valid() && curlen < 64 && message == old(message) + chunk
    {
      hide HashAfter, Compress, Tail;
      ghost var tail := Tail(message);
      forall i | 0 <= i < |chunk| { buf[curlen + i] := chunk[i]; }
      assert buf[..curlen] == tail;
      assert buf[..curlen + |chunk|] == tail + chunk;
      curlen := curlen + |chunk|;
      if curlen == 64 {
        assert buf[..] == buf[..curlen];
        TakeBlock(buf[..], chunk);
        curlen := 0;
      } else {
        ExtendTail(message, chunk);
        message := message + chunk;
      }
    }

    /** The direct branch of sha_process: a whole block straight from the input. */
    method WholeBlock(block: seq<Octet>)
      requires Valid() && curlen == 0 && |block| == 64
      modifies this`length, this`message, state
      ensures Valid() && curlen == 0 && message == old(message) + block
    {
      hide HashAfter, Tail, Compress;
      assert Tail(message) + block == block;
      TakeBlock(block, block);
      assert buf[..0] == [];
    }

    /** sha_process */
    method Process(data: seq<Octet>)
      requires Valid() && curlen < 64
      modifies this`curlen, this`length, this`message, state, buf
      ensures Valid() && message == old(message) + data
    {
      hide Valid, Absorbed, Tail, HashAfter;
      ghost var before := message;
      var inlen: nat := |data|;
      var at: nat := 0;
      while inlen > 0
        invariant at + inlen == |data|
        invariant Valid() && curlen < 64 && message == before + data[..at]
        decreases inlen
      {
        var n := 64;
        if curlen == 0 && inlen >= 64 {
          WholeBlock(data[at..at + n]);
        } else {
          n := if inlen < 64 - curlen then inlen else 64 - curlen;
          Buffer(data[at..at + n]);
        }
        Sofar(before, data, at, n);
        at, inlen := at + n, inlen - n;
      }
      assert data[..at] == data;
    }

    /** sha256_update: the length is cut to 32 bits. */
    method Update(data: seq<Octet>)
      requires Valid()
      modifies this`curlen, this`length, this`message, state, buf
      ensures Valid() && message == old(message) + Cut32(data)
    {
      hide Cut32, HashAfter;
      Process(Cut32(data));
    }

    /** The zero-filling loops of sha_done. */
    method ZeroTo(limit: nat)
      requires buf.Length == 64 && curlen <= limit <= 64
      modifies this`curlen, buf
      ensures curlen == limit && buf[..limit] == old(buf[..curlen]) + Zeros(limit - old(curlen))
    {
      ghost var before, c := buf[..curlen], curlen;
      while curlen < limit
        invariant c <= curlen <= limit && buf[..curlen] == before + Zeros(curlen - c)
      {
        buf[curlen] := 0;
        curlen := curlen + 1;
        assert buf[..curlen] == buf[..curlen - 1] + [0];
      }
    }

    /** store64 into the last eight bytes of buf. */
    method StoreLength(x: nat)
      requires buf.Length == 64
      modifies buf
      ensures buf[..] == old(buf[..56]) + BigEndian64(x)
    {
      ghost var before := buf[..56];
      hide ByteOf;
      for i := 0 to 8
        invariant buf[..56] == before
        invariant forall k :: 56 <= k < 56 + i ==> buf[k] == ByteOf(x, 63 - k)
      {
        buf[56 + i] := ByteOf(x, 7 - i);
      }
      LengthBytes(buf[..], before, x);
    }

    /** The stores of the eight words at the end of sha_done. */
    method StoreState(out: array<Octet>)
      requires state.Length == 8 && out.Length == 32
      modifies out
      ensures out[..] == AllBytes(state[..])
    {
      hide WordBytes;
      ghost var h := state[..];
      for i := 0 to 8
        invariant state[..] == h && out[..4 * i] == AllBytes(h[..i])
      {
        var bytes := FourBytes(state[i]);
        ghost var before := out[..4 * i];
        forall j | 0 <= j < 4 { out[4 * i + j] := bytes[j]; }
        assert out[..4 * i] == before && out[4 * i..4 * (i + 1)] == bytes;
        assert out[..4 * (i + 1)] == out[..4 * i] + out[4 * i..4 * (i + 1)];
        assert h[..i + 1][..i] == h[..i];
        assert AllBytes(h[..i + 1]) == AllBytes(h[..i]) + bytes;
      }
      assert out[..] == out[..32] && h == h[..8];
    }

    /** The 1 bit and the zeros of sha_done, with the extra block when the length does not fit. */
    method PadTo56() returns (ghost p: seq<Octet>)
      requires Absorbed()
      modifies this`curlen, state, buf
      ensures state.Length == 8 && buf.Length == 64
      ensures p == message + [0x80] + Zeros(PadZeros(|message|)) && |Tail(p)| == 56
      ensures buf[..56] == Tail(p) && state[..] == HashAfter(p, |p| / 64)
    {
      hide HashAfter, Tail, Compress;
      ghost var m, c := message, curlen;
      PadParts(m);
      PadLength(|m|);
      buf[curlen] := 0x80;
      curlen := curlen + 1;
      assert buf[..c] == Tail(m);
      assert buf[..curlen] == Tail(m) + [0x80];
      if curlen > 56 {
        ZeroTo(64);
        ghost var chunk := [0x80] + Zeros(63 - c);
        assert buf[..] == buf[..64] == Tail(m) + chunk;
        CompleteBlock(m, chunk);
        Sha256.ShaCompress(state, buf[..]);
        m := m + chunk;
        curlen := 0;
        assert buf[..curlen] == Tail(m);
        ZeroTo(56);
        ExtendTail(m, Zeros(56));
        p := m + Zeros(56);
      } else {
        ZeroTo(56);
        ghost var chunk := [0x80] + Zeros(55 - c);
        ExtendTail(m, chunk);
        assert buf[..56] == Tail(m) + chunk;
        p := m + chunk;
      }
    }

    /** sha256_finish: pads, compresses and stores the state; the context is used up. */
    method Finish(out: array<Octet>)
      requires Valid() && out.Length == 32 && out != buf
      modifies this`curlen, this`length, state, buf, out
      ensures out[..] == Sha256Spec.Sha256(message)
    {
      hide HashAfter, Tail, BigEndian64, Compress, AllBytes, PadZeros;
      LengthEnd(|message|);
      length := (length + curlen * 8) % 0x1_0000_0000_0000_0000;
      ghost var p := PadTo56();
      StoreLength(length);
      ghost var chunk := BigEndian64(length);
      assert buf[..] == Tail(p) + chunk;
      CompleteBlock(p, chunk);
      Sha256.ShaCompress(state, buf[..]);
      assert p + chunk == Padded(message);
      BlockCount(|p|, 8);
      StoreState(out);
    }
  }

  lemma LengthBytes(b: seq<Octet>, front: seq<Octet>, x: nat)
    requires |b| == 64 && b[..56] == front && forall k :: 56 <= k < 64 ==> b[k] == ByteOf(x, 63 - k)
    ensures b == front + BigEndian64(x)
  {
    hide ByteOf;
    forall k | 0 <= k < 64 ensures b[k] == (front + BigEndian64(x))[k] {
      if k < 56 { assert b[k] == b[..56][k]; } else { assert BigEndian64(x)[k - 56] == ByteOf(x, 63 - k); }
    }
  }

  function FourBytes(w: Word): (b: seq<Octet>)
    ensures |b| == 4 && b == WordBytes(w)
  {
    WordBytes(w)
  }

  lemma ZerosAdd(a: nat, b: nat)
    ensures Zeros(a) + Zeros(b) == Zeros(a + b)
  {
  }

  /** The padding by the place where the message ends in its block. */
  lemma PadParts(m: seq<Octet>)
    ensures var c, z := |m| % 64, m + [0x80] + Zeros(PadZeros(|m|));
            && (c < 56 ==> m + ([0x80] + Zeros(55 - c)) == z)
            && (c >= 56 ==> m + ([0x80] + Zeros(63 - c)) + Zeros(56) == z)
  {
    var c := |m| % 64;
    if c >= 56 {
      ZerosAdd(63 - c, 56);
    }
  }

  /** Any split of a message into chunks of less than 2^32 bytes gives the one-shot digest. */
  method DigestOfChunks(chunks: seq<seq<Octet>>) returns (digest: seq<Octet>)
    requires forall c :: c in chunks ==> |c| < 0x1_0000_0000
    ensures digest == Sha256Spec.Sha256(Flatten(chunks))
  {
    hide Sha256Spec.Sha256, Cut32, HashAfter, Tail, Padded, Context.Valid, Context.Absorbed;
    var ctxt := new Context();
    for i := 0 to |chunks|
      invariant ctxt.Valid() && fresh(ctxt) && fresh(ctxt.state) && fresh(ctxt.buf)
      invariant ctxt.message == Flatten(chunks[..i])
    {
      assert chunks[..i + 1][..i] == chunks[..i];
      ctxt.Update(chunks[i]);
    }
    assert chunks[..|chunks|] == chunks;
    var out := new Octet[32](_ => 0);
    ctxt.Finish(out);
    digest := out[..];
  }
}
