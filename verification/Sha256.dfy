/** The compression of one block in src/base/hash_libtomcrypt.cpp, which works in place on eight words. */
module Sha256 {
  import opened Sha256Spec
  import opened Words

  // ---- one block ----

  ghost predicate ScheduleDone(w: seq<Word>, block: seq<Octet>, n: nat)
    requires |w| == 64 && |block| == 64 && n <= 64
  {
    forall t :: 0 <= t < n ==> w[t] == Schedule(block, t)
  }

  lemma ScheduleStep(block: seq<Octet>, t: nat)
    requires |block| == 64 && 16 <= t < 64
    ensures Schedule(block, t) ==
      ScheduleWord(Schedule(block, t - 2), Schedule(block, t - 7), Schedule(block, t - 15), Schedule(block, t - 16))
  {
    hide ScheduleWord, BlockWord;
  }

  /** The message schedule: the loops of sha_compress that fill W. */
  method FillSchedule(block: seq<Octet>, w: array<Word>)
    requires |block| == 64 && w.Length == 64
    modifies w
    ensures ScheduleDone(w[..], block, 64)
  {
    hide Schedule, SmallSigma0, SmallSigma1, BlockWord, Add;
    for i := 0 to 16
      invariant ScheduleDone(w[..], block, i)
    {
      FirstWords(block, i);
      w[i] := BlockWord(block, i);
    }
    for i := 16 to 64
      invariant ScheduleDone(w[..], block, i)
    {
      ScheduleStep(block, i);
      w[i] := Add(Add(Add(SmallSigma1(w[i - 2]), w[i - 7]), SmallSigma0(w[i - 15])), w[i - 16]);
    }
  }

  lemma FirstWords(block: seq<Octet>, t: nat)
    requires |block| == 64 && t < 16
    ensures Schedule(block, t) == BlockWord(block, t)
  {
  }

  /** One pass of the 64-round loop: the RND macro on S[0..8] and the rotation after it. */
  method RoundInPlace(s: array<Word>, k: Word, w: Word)
    requires s.Length == 8
    modifies s
    ensures Load(s[..]) == Round(Load(old(s[..])), k, w)
  {
    hide BigSigma0, BigSigma1, Ch, Maj, SrcCh, SrcMaj, Add, Load, Round;
    ghost var before := s[..];
    ChAgrees(s[4], s[5], s[6]);
    MajAgrees(s[0], s[1], s[2]);
    var t0 := Add(Add(Add(Add(s[7], BigSigma1(s[4])), SrcCh(s[4], s[5], s[6])), k), w);
    var t1 := Add(BigSigma0(s[0]), SrcMaj(s[0], s[1], s[2]));
    s[3] := Add(s[3], t0);
    s[7] := Add(t0, t1);
    var t := s[7];
    s[7] := s[6];
    s[6] := s[5];
    s[5] := s[4];
    s[4] := s[3];
    s[3] := s[2];
    s[2] := s[1];
    s[1] := s[0];
    s[0] := t;
    RoundIs(before, s[..], k, w, t0, t1);
  }

  lemma RoundIs(s: seq<Word>, n: seq<Word>, k: Word, w: Word, t0: Word, t1: Word)
    requires |s| == |n| == 8
    requires t0 == Add(Add(Add(Add(s[7], BigSigma1(s[4])), Ch(s[4], s[5], s[6])), k), w)
    requires t1 == Add(BigSigma0(s[0]), Maj(s[0], s[1], s[2]))
    requires n[0] == Add(t0, t1) && n[1] == s[0] && n[2] == s[1] && n[3] == s[2]
    requires n[4] == Add(s[3], t0) && n[5] == s[4] && n[6] == s[5] && n[7] == s[6]
    ensures Load(n) == Round(Load(s), k, w)
  {
    hide BigSigma0, BigSigma1, Ch, Maj, Add;
  }

  /** The 64 rounds of sha_compress on the working copy. */
  method RunRounds(s: array<Word>, block: seq<Octet>)
    requires s.Length == 8 && |block| == 64
    modifies s
    ensures Load(s[..]) == Rounds(Load(old(s[..])), block, 64)
  {
    hide Round, Schedule, K, Add, Load;
    ghost var v := Load(s[..]);
    var w := new Word[64](_ => 0);
    FillSchedule(block, w);
    ghost var schedule := w[..];
    for i := 0 to 64
      invariant Load(s[..]) == Rounds(v, block, i)
      invariant w[..] == schedule
    {
      assert w[i] == schedule[i] == Schedule(block, i);
      RoundInPlace(s, K(i), w[i]);
    }
  }

  lemma SumIsCompress(h: seq<Word>, s: seq<Word>, r: seq<Word>, block: seq<Octet>)
    requires |h| == |s| == |r| == 8 && |block| == 64
    requires Load(s) == Rounds(Load(h), block, 64)
    requires forall j :: 0 <= j < 8 ==> r[j] == Add(s[j], h[j])
    ensures r == Compress(h, block)
  {
    hide Rounds, Add;
    Eight(r);
  }

  lemma Eight(r: seq<Word>)
    requires |r| == 8
    ensures r == [r[0], r[1], r[2], r[3], r[4], r[5], r[6], r[7]]
  {
  }

  /** sha_compress */
  method ShaCompress(state: array<Word>, block: seq<Octet>)
    requires state.Length == 8 && |block| == 64
    modifies state
    ensures state[..] == Compress(old(state[..]), block)
  {
    hide Rounds, Add, Compress, Load;
    var s := new Word[8](_ => 0);
    ghost var h := state[..];
    for i := 0 to 8
      invariant s[..i] == h[..i] && state[..] == h
    {
      s[i] := state[i];
    }
    assert s[..] == s[..8] && h == h[..8];
    RunRounds(s, block);
    ghost var v := s[..];
    for i := 0 to 8
      invariant s[..] == v
      invariant forall j :: 0 <= j < i ==> state[j] == Add(v[j], h[j])
      invariant forall j :: i <= j < 8 ==> state[j] == h[j]
    {
      AddCommutes(state[i], s[i]);
      state[i] := Add(state[i], s[i]);
    }
    SumIsCompress(h, v, state[..], block);
  }
}
