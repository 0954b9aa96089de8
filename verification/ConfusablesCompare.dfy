/** The comparison of src/base/unicode/confusables.cpp: two strings are confusable when their
    characters, each replaced by its decomposition, give the same list. */
module ConfusablesCompare {
  import opened Utf8
  import opened Utf8Strings
  import opened Sequences
  import opened ConfusablesTable
  import Confusables

  /** The tables can be searched, and all slices lie inside the data. */
  ghost predicate Ready(r: Tables) {
    && |r.slices| == |r.chars| && (forall i, j :: 0 <= i < j < |r.chars| ==> r.chars[i] < r.chars[j])
    && (forall s :: s in r.slices ==> s.length < |r.lengths| && s.offset + r.lengths[s.length] <= |r.data|)
  }

  /** What the tables say about a character. */
  ghost function Entry(r: Tables, ch: int): seq<int>
    requires Ready(r)
  {
    if ch in r.chars then
      var s := r.slices[IndexOf(r.chars, ch)];
      assert s in r.slices;
      r.data[s.offset..s.offset + r.lengths[s.length]]
    else [ch]
  }

  /** The skeleton of a list of characters. */
  ghost function SkeletonOf(r: Tables, cs: seq<int>): seq<int>
    requires Ready(r)
  {
    if cs == [] then [] else Entry(r, cs[0]) + SkeletonOf(r, cs[1..])
  }

  /** A 0 ends a skeleton, as it ends a string. */
  function UpToZero(s: seq<int>): (t: seq<int>)
    ensures t <= s && (|t| < |s| ==> s[|t|] == 0)
  {
    if s == [] || s[0] == 0 then [] else [s[0]] + UpToZero(s[1..])
  }

  lemma UpToZeroEmpty()
    ensures UpToZero([]) == []
  {
  }

  lemma UpToZeroFirst(c: int, s: seq<int>)
    ensures UpToZero([c] + s) == if c == 0 then [] else [c] + UpToZero(s)
  {
    assert ([c] + s)[1..] == s;
  }

  /** The next len data from position `at` on, and the skeleton of the string from the cursor on. */
  ghost function Pending(r: Tables, str: seq<Byte>, at: nat, len: nat, cursor: nat): seq<int>
    requires Ready(r) && cursor <= |str| && (len > 0 ==> at + len <= |r.data|)
  {
    (if len > 0 then r.data[at..at + len] else []) + SkeletonOf(r, CodePoints(str[cursor..]))
  }

  lemma PendingWhole(r: Tables, str: seq<Byte>)
    requires Ready(r)
    ensures Pending(r, str, 0, 0, 0) == SkeletonOf(r, CodePoints(str))
  {
    assert str[0..] == str;
  }

  lemma PendingNext(r: Tables, str: seq<Byte>, at: nat, len: nat, cursor: nat)
    requires Ready(r) && cursor <= |str| && len > 0 && at + len <= |r.data|
    ensures Pending(r, str, at, len, cursor) == [r.data[at]] + Pending(r, str, at + 1, len - 1, cursor)
  {
    hide SkeletonOf, CodePoints;
    assert r.data[at..at + len] == [r.data[at]] + r.data[at + 1..at + 1 + (len - 1)];
  }

  /** One character of the string is read. */
  lemma PendingRead(r: Tables, s: seq<Byte>, at: nat, p: nat)
    requires Ready(r) && NulFree(s) && p <= |s|
    ensures var c, n := Decode(s[p..]).0, Decode(s[p..]).1;
            && (c == 0 ==> Pending(r, s, at, 0, p) == [])
            && (c != 0 ==> 1 <= n <= |s| - p && Pending(r, s, at, 0, p) == Entry(r, c) + Pending(r, s, 0, 0, p + n))
  {
    hide Decode, Ready, Entry;
    DecodeZeroIffEnd(s[p..]);
    if p < |s| {
      StepAt(s, p);
    }
  }

  lemma PendingFound(r: Tables, s: seq<Byte>, at: nat, len: nat, p: nat)
    requires Ready(r) && p <= |s| && (len > 0 ==> at + len <= |r.data|)
    ensures (if len > 0 then r.data[at..at + len] else []) + Pending(r, s, 0, 0, p) == Pending(r, s, at, len, p)
  {
    hide SkeletonOf, CodePoints;
  }

  /** struct SKELETON: a walk over the skeleton of a string, character by character. */
  class Walker {
    const tables: Tables
    const str: seq<Byte>
    var active: bool      // whether the pointer into the data is set
    var at: nat
    var len: nat
    var cursor: nat

    ghost predicate Valid()
      reads this
    {
      && Ready(tables) && NulFree(str) && cursor <= |str|
      && (len > 0 ==> active && at + len <= |tables.data|)
    }

    /** What the walk has still to give. */
    ghost function Rest(): seq<int>
      requires Valid()
      reads this
    {
      UpToZero(Pending(tables, str, at, len, cursor))
    }

    /** str_utf8_skeleton_begin */
    constructor (tables: Tables, str: seq<Byte>)
      requires Ready(tables) && NulFree(str)
      ensures Valid() && Rest() == UpToZero(SkeletonOf(tables, CodePoints(str)))
    {
      this.tables, this.str := tables, str;
      active, at, len, cursor := false, 0, 0, 0;
      new;
      PendingWhole(tables, str);
    }

    /** str_utf8_skeleton_next: the next character of the skeleton, and 0 at its end. */
    method Next() returns (ch: int)
      requires Valid()
      modifies this
      ensures ch == 0 ==> old(Rest()) == []
      ensures ch != 0 ==> Valid() && old(Rest()) == [ch] + Rest()
    {
      hide Ready, Pending, Decode, NulFree, Entry, UpToZero;
      ghost var rest := Pending(tables, str, at, len, cursor);
      UpToZeroEmpty();
      ch := 0;
      while len == 0
        invariant cursor <= |str| && (len == 0 || active ==> Valid() && Pending(tables, str, at, len, cursor) == rest)
        invariant len > 0 && !active ==> len == 1 && ch != 0 && rest == [ch] + Pending(tables, str, 0, 0, cursor)
        decreases |str| - cursor, if len == 0 then 1 else 0
      {
        PendingRead(tables, str, at, cursor);
        var q;
        ch, q := StrUtf8Decode(str, cursor);
        if ch == 0 {
          return 0;
        }
        cursor := q;
        SearchReady(tables);
        var found, offset, length := Skeleton(tables, ch);
        EntryOf(tables, ch, found, offset, length);
        if found { PendingFound(tables, str, offset, length, cursor); }
        active, at, len := found, offset, length;
      }
      if active { PendingNext(tables, str, at, len, cursor); } else { PendingFound(tables, str, at, 0, cursor); }
      len := len - 1;
      if active {
        ch := tables.data[at];
        at := at + 1;
      }
      assert rest == [ch] + Pending(tables, str, at, len, cursor);
      UpToZeroFirst(ch, Pending(tables, str, at, len, cursor));
    }
  }

  lemma SearchReady(r: Tables)
    requires Ready(r)
    ensures |r.slices| == |r.chars| && forall s :: s in r.slices ==> s.length < |r.lengths|
    ensures forall i, j :: 0 <= i < j < |r.chars| ==> r.chars[i] < r.chars[j]
  {
  }

  /** What the search finds is the entry. */
  lemma EntryOf(r: Tables, ch: int, found: bool, offset: nat, length: nat)
    requires Ready(r) && (found <==> ch in r.chars)
    requires found ==> exists i :: 0 <= i < |r.chars| && r.chars[i] == ch && r.slices[i].length < |r.lengths| &&
                                   offset == r.slices[i].offset && length == r.lengths[r.slices[i].length]
    requires !found ==> length == 1
    ensures if found then offset + length <= |r.data| && Entry(r, ch) == r.data[offset..offset + length]
            else Entry(r, ch) == [ch]
  {
    hide IndexOf;
    if found {
      var i :| 0 <= i < |r.chars| && r.chars[i] == ch && r.slices[i].length < |r.lengths| &&
               offset == r.slices[i].offset && length == r.lengths[r.slices[i].length];
      assert r.slices[i] in r.slices;
      assert i == IndexOf(r.chars, ch);
    }
  }

  /** str_utf8_to_skeleton: as much of the skeleton as fits. */
  method ToSkeleton(r: Tables, str: seq<Byte>, buf: array<int>, bufLen: nat) returns (n: nat)
    requires Ready(r) && NulFree(str) && bufLen <= buf.Length
    modifies buf
    ensures var s := UpToZero(SkeletonOf(r, CodePoints(str)));
            n == Min(|s|, bufLen) && buf[..n] == s[..n]
    ensures forall k :: n <= k < buf.Length ==> buf[k] == old(buf[k])
  {
    hide Ready, SkeletonOf, CodePoints, NulFree, Pending, UpToZero;
    ghost var s := UpToZero(SkeletonOf(r, CodePoints(str)));
    var w := new Walker(r, str);
    n := 0;
    while n < bufLen
      invariant n <= bufLen && w.Valid() && n <= |s| && s == buf[..n] + w.Rest()
      invariant forall k :: n <= k < buf.Length ==> buf[k] == old(buf[k])
      invariant fresh(w)
    {
      var ch := w.Next();
      if ch == 0 {
        break;
      }
      ghost var before := buf[..n];
      buf[n] := ch;
      assert buf[..n + 1] == before + [ch];
      n := n + 1;
    }
  }

  /** str_utf8_comp_confusable: 0 for confusable strings. */
  method CompConfusable(r: Tables, str1: seq<Byte>, str2: seq<Byte>) returns (differs: int)
    requires Ready(r) && NulFree(str1) && NulFree(str2)
    ensures differs == 0 || differs == 1
    ensures differs == 0 <==> UpToZero(SkeletonOf(r, CodePoints(str1))) == UpToZero(SkeletonOf(r, CodePoints(str2)))
  {
    hide Ready, SkeletonOf, CodePoints, NulFree, Pending, UpToZero;
    ghost var s1, s2 := UpToZero(SkeletonOf(r, CodePoints(str1))), UpToZero(SkeletonOf(r, CodePoints(str2)));
    var w1 := new Walker(r, str1);
    var w2 := new Walker(r, str2);
    ghost var done := [];
    while true
      invariant w1.Valid() && w2.Valid() && fresh(w1) && fresh(w2) && w1 != w2
      invariant s1 == done + w1.Rest() && s2 == done + w2.Rest()
      decreases |w1.Rest()|
    {
      ghost var rest1, rest2 := w1.Rest(), w2.Rest();
      var ch1 := w1.Next();
      var ch2 := w2.Next();
      SameFirst(done, rest1, rest2);
      if ch1 == 0 || ch2 == 0 {
        return if ch1 != ch2 then 1 else 0;
      }
      if ch1 != ch2 {
        return 1;
      }
      ConcatAssociates(done, [ch1], w1.Rest());
      ConcatAssociates(done, [ch2], w2.Rest());
      done := done + [ch1];
    }
  }

  lemma SameFirst(p: seq<int>, a: seq<int>, b: seq<int>)
    ensures p + a == p + b <==> a == b
    ensures a != [] && b != [] && a[0] != b[0] ==> a != b
  {
    if p + a == p + b {
      assert (p + a)[|p|..] == a && (p + b)[|p|..] == b;
    }
  }

  // ---- the tables stand for the plain map ----

  /** What the script writes, with the last offset below 2^13. */
  ghost predicate Generated(t: Table, keys: seq<int>, ls: seq<seq<int>>, lengths: seq<nat>, r: Tables) {
    && Listed(t, keys, ls, lengths) && |lengths| <= 8 && LastOffset(ls) < 8192
    && Written(t, keys, ls, lengths, r)
  }

  lemma GeneratedSlice(t: Table, keys: seq<int>, ls: seq<seq<int>>, lengths: seq<nat>, r: Tables, i: nat)
    requires Generated(t, keys, ls, lengths, r) && i < |keys|
    ensures |r.slices| == |keys| && r.lengths == lengths
    ensures var s := r.slices[i];
            && keys[i] in t && s.length < |lengths| && s.offset + lengths[s.length] <= |r.data|
            && r.data[s.offset..s.offset + lengths[s.length]] == t[keys[i]]
  {
    hide SliceOf, Flatten, IndexOf, Listed, LastOffset;
    ListedFacts(t, keys, ls, lengths);
    assert keys[i] in keys;
    TableReadsBack(t, ls, lengths, keys, keys[i]);
  }

  /** Each entry of the packed tables is the decomposition of the plain map. */
  lemma EntryIsDecomposition(t: Table, keys: seq<int>, ls: seq<seq<int>>, lengths: seq<nat>, r: Tables, ch: int)
    requires Generated(t, keys, ls, lengths, r)
    ensures Ready(r) && Entry(r, ch) == Confusables.Lookup(t, ch)
  {
    hide SliceOf, Flatten, IndexOf, Listed, LastOffset;
    ListedFacts(t, keys, ls, lengths);
    forall s | s in r.slices ensures s.length < |r.lengths| && s.offset + r.lengths[s.length] <= |r.data| {
      var i :| 0 <= i < |r.slices| && r.slices[i] == s;
      GeneratedSlice(t, keys, ls, lengths, r, i);
    }
    if ch in r.chars {
      GeneratedSlice(t, keys, ls, lengths, r, IndexOf(r.chars, ch));
    }
  }

  /** The skeleton is what applying the plain map to the characters gives. */
  lemma {:induction false} SkeletonIsApply(t: Table, keys: seq<int>, ls: seq<seq<int>>, lengths: seq<nat>, r: Tables,
                                           cs: seq<int>)
    requires Generated(t, keys, ls, lengths, r)
    ensures Ready(r) && SkeletonOf(r, cs) == Confusables.Apply(cs, t)
  {
    hide Generated, Entry;
    EntryIsDecomposition(t, keys, ls, lengths, r, 0);
    if cs != [] {
      EntryIsDecomposition(t, keys, ls, lengths, r, cs[0]);
      SkeletonIsApply(t, keys, ls, lengths, r, cs[1..]);
    }
  }

  lemma {:induction false} KeptDrops(l: seq<int>, ignore: set<int>)
    ensures forall c :: c in Confusables.Kept(l, ignore) ==> c !in ignore
  {
    if l != [] { KeptDrops(l[1..], ignore); }
  }

  /** Since the character 0 is ignored, no skeleton holds a 0. */
  lemma NoZero(t: Table, rules: Confusables.Rules, ignore: set<int>, cs: seq<int>)
    requires Confusables.AllEnd(rules) && Confusables.Decomposes(t, rules, ignore) && 0 in ignore
    ensures UpToZero(Confusables.Apply(cs, t)) == Confusables.Apply(cs, t)
  {
    hide Confusables.Decomposes, Confusables.Converged, Confusables.Kept;
    Confusables.StringDecomposes(t, rules, ignore, cs);
    KeptDrops(Confusables.Converged(rules, cs), ignore);
  }

  /** From the rewriting rules to the comparison: two strings count as confusable exactly when
      rewriting each of them until nothing changes, and dropping what is ignored, gives the same. */
  lemma ConfusableMeans(t: Table, keys: seq<int>, ls: seq<seq<int>>, lengths: seq<nat>, r: Tables,
                        rules: Confusables.Rules, ignore: set<int>, cs1: seq<int>, cs2: seq<int>)
    requires Generated(t, keys, ls, lengths, r)
    requires Confusables.AllEnd(rules) && Confusables.Decomposes(t, rules, ignore) && 0 in ignore
    ensures Ready(r) && Confusables.Ends(rules, cs1) && Confusables.Ends(rules, cs2)
    ensures UpToZero(SkeletonOf(r, cs1)) == UpToZero(SkeletonOf(r, cs2)) <==>
              Confusables.Kept(Confusables.Converged(rules, cs1), ignore)
              == Confusables.Kept(Confusables.Converged(rules, cs2), ignore)
  {
    hide Generated, UpToZero;
    SkeletonIsApply(t, keys, ls, lengths, r, cs1);
    SkeletonIsApply(t, keys, ls, lengths, r, cs2);
    NoZero(t, rules, ignore, cs1);
    NoZero(t, rules, ignore, cs2);
    Confusables.StringDecomposes(t, rules, ignore, cs1);
    Confusables.StringDecomposes(t, rules, ignore, cs2);
  }
}
