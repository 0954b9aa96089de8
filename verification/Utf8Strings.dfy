/** The string functions of src/base/system.cpp that keep UTF-8 whole: checking, stepping,
    truncation repair, bounded copying and appending, and byte/character offsets. */
module Utf8Strings {
  import opened Utf8

  // ---- validity ----

  ghost function EncodeAll(cs: seq<int>): seq<Byte>
    requires forall c :: c in cs ==> IsScalar(c)
  {
    if cs == [] then [] else assert IsScalar(cs[0]); Encoding(cs[0]) + EncodeAll(cs[1..])
  }

  /** Every decoding step succeeds. */
  predicate Valid(s: seq<Byte>) {
    s == [] || (Decode(s).0 != -1 && Valid(Rest(s)))
  }

  function Rest(s: seq<Byte>): (r: seq<Byte>)
    requires s != []
    ensures |r| < |s|
  {
    DecodeStaysInside(s);
    s[Decode(s).1..]
  }

  function CharCount(s: seq<Byte>): nat {
    if s == [] then 0 else 1 + CharCount(Rest(s))
  }

  /** str_utf8_check */
  method StrUtf8Check(s: seq<Byte>) returns (ok: bool)
    requires NulFree(s)
    ensures ok <==> Valid(s)
  {
    hide Decode;
    var p := 0;
    while true
      invariant p <= |s| && (Valid(s[p..]) <==> Valid(s))
      decreases |s| - p
    {
      var c, q := StrUtf8Decode(s, p);
      DecodeZeroIffEnd(s[p..]);
      if c == 0 {
        return true;
      }
      if c == -1 {
        return false;
      }
      DecodeStaysInside(s[p..]);
      assert s[p..][q - p..] == s[q..];
      p := q;
    }
  }

  lemma DecodeZeroIffEnd(s: seq<Byte>)
    requires NulFree(s)
    ensures Decode(s).0 == 0 <==> s == []
  {
    if s != [] && Decode(s).0 != -1 {
      DecodeSound(s);
    }
  }

  predicate AreCharacters(cs: seq<int>) {
    forall c :: c in cs ==> IsScalar(c) && c != 0
  }

  lemma {:induction false} ValidGivesCharacters(s: seq<Byte>) returns (cs: seq<int>)
    requires NulFree(s) && Valid(s)
    ensures AreCharacters(cs) && EncodeAll(cs) == s && |cs| == CharCount(s)
  {
    hide Decode;
    cs := [];
    if s != [] {
      DecodeSound(s);
      var rest := ValidGivesCharacters(Rest(s));
      cs := [Decode(s).0] + rest;
      assert cs[1..] == rest;
    }
  }

  lemma {:induction false} CharactersAreValid(cs: seq<int>)
    requires AreCharacters(cs)
    ensures Valid(EncodeAll(cs)) && NulFree(EncodeAll(cs)) && CharCount(EncodeAll(cs)) == |cs|
  {
    hide Decode;
    if cs != [] {
      CharactersAreValid(cs[1..]);
      DecodeComplete(EncodeAll(cs), cs[0]);
      assert Rest(EncodeAll(cs)) == EncodeAll(cs[1..]);
    }
  }

  /** A string passes the check exactly when it is a sequence of RFC 3629 encodings. */
  lemma ValidIffEncoded(s: seq<Byte>)
    requires NulFree(s)
    ensures Valid(s) <==> exists cs :: AreCharacters(cs) && EncodeAll(cs) == s
  {
    hide Decode;
    if Valid(s) {
      var cs := ValidGivesCharacters(s);
    }
    if cs :| AreCharacters(cs) && EncodeAll(cs) == s {
      CharactersAreValid(cs);
    }
  }

  /** The decoded characters of a string, -1 for every decoding error. */
  function CodePoints(s: seq<Byte>): (cs: seq<int>)
    ensures |cs| <= |s|
    decreases |s|
  {
    if s == [] then [] else [Decode(s).0] + CodePoints(Rest(s))
  }

  lemma {:induction false} CodePointsOfEncoding(cs: seq<int>)
    requires AreCharacters(cs)
    ensures CodePoints(EncodeAll(cs)) == cs
  {
    if cs != [] {
      var s := EncodeAll(cs);
      DecodeComplete(s, cs[0]);
      assert Rest(s) == EncodeAll(cs[1..]);
      CodePointsOfEncoding(cs[1..]);
    }
  }

  // ---- prefixes of a valid string ----

  /** The longest prefix of whole characters with at most `bytes` bytes and `chars` characters. */
  function Floor(s: seq<Byte>, bytes: nat, chars: nat): (k: nat)
    ensures k <= |s| && k <= bytes
    decreases |s|
  {
    if s == [] || chars == 0 || Decode(s).1 > bytes then 0
    else Decode(s).1 + Floor(Rest(s), bytes - Decode(s).1, chars - 1)
  }

  /** What decodes within a prefix decodes in the same way in the whole. */
  lemma DecodeExtends(s: seq<Byte>, k: nat)
    requires NulFree(s) && 0 < k <= |s| && Decode(s[..k]).0 != -1
    ensures Decode(s) == Decode(s[..k]) && Decode(s).1 <= k
  {
    hide Decode;
    DecodeSound(s[..k]);
    DecodeComplete(s, Decode(s[..k]).0);
  }

  lemma DecodePrefix(s: seq<Byte>, k: nat)
    requires NulFree(s) && s != [] && k <= |s| && Decode(s).0 != -1
    ensures Decode(s).1 <= k ==> Decode(s[..k]) == Decode(s)
    ensures 0 < k < Decode(s).1 ==> Decode(s[..k]).0 == -1
  {
    hide Decode;
    DecodeSound(s);
    var e := Encoding(Decode(s).0);
    if |e| <= k {
      assert e == s[..k][..|e|];
      DecodeComplete(s[..k], Decode(s).0);
    } else if 0 < k && Decode(s[..k]).0 != -1 {
      DecodeExtends(s, k);
    }
  }

  lemma {:induction false} FloorIsValid(s: seq<Byte>, bytes: nat, chars: nat)
    requires NulFree(s) && Valid(s)
    ensures Valid(s[..Floor(s, bytes, chars)])
    ensures CharCount(s[..Floor(s, bytes, chars)]) <= chars
    decreases |s|
  {
    hide Decode;
    var k := Floor(s, bytes, chars);
    if k > 0 {
      DecodePrefix(s, k);
      FloorIsValid(Rest(s), bytes - Decode(s).1, chars - 1);
      var n := Decode(s).1;
      assert s[..k][n..] == Rest(s)[..k - n];
    }
  }

  /** No valid prefix within both limits is longer. */
  lemma {:induction false} FloorIsLongest(s: seq<Byte>, bytes: nat, chars: nat, k: nat)
    requires NulFree(s) && Valid(s)
    requires k <= |s| && k <= bytes && Valid(s[..k]) && CharCount(s[..k]) <= chars
    ensures k <= Floor(s, bytes, chars)
    decreases |s|
  {
    hide Decode;
    if k > 0 {
      DecodePrefix(s, k);
      var n := Decode(s).1;
      assert s[..k][n..] == Rest(s)[..k - n];
      FloorIsLongest(Rest(s), bytes - n, chars - 1, k - n);
    }
  }

  // ---- stepping ----

  predicate IsStart(c: Byte) { !(0x80 <= c < 0xC0) }

  function RewindTo(s: seq<Byte>, cursor: nat): (k: nat)
    requires cursor <= |s|
    ensures k <= cursor && (cursor > 0 ==> k < cursor)
  {
    if cursor == 0 then 0 else if IsStart(s[cursor - 1]) then cursor - 1 else RewindTo(s, cursor - 1)
  }

  /** str_utf8_rewind */
  method StrUtf8Rewind(s: seq<Byte>, start: nat) returns (cursor: nat)
    requires start <= |s|
    ensures cursor == RewindTo(s, start)
  {
    cursor := start;
    while cursor != 0
      invariant cursor <= start && RewindTo(s, cursor) == RewindTo(s, start)
    {
      cursor := cursor - 1;
      if IsStart(s[cursor]) {
        break;
      }
    }
  }

  /** The length `str_utf8_fix_truncation` leaves: a last character that does not decode is cut. */
  function FixedLength(s: seq<Byte>): (k: nat)
    ensures k <= |s|
  {
    if s == [] then 0
    else
      var last := RewindTo(s, |s|);
      if Decode(s[last..]).0 == -1 then last else |s|
  }

  lemma CharacterBytes(s: seq<Byte>, i: nat)
    requires NulFree(s) && s != [] && Decode(s).0 != -1 && i < Decode(s).1
    ensures i < |s| && (IsStart(s[i]) <==> i == 0)
  {
    DecodeSound(s);
    var e := Encoding(Decode(s).0);
    assert s[i] == e[i];
  }

  lemma {:induction false} RewindShift(s: seq<Byte>, n: nat, k: nat)
    requires n < k <= |s| && IsStart(s[n])
    ensures RewindTo(s, k) == n + RewindTo(s[n..], k - n)
    decreases k
  {
    if !IsStart(s[k - 1]) {
      RewindShift(s, n, k - 1);
    }
  }

  lemma {:induction false} RewindInside(s: seq<Byte>, k: nat)
    requires NulFree(s) && s != [] && Decode(s).0 != -1 && 0 < k <= Decode(s).1
    ensures k <= |s| && RewindTo(s, k) == 0
  {
    hide Decode;
    CharacterBytes(s, k - 1);
    if k > 1 {
      RewindInside(s, k - 1);
    }
  }

  lemma ValidStarts(s: seq<Byte>)
    requires NulFree(s) && Valid(s) && s != []
    ensures IsStart(s[0])
  {
    hide Decode;
    DecodeStaysInside(s);
    CharacterBytes(s, 0);
  }

  lemma {:induction false} RewindLocal(s: seq<Byte>, t: seq<Byte>, k: nat)
    requires k <= |s| && k <= |t| && s[..k] == t[..k]
    ensures RewindTo(s, k) == RewindTo(t, k)
  {
    if k > 0 {
      assert s[..k][k - 1] == t[..k][k - 1];
      assert s[..k - 1] == s[..k][..k - 1] == t[..k - 1];
      RewindLocal(s, t, k - 1);
    }
  }

  /** Behind its first character a string is repaired like the rest on its own. */
  lemma FixBehind(s: seq<Byte>, k: nat)
    requires NulFree(s) && Valid(s) && s != [] && Decode(s).1 < k <= |s|
    ensures FixedLength(s[..k]) == Decode(s).1 + FixedLength(Rest(s)[..k - Decode(s).1])
  {
    hide Decode, FixedLength, RewindTo;
    var n, r := Decode(s).1, Rest(s);
    ValidStarts(r);
    assert s[..k][n..] == r[..k - n];
    assert s[..k][n] == r[0];
    FixShift(s[..k], n);
  }

  lemma FixShift(t: seq<Byte>, n: nat)
    requires n < |t| && IsStart(t[n])
    ensures FixedLength(t) == n + FixedLength(t[n..])
  {
    hide Decode, RewindTo;
    RewindShift(t, n, |t|);
    var u := t[n..];
    var last := RewindTo(u, |u|);
    assert t[n + last..] == u[last..];
  }

  /** Repairing any cut of a valid string leaves its longest whole-character prefix. */
  lemma {:induction false} FixRepairsCut(s: seq<Byte>, k: nat, chars: nat)
    requires NulFree(s) && Valid(s) && k <= |s| && chars >= |s|
    ensures FixedLength(s[..k]) == Floor(s, k, chars)
    decreases |s|
  {
    hide Decode;
    if k > 0 {
      var n := Decode(s).1;
      DecodePrefix(s, k);
      if k <= n {
        RewindInside(s, k);
        RewindLocal(s[..k], s, k);
        assert s[..k][0..] == s[..k];
      } else {
        FixRepairsCut(Rest(s), k - n, chars - 1);
        FixBehind(s, k);
      }
    }
  }

  // ---- writing ----

  /** The array holds the C string s: its bytes, then a NUL. */
  ghost predicate Holds(a: array<Byte>, s: seq<Byte>)
    reads a
  {
    |s| < a.Length && a[..|s|] == s && a[|s|] == 0 && NulFree(s)
  }

  method StrLength(a: array<Byte>, ghost s: seq<Byte>) returns (n: nat)
    requires Holds(a, s)
    ensures n == |s|
  {
    n := 0;
    assert forall i :: 0 <= i < |s| ==> a[..|s|][i] == s[i];
    while a[n] != 0
      invariant n <= |s|
      invariant forall i :: 0 <= i < |s| ==> a[i] == s[i]
      decreases |s| - n
    {
      n := n + 1;
    }
  }

  /** str_utf8_fix_truncation */
  method StrUtf8FixTruncation(a: array<Byte>, ghost s: seq<Byte>) returns (n: nat)
    requires Holds(a, s)
    modifies a
    ensures n == FixedLength(s)
    ensures Holds(a, s[..n])
    ensures forall j :: n < j < a.Length ==> a[j] == old(a[j])
  {
    hide Decode;
    var len := StrLength(a, s);
    if len > 0 {
      var str := a[..len];
      var last := StrUtf8Rewind(str, len);
      var c, q := StrUtf8Decode(str, last);
      if c == -1 {
        a[last] := 0;
        assert a[..last] == s[..last];
        return last;
      }
    }
    return len;
  }

  function Min(a: int, b: int): int { if a < b then a else b }

  /** str_copy into the first dstSize bytes of dst. */
  method StrCopy(dst: array<Byte>, src: seq<Byte>, dstSize: nat) returns (n: nat)
    requires NulFree(src) && 1 <= dstSize <= dst.Length
    modifies dst
    ensures n == FixedLength(src[..Min(|src|, dstSize - 1)])
    ensures Holds(dst, src[..n])
    ensures forall j :: dstSize <= j < dst.Length ==> dst[j] == old(dst[j])
  {
    hide FixedLength;
    hide Decode;
    var m := Min(|src|, dstSize - 1);
    var i := 0;
    while i < m
      invariant i <= m && forall j :: 0 <= j < i ==> dst[j] == src[j]
      invariant forall j :: dstSize <= j < dst.Length ==> dst[j] == old(dst[j])
    {
      dst[i] := src[i];
      i := i + 1;
    }
    dst[m] := 0;
    assert dst[..m] == src[..m];
    n := StrUtf8FixTruncation(dst, src[..m]);
    assert src[..m][..n] == src[..n];
  }

  /** Copying a valid string leaves its longest valid prefix of at most dstSize - 1 bytes. */
  lemma CopyIsLongestPrefix(src: seq<Byte>, room: nat, k: nat)
    requires NulFree(src) && Valid(src)
    ensures var n := FixedLength(src[..Min(|src|, room)]);
            n <= room && Valid(src[..n]) && (k <= |src| && k <= room && Valid(src[..k]) ==> k <= n)
  {
    hide Decode;
    var m := Min(|src|, room);
    FixRepairsCut(src, m, |src|);
    FloorIsValid(src, m, |src|);
    if k <= m && Valid(src[..k]) {
      CharCountBound(src[..k]);
      FloorIsLongest(src, m, |src|, k);
    }
  }

  lemma {:induction false} CharCountBound(s: seq<Byte>)
    ensures CharCount(s) <= |s|
    decreases |s|
  {
    hide Decode;
    if s != [] { CharCountBound(Rest(s)); }
  }

  lemma SamePrefix(a: seq<Byte>, b: seq<Byte>, m: nat)
    requires m <= |a| && m <= |b| && forall k :: 0 <= k < m ==> a[k] == b[k]
    ensures a[..m] == b[..m]
  {
  }

  /** str_append: dst holds d and gets src appended within dstSize bytes. */
  method StrAppend(dst: array<Byte>, src: seq<Byte>, dstSize: nat, ghost d: seq<Byte>)
    requires Holds(dst, d) && NulFree(src) && 1 <= dstSize <= dst.Length
    modifies dst
    ensures var cut := (d + src)[..Min(|d + src|, dstSize - 1)];
            Holds(dst, cut[..FixedLength(cut)])
  {
    hide FixedLength, Decode;
    var s := StrLength(dst, d);
    assert forall k :: 0 <= k < |d| ==> dst[..|d|][k] == d[k];
    var i := 0;
    ghost var all := d + src;
    while s < dstSize
      invariant i <= |src| && s == |d| + i && s <= dst.Length
      invariant i > 0 ==> s <= dstSize
      invariant forall k :: 0 <= k < s ==> dst[k] == all[k]
    {
      dst[s] := At(src, i);
      if At(src, i) == 0 {
        break;
      }
      s := s + 1;
      i := i + 1;
    }
    ghost var m := Min(|all|, dstSize - 1);
    dst[dstSize - 1] := 0;
    SamePrefix(dst[..], all, m);
    assert dst[..m] == dst[..][..m];
    assert NulFree(all[..m]);
    var n := StrUtf8FixTruncation(dst, all[..m]);
  }

  lemma {:induction false} ValidConcat(s: seq<Byte>, t: seq<Byte>)
    requires NulFree(s) && NulFree(t) && Valid(s) && Valid(t)
    ensures Valid(s + t)
  {
    hide Decode;
    if s == [] {
      assert s + t == t;
    } else {
      assert (s + t)[..|s|] == s;
      DecodeSound(s);
      DecodeComplete(s + t, Decode(s).0);
      ValidConcat(Rest(s), t);
      assert Rest(s + t) == Rest(s) + t;
    }
  }

  /** Appending valid to valid leaves the longest valid prefix of the whole that fits. */
  lemma AppendStaysValid(d: seq<Byte>, src: seq<Byte>, room: nat, k: nat)
    requires NulFree(d) && NulFree(src) && Valid(d) && Valid(src)
    ensures var cut := (d + src)[..Min(|d + src|, room)];
            var n := FixedLength(cut);
            cut[..n] == (d + src)[..n] && Valid(cut[..n])
            && (k <= |d + src| && k <= room && Valid((d + src)[..k]) ==> k <= n)
  {
    ValidConcat(d, src);
    CopyIsLongestPrefix(d + src, room, k);
    var cut := (d + src)[..Min(|d + src|, room)];
    assert cut[..FixedLength(cut)] == (d + src)[..FixedLength(cut)];
  }

  /** str_utf8_truncate */
  method StrUtf8Truncate(dst: array<Byte>, dstSize: nat, src: seq<Byte>, truncationLen: nat)
    requires NulFree(src) && 1 <= dstSize <= dst.Length
    modifies dst
    ensures Holds(dst, src[..FixedLength(src[..Floor(src, dstSize - 1, truncationLen)])])
  {
    hide Decode;
    var size := -1;
    var cursor, pos := 0, 0;
    ghost var goal := Floor(src, dstSize - 1, truncationLen);
    while pos <= truncationLen && cursor < dstSize && size != cursor
      invariant 0 <= pos <= truncationLen + 1 && 0 <= cursor <= |src|
      invariant size == -1 ==> pos == 0 && cursor == 0
      invariant size < cursor
      invariant pos <= truncationLen && cursor < dstSize ==>
                  goal == cursor + Floor(src[cursor..], dstSize - 1 - cursor, truncationLen - pos)
      invariant !(pos <= truncationLen && cursor < dstSize) ==> size == goal
      decreases |src| - cursor
    {
      size := cursor;
      var c, q := StrUtf8Decode(src, cursor);
      DecodeZeroIffEnd(src[cursor..]);
      if c == 0 {
        break;
      }
      DecodeStaysInside(src[cursor..]);
      assert src[cursor..][q - cursor..] == src[q..];
      cursor := q;
      pos := pos + 1;
    }
    assert size == goal;
    var n := StrCopy(dst, src, size + 1);
  }

  /** On a valid string the truncation is the longest valid prefix within both limits. */
  lemma TruncateIsLongestPrefix(src: seq<Byte>, room: nat, chars: nat, k: nat)
    requires NulFree(src) && Valid(src)
    ensures var n := FixedLength(src[..Floor(src, room, chars)]);
            n == Floor(src, room, chars) && n <= room && Valid(src[..n]) && CharCount(src[..n]) <= chars
            && (k <= |src| && k <= room && Valid(src[..k]) && CharCount(src[..k]) <= chars ==> k <= n)
  {
    var f := Floor(src, room, chars);
    FloorIsValid(src, room, chars);
    var t := src[..f];
    FixRepairsCut(t, f, f);
    assert t[..f] == t;
    CharCountBound(t);
    FloorIsLongest(t, f, f, f);
    if k <= |src| && k <= room && Valid(src[..k]) && CharCount(src[..k]) <= chars {
      FloorIsLongest(src, room, chars, k);
    }
  }

  // ---- offsets ----

  /** str_utf8_forward */
  method StrUtf8Forward(s: seq<Byte>, cursor: nat) returns (n: nat)
    requires NulFree(s) && cursor <= |s|
    ensures n == if s[cursor..] == [] then cursor else cursor + Decode(s[cursor..]).1
  {
    hide Decode;
    var c, q := StrUtf8Decode(s, cursor);
    DecodeZeroIffEnd(s[cursor..]);
    if c == 0 {
      return cursor;
    }
    return q;
  }

  /** The number of decoding steps that reach byte offset b or the end of s. */
  function BytesToChars(s: seq<Byte>, b: nat): nat
    decreases |s|
  {
    if s == [] || b == 0 then 0
    else 1 + BytesToChars(Rest(s), if Decode(s).1 < b then b - Decode(s).1 else 0)
  }

  /** The byte offset after n decoding steps or at the end of s. */
  function CharsToBytes(s: seq<Byte>, n: nat): (b: nat)
    ensures b <= |s|
  {
    if s == [] || n == 0 then 0
    else
      DecodeStaysInside(s);
      Decode(s).1 + CharsToBytes(Rest(s), n - 1)
  }

  lemma StepAt(s: seq<Byte>, p: nat)
    requires p < |s|
    ensures var n := Decode(s[p..]).1; 1 <= n <= |s| - p && Rest(s[p..]) == s[p + n..]
  {
    DecodeStaysInside(s[p..]);
    var n := Decode(s[p..]).1;
    assert s[p..][n..] == s[p + n..];
  }

  /** str_utf8_offset_bytes_to_chars */
  method StrUtf8OffsetBytesToChars(s: seq<Byte>, byteOffset: nat) returns (charOffset: nat)
    requires NulFree(s)
    ensures charOffset == BytesToChars(s, byteOffset)
  {
    hide Decode;
    charOffset := 0;
    var current := 0;
    while current < byteOffset
      invariant current <= |s|
      invariant BytesToChars(s, byteOffset)
             == charOffset + BytesToChars(s[current..], if current < byteOffset then byteOffset - current else 0)
      decreases |s| - current
    {
      var prev := current;
      current := StrUtf8Forward(s, current);
      if current == prev {
        if prev < |s| { StepAt(s, prev); }
        break;
      }
      StepAt(s, prev);
      charOffset := charOffset + 1;
    }
  }

  /** str_utf8_offset_chars_to_bytes */
  method StrUtf8OffsetCharsToBytes(s: seq<Byte>, charOffset: nat) returns (byteOffset: nat)
    requires NulFree(s)
    ensures byteOffset == CharsToBytes(s, charOffset)
  {
    hide Decode;
    byteOffset := 0;
    for i := 0 to charOffset
      invariant byteOffset <= |s|
      invariant CharsToBytes(s, charOffset) == byteOffset + CharsToBytes(s[byteOffset..], charOffset - i)
    {
      var prev := byteOffset;
      byteOffset := StrUtf8Forward(s, byteOffset);
      if byteOffset == prev {
        if prev < |s| { StepAt(s, prev); }
        break;
      }
      StepAt(s, prev);
    }
  }

  /** Going to bytes and back is the identity on the character offsets of the string. */
  lemma {:induction false} CharsBytesChars(s: seq<Byte>, n: nat)
    requires n <= CharCount(s)
    ensures BytesToChars(s, CharsToBytes(s, n)) == n
  {
    hide Decode;
    if n > 0 {
      DecodeStaysInside(s);
      CharsBytesChars(Rest(s), n - 1);
    }
  }

  /** Going to characters and back is the identity on character boundaries. */
  lemma {:induction false} BytesCharsBytes(s: seq<Byte>, b: nat)
    requires NulFree(s) && Valid(s) && b <= |s| && Valid(s[..b])
    ensures CharsToBytes(s, BytesToChars(s, b)) == b
    ensures BytesToChars(s, b) == CharCount(s[..b])
    decreases |s|
  {
    hide Decode;
    if b > 0 {
      DecodePrefix(s, b);
      DecodeStaysInside(s[..b]);
      var n := Decode(s).1;
      assert s[..b][n..] == Rest(s)[..b - n];
      BytesCharsBytes(Rest(s), b - n);
    }
  }
}
