/** Confusables for which scripts/generate_unicode_confusables_data.py writes a table that does not
    read back: it accepts them, but the last decomposition starts at 8251, beyond 13 bits. */
module ConfusablesOverflow {
  import opened Sequences
  import opened Confusables
  import opened ConfusablesTable

  const FIRST := 0x4E00

  /** The target of confusable number i: one character of its own, then 249 times the letter a. */
  function Row(i: int): (r: seq<int>)
    ensures |r| == 250 && r[0] == 0x10000 + i && r[58] == 0x61
    ensures forall c :: c in r ==> c == 0x61 || c == 0x10000 + i
  {
    [0x10000 + i] + seq(249, _ => 0x61)
  }

  function Targets(n: nat): map<int, seq<int>> { map c | FIRST <= c < FIRST + n && IsTarget(n, c) :: Row(c - FIRST) }

  /** No decompositions, and n confusables besides those the script adds. */
  function Data(n: nat): Rules { Amended(map[], Targets(n)) }

  predicate Added(c: int) { c == 0x006C || c == 0x00A1 || c == 0x2800 || c == 0xFFFC }

  predicate IsTarget(n: nat, c: int) { FIRST <= c < FIRST + n }

  function Target(c: int): seq<int> {
    if c == 0x006C || c == 0x00A1 then [0x0069] else if c == 0x2800 || c == 0xFFFC then [] else Row(c - FIRST)
  }

  lemma DataIs(n: nat)
    requires n <= 34
    ensures Data(n).nfd == map[]
    ensures forall c :: c in Data(n).con <==> Added(c) || IsTarget(n, c)
    ensures forall c :: c in Data(n).con ==> Data(n).con[c] == Target(c)
  {
    hide Row;
  }

  // ---- the loop ends after one pass ----

  lemma PassIs(n: nat, c: int)
    requires n <= 34
    ensures IsKey(Data(n), c) ==> Pass(Data(n), [c]) == Target(c)
    ensures IsKey(Data(n), c) <==> Added(c) || IsTarget(n, c)
    ensures IsKey(Data(n), c) ==> NoKeys(Data(n), Target(c))
  {
    hide Data, Row, Apply;
    DataIs(n);
    ApplyOne(c, Data(n).nfd);
    ApplyOne(c, Data(n).con);
  }

  lemma OnePass(n: nat, c: int)
    requires n <= 34
    ensures Ends(Data(n), [c])
    ensures Added(c) || IsTarget(n, c) ==> Converged(Data(n), [c]) == Target(c)
  {
    hide Data, Row, Pass, IsKey, Target;
    PassIs(n, c);
    IterateOnce(Data(n), [c]);
    if IsKey(Data(n), c) {
      NoKeysIsStable(Data(n), Target(c));
      ConvergedIs(Data(n), [c], 1);
    } else {
      NoKeysIsStable(Data(n), [c]);
      ConvergedIs(Data(n), [c], 0);
    }
  }

  lemma {:induction false} KeptAll(l: seq<int>)
    ensures Kept(l, {}) == l
  {
    if l != [] {
      KeptAll(l[1..]);
      assert l == [l[0]] + l[1..];
    }
  }

  /** The decompositions are the targets. */
  lemma DataDecomposes(n: nat)
    requires n <= 34
    ensures AllEnd(Data(n)) && Decomposes(Data(n).con, Data(n), {})
  {
    hide Data, Converged, Ends, Kept, Target;
    forall c: int ensures Ends(Data(n), [c]) {
      OnePass(n, c);
    }
    DataIs(n);
    forall c | c in Data(n).con ensures Data(n).con[c] == Kept(Converged(Data(n), [c]), {}) {
      OnePass(n, c);
      KeptAll(Target(c));
    }
  }

  // ---- how they are listed ----

  function Keys(n: nat): (s: seq<int>)
    ensures |s| == n + 4
  {
    [0x006C, 0x00A1, 0x2800] + seq(n, i => FIRST + i) + [0xFFFC]
  }

  function Rows(n: nat): (s: seq<seq<int>>)
    ensures |s| == n + 2
  {
    [[], [0x0069]] + seq(n, i => Row(i))
  }

  lemma RowAt(n: nat, i: nat)
    requires i < n
    ensures Rows(n)[i + 2] == Row(i)
  {
    hide Row;
  }

  lemma RowsAscend(n: nat)
    ensures Ascending(Rows(n), Lexicographic)
  {
    hide Row;
    forall i: int, j: int | 0 <= i < j < |Rows(n)| ensures Lexicographic(Rows(n)[i], Rows(n)[j]) {
      assert j >= 2 ==> Rows(n)[j][0] == 0x10000 + (j - 2);
      assert i >= 2 ==> Rows(n)[i][0] == 0x10000 + (i - 2);
    }
  }

  lemma KeysListed(n: nat)
    requires 1 <= n <= 34
    ensures IsSorted(Keys(n), Data(n).con.Keys, Smaller)
  {
    hide Data;
    DataIs(n);
    forall c ensures c in Keys(n) <==> c in Data(n).con.Keys {
      if IsTarget(n, c) { assert Keys(n)[c - FIRST + 3] == c; }
      if Added(c) { assert c in [0x006C, 0x00A1, 0x2800] || Keys(n)[n + 3] == c; }
    }
  }

  lemma KeyOf<K(!new), V(!new)>(m: map<K, V>, v: V) returns (k: K)
    requires v in m.Values
    ensures k in m && m[k] == v
  {
    k :| k in m && m[k] == v;
  }

  lemma RowsListed(n: nat)
    requires 1 <= n <= 34
    ensures IsSorted(Rows(n), Data(n).con.Values, Lexicographic)
  {
    hide Data, Lexicographic, Row;
    RowsAscend(n);
    DataIs(n);
    var con := Data(n).con;
    forall l ensures l in Rows(n) <==> l in con.Values {
      if l in con.Values {
        var c := KeyOf(con, l);
        if IsTarget(n, c) { RowAt(n, c - FIRST); } else { assert l == Rows(n)[0] || l == Rows(n)[1]; }
      }
      if l in Rows(n) {
        var i :| 0 <= i < |Rows(n)| && Rows(n)[i] == l;
        var c := if i == 0 then 0x2800 else if i == 1 then 0x006C else FIRST + (i - 2);
        assert c in con && con[c] == l;
      }
    }
  }

  lemma LengthsListed(n: nat)
    requires 1 <= n <= 34
    ensures IsSorted<int>([0, 1, 250], Lengths(Data(n).con.Values), Smaller)
  {
    hide Data, Row;
    DataIs(n);
    var con := Data(n).con;
    forall k ensures k in [0, 1, 250] <==> k in Lengths(con.Values) {
      if k in Lengths(con.Values) {
        var l :| l in con.Values && |l| == k;
        var c := KeyOf(con, l);
      }
      assert con[0x2800] in con.Values && con[0x006C] in con.Values && con[FIRST] in con.Values;
    }
  }

  // ---- what is read back ----

  lemma {:induction false} RowsFlat(n: nat)
    ensures |Flatten(Rows(n))| == 250 * n + 1
    ensures n > 0 ==> Flatten(Rows(n))[59] == 0x61
  {
    hide Row;
    var ls := Rows(n);
    if n == 0 {
      assert ls[..1] == [[]] && ls[..1][..0] == [];
      assert Flatten(ls[..1]) == [];
      assert Flatten(ls) == Flatten(ls[..1]) + ls[1];
    } else {
      RowsFlat(n - 1);
      assert ls[..n + 1] == Rows(n - 1);
      assert ls[n + 1] == Row(n - 1);
      assert Flatten(ls) == Flatten(Rows(n - 1)) + Row(n - 1);
    }
  }

  /** The script accepts these data, and reads the last decomposition back from offset 59. */
  lemma LargeTableIsUnfaithful()
    ensures var t, ls := Data(34).con, Rows(34);
            && AllEnd(Data(34)) && Decomposes(t, Data(34), {})
            && Listed(t, Keys(34), ls, [0, 1, 250]) && LastOffset(ls) == 8251
            && FIRST + 33 in t
            && var s := SliceOf(t, ls, [0, 1, 250], FIRST + 33);
               && s == Slice(59, 2) && s.offset + 250 <= |Flatten(ls)|
               && Flatten(ls)[s.offset..s.offset + 250] != t[FIRST + 33]
  {
    hide Data, Row, Rows, Flatten, IndexOf, Keys, AllEnd, Decomposes, IsSorted, Lexicographic;
    DataDecomposes(34);
    KeysListed(34);
    RowsListed(34);
    LengthsListed(34);
    DataIs(34);
    RowsPrefix();
    RowsFlat(33);
    RowsFlat(34);
    ReadPosition();
    assert Flatten(Rows(34))[59..309][0] == 0x61;
  }

  lemma RowsPrefix()
    ensures Rows(34)[..35] == Rows(33)
  {
    hide Row;
  }

  lemma ReadPosition()
    ensures Row(33) in Rows(34) && IndexOf(Rows(34), Row(33)) == 35
    ensures IndexOf<nat>([0, 1, 250], 250) == 2
  {
    hide Row, IndexOf;
    RowAt(34, 33);
    var i := IndexOf(Rows(34), Row(33));
    if 2 <= i { RowAt(34, i - 2); }
  }
}
