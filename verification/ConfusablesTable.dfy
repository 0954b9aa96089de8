/** The packed table that scripts/generate_unicode_confusables_data.py writes and
    src/base/unicode/confusables.cpp searches: deduplicated decompositions in one array, found
    through slices of 13 + 3 bits. */
module ConfusablesTable {
  import opened Sequences
  import opened Wrappers

  type Table = map<int, seq<int>>

  /** The running offsets of main. */
  method Offsets(ls: seq<seq<int>>) returns (offsets: seq<nat>)
    ensures |offsets| == |ls| && forall i :: 0 <= i < |ls| ==> offsets[i] == |Flatten(ls[..i])|
  {
    offsets := [];
    var cur := 0;
    for i := 0 to |ls|
      invariant |offsets| == i && cur == |Flatten(ls[..i])|
      invariant forall j :: 0 <= j < i ==> offsets[j] == |Flatten(ls[..j])|
    {
      offsets := offsets + [cur];
      cur := cur + |ls[i]|;
      assert ls[..i + 1][..i] == ls[..i];
    }
  }

  /** decomp_slices: 13 bits of offset, 3 bits of length index. */
  datatype Slice = Slice(offset: nat, length: nat)

  function Packed(offset: nat, length: nat): Slice { Slice(offset % 8192, length % 8) }

  /** The generated arrays. */
  datatype Tables = Tables(chars: seq<int>, slices: seq<Slice>, lengths: seq<nat>, data: seq<int>)

  function Lengths(ls: set<seq<int>>): set<int> { set l | l in ls :: |l| }

  /** The keys, the decompositions and their lengths: sorted, and each listed once. */
  ghost predicate Listed(t: Table, keys: seq<int>, ls: seq<seq<int>>, lengths: seq<nat>) {
    && IsSorted(keys, t.Keys, Smaller)
    && IsSorted(ls, t.Values, Lexicographic)
    && IsSorted<int>(lengths, Lengths(t.Values), Smaller)
  }

  lemma ListedFacts(t: Table, keys: seq<int>, ls: seq<seq<int>>, lengths: seq<nat>)
    requires Listed(t, keys, ls, lengths)
    ensures forall i, j :: 0 <= i < j < |keys| ==> keys[i] < keys[j]
    ensures forall k :: k in keys <==> k in t
    ensures forall k :: k in t ==> t[k] in ls && |t[k]| in lengths
  {
    forall k | k in t ensures t[k] in ls && |t[k]| in lengths {
      assert t[k] in t.Values;
    }
    forall i, j | 0 <= i < j < |keys| ensures keys[i] < keys[j] {
      assert Smaller(keys[i], keys[j]);
    }
  }

  /** There is only one way to list a table. */
  lemma ListedUnique(t: Table, keys: seq<int>, ls: seq<seq<int>>, lengths: seq<nat>,
                     keys': seq<int>, ls': seq<seq<int>>, lengths': seq<nat>)
    requires Listed(t, keys, ls, lengths) && Listed(t, keys', ls', lengths')
    ensures keys == keys' && ls == ls' && lengths == lengths'
  {
    hide IsSorted, Lexicographic;
    SmallerIsOrder();
    LexicographicIsOrder();
    SortedUnique(keys, keys', t.Keys, Smaller);
    SortedUnique(ls, ls', t.Values, Lexicographic);
    SortedUnique<int>(lengths, lengths', Lengths(t.Values), Smaller);
  }

  /** What gen_data writes. */
  ghost predicate Written(t: Table, keys: seq<int>, ls: seq<seq<int>>, lengths: seq<nat>, r: Tables) {
    && r == Tables(keys, r.slices, lengths, Flatten(ls)) && |r.slices| == |keys|
    && forall i :: 0 <= i < |keys| ==> r.slices[i] == SliceOf(t, ls, lengths, keys[i])
  }

  /** gen_data */
  method GenData(t: Table, keys: seq<int>, ls: seq<seq<int>>, lengths: seq<nat>) returns (r: Tables)
    requires Listed(t, keys, ls, lengths)
    ensures Written(t, keys, ls, lengths, r)
  {
    hide Listed, IndexOf, Flatten;
    ListedFacts(t, keys, ls, lengths);
    var offsets := Offsets(ls);
    var slices: seq<Slice> := [];
    for i := 0 to |keys|
      invariant |slices| == i
      invariant forall j :: 0 <= j < i ==> slices[j] == SliceOf(t, ls, lengths, keys[j])
    {
      assert keys[i] in keys;
      var d := t[keys[i]];
      slices := slices + [Packed(offsets[IndexOf(ls, d)], IndexOf(lengths, |d|))];
    }
    r := Tables(keys, slices, lengths, Flatten(ls));
  }

  /** main: sorts, deduplicates and writes; it refuses more than eight different lengths, and nothing
      else. */
  method Generate(t: Table) returns (o: Option<Tables>)
    ensures o.None? <==> |Lengths(t.Values)| > 8
    ensures o.Some? ==> exists keys, ls, lengths: seq<nat> ::
              Listed(t, keys, ls, lengths) && |lengths| <= 8 && Written(t, keys, ls, lengths, o.value)
  {
    hide IsSorted, Written, Lexicographic;
    SmallerIsOrder();
    LexicographicIsOrder();
    var keys := Sorted(t.Keys, Smaller);
    var ls := Sorted(t.Values, Lexicographic);
    var sizes := Sorted(Lengths(t.Values), Smaller);
    SortedSize(sizes, Lengths(t.Values), Smaller);
    SizesAreNat(sizes, t.Values);
    var lengths: seq<nat> := sizes;
    if |lengths| > 8 {
      return None;
    }
    var tables := GenData(t, keys, ls, lengths);
    o := Some(tables);
  }

  lemma SizesAreNat(sizes: seq<int>, ls: set<seq<int>>)
    requires IsSorted(sizes, Lengths(ls), Smaller)
    ensures forall i :: 0 <= i < |sizes| ==> sizes[i] >= 0
  {
    forall i | 0 <= i < |sizes| ensures sizes[i] >= 0 {
      assert sizes[i] in sizes;
    }
  }

  ghost function SliceOf(t: Table, ls: seq<seq<int>>, lengths: seq<nat>, k: int): Slice {
    if k in t && t[k] in ls && |t[k]| in lengths then
      Packed(|Flatten(ls[..IndexOf(ls, t[k])])|, IndexOf(lengths, |t[k]|))
    else Slice(0, 0)
  }

  /** str_utf8_skeleton of src/base/unicode/confusables.cpp: the search that reads the tables. */
  method Skeleton(r: Tables, ch: int) returns (found: bool, offset: nat, length: nat)
    requires |r.slices| == |r.chars| && forall s :: s in r.slices ==> s.length < |r.lengths|
    requires forall i, j :: 0 <= i < j < |r.chars| ==> r.chars[i] < r.chars[j]
    ensures found <==> ch in r.chars
    ensures found ==> exists i :: 0 <= i < |r.chars| && r.chars[i] == ch && r.slices[i].length < |r.lengths| &&
                                  offset == r.slices[i].offset && length == r.lengths[r.slices[i].length]
    ensures !found ==> length == 1
  {
    for i := 0 to |r.chars|
      invariant forall j :: 0 <= j < i ==> r.chars[j] != ch
    {
      if ch == r.chars[i] {
        assert r.slices[i] in r.slices;
        return true, r.slices[i].offset, r.lengths[r.slices[i].length];
      } else if ch < r.chars[i] {
        break;
      }
    }
    return false, 0, 1;
  }

  /** An entry of the packed table agrees with the plain map when its offset and its length index fit
      their bits. */
  lemma TableIsFaithful(t: Table, ls: seq<seq<int>>, lengths: seq<nat>, keys: seq<int>, k: int)
    requires Listed(t, keys, ls, lengths) && k in t && t[k] in ls
    requires |lengths| <= 8 && |Flatten(ls[..IndexOf(ls, t[k])])| < 8192
    ensures var s := SliceOf(t, ls, lengths, k);
            && s.length < |lengths| && s.offset + lengths[s.length] <= |Flatten(ls)|
            && Flatten(ls)[s.offset..s.offset + lengths[s.length]] == t[k]
  {
    hide Listed, Flatten, IndexOf;
    ListedFacts(t, keys, ls, lengths);
    SliceOfFlatten(ls, IndexOf(ls, t[k]));
  }

  /** decomposition_offsets[-1] */
  ghost function LastOffset(ls: seq<seq<int>>): nat {
    if ls == [] then 0 else |Flatten(ls[..|ls| - 1])|
  }

  lemma {:induction false} OffsetsGrow(ls: seq<seq<int>>, i: nat)
    requires i < |ls|
    ensures |Flatten(ls[..i])| <= LastOffset(ls)
  {
    if i < |ls| - 1 {
      SliceOfFlatten(ls[..|ls| - 1], i);
      assert ls[..|ls| - 1][..i] == ls[..i];
    }
  }

  /** All offsets survive the 13 bits exactly when the last one is below 8192: a test that main does
      not make. */
  lemma OffsetsFitIff(ls: seq<seq<int>>)
    ensures (forall i: nat, length: nat :: i < |ls| && length < 8 ==>
               Packed(|Flatten(ls[..i])|, length) == Slice(|Flatten(ls[..i])|, length))
       <==> LastOffset(ls) < 8192
  {
    hide Flatten;
    if ls != [] {
      var n: nat := |ls| - 1;
      assert Packed(|Flatten(ls[..n])|, 0) == Slice(|Flatten(ls[..n])|, 0) <==> LastOffset(ls) < 8192;
      forall i: nat | i < |ls| ensures |Flatten(ls[..i])| <= LastOffset(ls) {
        OffsetsGrow(ls, i);
      }
    }
  }

  /** With the last offset below 8192 every entry reads back its decomposition. */
  lemma TableReadsBack(t: Table, ls: seq<seq<int>>, lengths: seq<nat>, keys: seq<int>, k: int)
    requires Listed(t, keys, ls, lengths) && |lengths| <= 8 && LastOffset(ls) < 8192 && k in t
    ensures var s := SliceOf(t, ls, lengths, k);
            && s.length < |lengths| && s.offset + lengths[s.length] <= |Flatten(ls)|
            && Flatten(ls)[s.offset..s.offset + lengths[s.length]] == t[k]
  {
    hide Listed, Flatten, IndexOf, LastOffset;
    ListedFacts(t, keys, ls, lengths);
    OffsetsGrow(ls, IndexOf(ls, t[k]));
    TableIsFaithful(t, ls, lengths, keys, k);
  }
}
