/** scripts/generate_unicode_confusables_data.py: characters are rewritten until nothing changes.
    When the rewriting ends, where it ends, and that it treats the characters of a string apart. */
module Confusables {
  import opened Sequences

  type Replacements = map<int, seq<int>>

  /** The two maps a pass applies one after the other. */
  datatype Rules = Rules(nfd: Replacements, con: Replacements)

  function Lookup(m: Replacements, c: int): seq<int> { if c in m then m[c] else [c] }

  /** apply */
  function Apply(l: seq<int>, m: Replacements): seq<int> {
    if l == [] then [] else Lookup(m, l[0]) + Apply(l[1..], m)
  }

  function Kept(l: seq<int>, ignore: set<int>): seq<int> {
    if l == [] then [] else (if l[0] in ignore then [] else [l[0]]) + Kept(l[1..], ignore)
  }

  /** One pass of the loop in gen. */
  function Pass(r: Rules, l: seq<int>): seq<int> { Apply(Apply(l, r.nfd), r.con) }

  /** The test of the loop. */
  predicate Stable(r: Rules, l: seq<int>) { l == Apply(l, r.nfd) && l == Pass(r, l) }

  predicate IsKey(r: Rules, c: int) { c in r.nfd || c in r.con }

  /** Nothing is left to replace. */
  predicate NoKeys(r: Rules, l: seq<int>) { forall c :: c in l ==> !IsKey(r, c) }

  /** k passes. */
  function Iterate(r: Rules, l: seq<int>, k: nat): seq<int> {
    if k == 0 then l else Pass(r, Iterate(r, l, k - 1))
  }

  /** The loop comes to its end. */
  ghost predicate Ends(r: Rules, l: seq<int>) { exists k: nat :: Stable(r, Iterate(r, l, k)) }

  /** Some number of passes leaves nothing to replace. */
  ghost predicate Clears(r: Rules, l: seq<int>) { exists k: nat :: NoKeys(r, Iterate(r, l, k)) }

  // ---- passes and concatenation ----

  lemma SplitFirst(a: seq<int>, b: seq<int>)
    requires a != []
    ensures a == [a[0]] + a[1..] && a + b == [a[0]] + (a[1..] + b)
  {
  }

  lemma ApplyFirst(c: int, l: seq<int>, m: Replacements)
    ensures Apply([c] + l, m) == Lookup(m, c) + Apply(l, m)
  {
    assert ([c] + l)[1..] == l;
  }

  lemma ApplyEmpty(m: Replacements)
    ensures Apply([], m) == []
  {
  }

  lemma {:induction false} ApplyConcat(a: seq<int>, b: seq<int>, m: Replacements)
    ensures Apply(a + b, m) == Apply(a, m) + Apply(b, m)
  {
    hide Lookup, Apply;
    if a == [] {
      ApplyEmpty(m);
      assert a + b == b;
    } else {
      var c, t := a[0], a[1..];
      ApplyConcat(t, b, m);
      ApplyFirst(c, t, m);
      ApplyFirst(c, t + b, m);
      SplitFirst(a, b);
      ConcatAssociates(Lookup(m, c), Apply(t, m), Apply(b, m));
    }
  }

  lemma PassConcat(r: Rules, a: seq<int>, b: seq<int>)
    ensures Pass(r, a + b) == Pass(r, a) + Pass(r, b)
  {
    hide Apply;
    ApplyConcat(a, b, r.nfd);
    ApplyConcat(Apply(a, r.nfd), Apply(b, r.nfd), r.con);
  }

  lemma {:induction false} IterateConcat(r: Rules, a: seq<int>, b: seq<int>, k: nat)
    ensures Iterate(r, a + b, k) == Iterate(r, a, k) + Iterate(r, b, k)
  {
    hide Pass;
    if k > 0 {
      IterateConcat(r, a, b, k - 1);
      PassConcat(r, Iterate(r, a, k - 1), Iterate(r, b, k - 1));
    }
  }

  lemma {:induction false} IterateAdd(r: Rules, l: seq<int>, j: nat, k: nat)
    ensures Iterate(r, l, j + k) == Iterate(r, Iterate(r, l, j), k)
  {
    hide Pass;
    if k > 0 { IterateAdd(r, l, j, k - 1); }
  }

  lemma IterateOnce(r: Rules, l: seq<int>)
    ensures Iterate(r, l, 0) == l && Iterate(r, l, 1) == Pass(r, l)
  {
    hide Pass;
    assert Iterate(r, l, 0) == l;
  }

  lemma {:induction false} StableStays(r: Rules, l: seq<int>, k: nat)
    requires Stable(r, l)
    ensures Iterate(r, l, k) == l
  {
    hide Pass, Apply;
    if k > 0 { StableStays(r, l, k - 1); }
  }

  lemma {:induction false} ApplyNothing(l: seq<int>, m: Replacements)
    requires forall c :: c in l ==> c !in m
    ensures Apply(l, m) == l
  {
    if l != [] {
      ApplyNothing(l[1..], m);
      assert l == [l[0]] + l[1..];
    }
  }

  lemma NoKeysIsStable(r: Rules, l: seq<int>)
    requires NoKeys(r, l)
    ensures Stable(r, l)
  {
    hide Apply;
    ApplyNothing(l, r.nfd);
    ApplyNothing(l, r.con);
  }

  lemma ClearsEnds(r: Rules, l: seq<int>)
    requires Clears(r, l)
    ensures Ends(r, l)
  {
    hide Iterate, Stable, NoKeys;
    var k: nat :| NoKeys(r, Iterate(r, l, k));
    NoKeysIsStable(r, Iterate(r, l, k));
  }

  lemma StableConcat(r: Rules, a: seq<int>, b: seq<int>)
    requires Stable(r, a) && Stable(r, b)
    ensures Stable(r, a + b)
  {
    hide Pass, Apply;
    ApplyConcat(a, b, r.nfd);
    PassConcat(r, a, b);
  }

  // ---- where the loop ends ----

  /** The least number of passes to a stable list, given one such number. */
  ghost function FirstStable(r: Rules, l: seq<int>, k: nat): (n: nat)
    requires Stable(r, Iterate(r, l, k))
    ensures n <= k && Stable(r, Iterate(r, l, n)) && forall m: nat :: m < n ==> !Stable(r, Iterate(r, l, m))
  {
    if exists m: nat :: m < k && Stable(r, Iterate(r, l, m)) then
      var m: nat :| m < k && Stable(r, Iterate(r, l, m));
      FirstStable(r, l, m)
    else k
  }

  /** The number of passes the loop makes. */
  ghost function Rounds(r: Rules, l: seq<int>): (n: nat)
    requires Ends(r, l)
    ensures Stable(r, Iterate(r, l, n)) && forall m: nat :: m < n ==> !Stable(r, Iterate(r, l, m))
  {
    var k: nat :| Stable(r, Iterate(r, l, k));
    FirstStable(r, l, k)
  }

  /** The list at which the substitutions converge. */
  ghost function Converged(r: Rules, l: seq<int>): seq<int>
    requires Ends(r, l)
  {
    Iterate(r, l, Rounds(r, l))
  }

  /** Any number of passes that gives a stable list gives the converged one. */
  lemma ConvergedIs(r: Rules, l: seq<int>, k: nat)
    requires Stable(r, Iterate(r, l, k))
    ensures Ends(r, l) && Rounds(r, l) <= k && Converged(r, l) == Iterate(r, l, k)
  {
    hide Iterate, Stable;
    var n := Rounds(r, l);
    IterateAdd(r, l, n, k - n);
    StableStays(r, Iterate(r, l, n), k - n);
  }

  /** What one turn of the loop does to what is still ahead of it. */
  lemma RoundsStep(r: Rules, l: seq<int>)
    requires Ends(r, l)
    ensures Stable(r, l) ==> Converged(r, l) == l
    ensures !Stable(r, l) ==>
              Ends(r, Pass(r, l)) && Rounds(r, Pass(r, l)) < Rounds(r, l) && Converged(r, Pass(r, l)) == Converged(r, l)
  {
    hide Iterate, Stable, Pass;
    IterateOnce(r, l);
    var n := Rounds(r, l);
    if Stable(r, l) {
      ConvergedIs(r, l, 0);
    } else {
      IterateAdd(r, l, 1, n - 1);
      ConvergedIs(r, Pass(r, l), n - 1);
    }
  }

  /** gen, for every character from which the loop ends at all. */
  method Gen(c: int, r: Rules, ignore: set<int>) returns (l: seq<int>)
    requires Ends(r, [c])
    ensures l == Kept(Converged(r, [c]), ignore)
  {
    hide Apply, Kept, Ends, Converged;
    var result := [c];
    while true
      invariant Ends(r, result) && Converged(r, result) == Converged(r, [c])
      decreases Rounds(r, result)
    {
      var first := Apply(result, r.nfd);
      var second := Apply(first, r.con);
      RoundsStep(r, result);
      if result == first && result == second {
        break;
      }
      result := second;
    }
    l := Kept(result, ignore);
  }

  /** The converged list is fixed by both replacement maps. */
  lemma ConvergedIsFixed(r: Rules, l: seq<int>)
    requires Ends(r, l)
    ensures var f := Converged(r, l); Apply(f, r.nfd) == f && Apply(f, r.con) == f
  {
    hide Apply, Iterate;
  }

  /** If some number of passes leaves nothing to replace, so does the loop. */
  lemma ConvergedIsClear(r: Rules, l: seq<int>)
    requires Clears(r, l)
    ensures Ends(r, l) && NoKeys(r, Converged(r, l))
  {
    hide Iterate, Stable, NoKeys;
    var k: nat :| NoKeys(r, Iterate(r, l, k));
    NoKeysIsStable(r, Iterate(r, l, k));
    ConvergedIs(r, l, k);
  }

  /** The characters of a list do not influence each other: a list converges to the concatenation of
      what its parts converge to, however many passes each of them takes. */
  lemma ConvergedConcat(r: Rules, a: seq<int>, b: seq<int>)
    requires Ends(r, a) && Ends(r, b)
    ensures Ends(r, a + b) && Converged(r, a + b) == Converged(r, a) + Converged(r, b)
  {
    hide Iterate, Stable;
    var m, n := Rounds(r, a), Rounds(r, b);
    var k := m + n;
    IterateAdd(r, a, m, n);
    StableStays(r, Iterate(r, a, m), n);
    IterateAdd(r, b, n, m);
    StableStays(r, Iterate(r, b, n), m);
    IterateConcat(r, a, b, k);
    StableConcat(r, Iterate(r, a, k), Iterate(r, b, k));
    ConvergedIs(r, a + b, k);
  }

  // ---- when it ends ----

  /** Every character that is replaced at all is replaced by characters of lower rank only, one whole
      pass taken together. */
  ghost predicate Lowers(r: Rules, rank: int -> nat) {
    forall d, e :: IsKey(r, d) && e in Pass(r, [d]) ==> rank(e) < rank(d)
  }

  ghost predicate Below(r: Rules, l: seq<int>, rank: int -> nat, h: nat) {
    forall c :: c in l && IsKey(r, c) ==> rank(c) < h
  }

  lemma {:induction false} PassMember(r: Rules, l: seq<int>, e: int)
    requires e in Pass(r, l)
    ensures exists c :: c in l && e in Pass(r, [c])
  {
    hide Pass, IsKey;
    if l == [] {
      PassEmpty(r);
    } else {
      assert l == [l[0]] + l[1..];
      PassConcat(r, [l[0]], l[1..]);
      if e in Pass(r, [l[0]]) {
        var c := l[0];
        assert c in l && e in Pass(r, [c]);
      } else {
        PassMember(r, l[1..], e);
        var c :| c in l[1..] && e in Pass(r, [c]);
        assert c in l;
      }
    }
  }

  lemma PassEmpty(r: Rules)
    ensures Pass(r, []) == []
  {
  }

  lemma PassKeepsOthers(r: Rules, c: int)
    requires !IsKey(r, c)
    ensures Pass(r, [c]) == [c]
  {
    hide Apply;
    ApplyNothing([c], r.nfd);
    ApplyNothing([c], r.con);
  }

  /** A pass lowers the highest rank of what is left to replace. */
  lemma PassLowers(r: Rules, l: seq<int>, rank: int -> nat, h: nat)
    requires Lowers(r, rank) && Below(r, l, rank, h + 1)
    ensures Below(r, Pass(r, l), rank, h)
  {
    hide Pass, IsKey;
    forall e | e in Pass(r, l) && IsKey(r, e) ensures rank(e) < h {
      PassMember(r, l, e);
      var c :| c in l && e in Pass(r, [c]);
      if !IsKey(r, c) { PassKeepsOthers(r, c); }
    }
  }

  lemma {:induction false} RankClears(r: Rules, l: seq<int>, rank: int -> nat, h: nat)
    requires Lowers(r, rank) && Below(r, l, rank, h)
    ensures NoKeys(r, Iterate(r, l, h))
    decreases h
  {
    hide Pass, IsKey, Lowers;
    if h > 0 {
      PassLowers(r, l, rank, h - 1);
      RankClears(r, Pass(r, l), rank, h - 1);
      IterateOnce(r, l);
      IterateAdd(r, l, 1, h - 1);
    }
  }

  /** The least number of passes that leaves nothing to replace, given one such number. */
  ghost function FirstClear(r: Rules, l: seq<int>, k: nat): (n: nat)
    requires NoKeys(r, Iterate(r, l, k))
    ensures n <= k && NoKeys(r, Iterate(r, l, n)) && forall m: nat :: m < n ==> !NoKeys(r, Iterate(r, l, m))
  {
    if exists m: nat :: m < k && NoKeys(r, Iterate(r, l, m)) then
      var m: nat :| m < k && NoKeys(r, Iterate(r, l, m));
      FirstClear(r, l, m)
    else k
  }

  /** The number of passes after which a character has nothing left to replace. */
  ghost function ClearRounds(r: Rules, c: int): (n: nat)
    ensures Clears(r, [c]) ==>
              NoKeys(r, Iterate(r, [c], n)) && forall m: nat :: m < n ==> !NoKeys(r, Iterate(r, [c], m))
  {
    if Clears(r, [c]) then
      var k: nat :| NoKeys(r, Iterate(r, [c], k));
      FirstClear(r, [c], k)
    else 0
  }

  lemma NoKeysParts(r: Rules, a: seq<int>, e: int, b: seq<int>, k: nat)
    requires NoKeys(r, Iterate(r, a + [e] + b, k))
    ensures NoKeys(r, Iterate(r, [e], k))
  {
    hide Iterate, IsKey;
    IterateConcat(r, a + [e], b, k);
    IterateConcat(r, a, [e], k);
  }

  lemma ClearRoundsLower(r: Rules, d: int, e: int)
    requires (forall c: int :: Clears(r, [c])) && IsKey(r, d) && e in Pass(r, [d])
    ensures ClearRounds(r, e) < ClearRounds(r, d)
  {
    hide Iterate, Pass, Clears;
    var n, l := ClearRounds(r, d), Pass(r, [d]);
    IterateOnce(r, [d]);
    assert d in [d];
    assert !NoKeys(r, [d]);
    IterateAdd(r, [d], 1, n - 1);
    var i :| 0 <= i < |l| && l[i] == e;
    assert l == l[..i] + [e] + l[i + 1..];
    NoKeysParts(r, l[..i], e, l[i + 1..], n - 1);
  }

  lemma {:induction false} SomeBound(r: Rules, l: seq<int>, rank: int -> nat) returns (h: nat)
    ensures Below(r, l, rank, h)
  {
    h := 0;
    if l != [] {
      var t := SomeBound(r, l[1..], rank);
      h := t + rank(l[0]) + 1;
    }
  }

  lemma RankClearsAll(r: Rules, l: seq<int>, rank: int -> nat)
    requires Lowers(r, rank)
    ensures Clears(r, l)
  {
    hide Iterate, NoKeys, Lowers, Below;
    var h := SomeBound(r, l, rank);
    RankClears(r, l, rank, h);
  }

  /** From every character the passes arrive at a list with nothing left to replace if and only if a
      rank exists that whole passes lower. */
  lemma ClearsIffRank(r: Rules)
    ensures (forall c: int :: Clears(r, [c])) <==> exists rank: int -> nat :: Lowers(r, rank)
  {
    hide Clears, Lowers;
    if forall c: int :: Clears(r, [c]) {
      RankFromRounds(r);
    }
    forall rank: int -> nat, c: int | Lowers(r, rank) ensures Clears(r, [c]) {
      RankClearsAll(r, [c], rank);
    }
  }

  lemma RankFromRounds(r: Rules)
    requires forall c: int :: Clears(r, [c])
    ensures exists rank: int -> nat :: Lowers(r, rank)
  {
    hide Pass, Clears, ClearRounds;
    var rank: int -> nat := c => ClearRounds(r, c);
    forall d, e | IsKey(r, d) && e in Pass(r, [d]) ensures rank(e) < rank(d) {
      ClearRoundsLower(r, d, e);
    }
    assert Lowers(r, rank);
  }

  // ---- stable lists with something left to replace ----

  /** No character is replaced by a list that holds it. */
  ghost predicate NoSelf(m: Replacements) {
    forall c :: c in m ==> c !in m[c]
  }

  /** Behind its first replaced character, the image of a stable list lags behind the list. */
  lemma {:induction false} ImageLags(m: Replacements, l: seq<int>, i: nat)
    requires NoSelf(m) && Apply(l, m) == l && i <= |l|
    ensures (forall c :: c in l[..i] ==> c !in m) || |Apply(l[..i], m)| < i
  {
    hide Apply;
    if i > 0 {
      var c := l[i - 1];
      ImageLags(m, l, i - 1);
      assert l[..i] == l[..i - 1] + [c];
      ApplyConcat(l[..i - 1], [c], m);
      ApplyOne(c, m);
      assert l == l[..i] + l[i..];
      ApplyConcat(l[..i], l[i..], m);
      var s := |Apply(l[..i - 1], m)|;
      if forall d :: d in l[..i - 1] ==> d !in m {
        ApplyNothing(l[..i - 1], m);
      }
      if s <= i - 1 < s + |Lookup(m, c)| {
        MemberBehind(Apply(l[..i - 1], m), Lookup(m, c), Apply(l[i..], m), i - 1);
      }
    }
  }

  lemma MemberBehind(a: seq<int>, b: seq<int>, rest: seq<int>, k: nat)
    requires |a| <= k < |a| + |b|
    ensures (a + b + rest)[k] in b
  {
  }

  lemma ApplyOne(c: int, m: Replacements)
    ensures Apply([c], m) == Lookup(m, c)
  {
    assert [c][1..] == [];
  }

  lemma FixedHasNoKeys(m: Replacements, l: seq<int>)
    requires NoSelf(m) && Apply(l, m) == l
    ensures forall c :: c in l ==> c !in m
  {
    hide Apply;
    ImageLags(m, l, |l|);
    assert l[..|l|] == l;
  }

  /** If no character is replaced by a list that holds it, the loop ends only where nothing is left to
      replace; so it ends from every character if and only if a rank exists. */
  lemma EndsIffRank(r: Rules)
    requires NoSelf(r.nfd) && NoSelf(r.con)
    ensures (forall c: int :: Ends(r, [c])) <==> exists rank: int -> nat :: Lowers(r, rank)
  {
    hide Lowers;
    ClearsIffRank(r);
    forall c: int ensures Ends(r, [c]) <==> Clears(r, [c]) {
      EndsIffClears(r, [c]);
    }
  }

  lemma EndsIffClears(r: Rules, l: seq<int>)
    requires NoSelf(r.nfd) && NoSelf(r.con)
    ensures Ends(r, l) <==> Clears(r, l)
  {
    hide Apply, Iterate;
    if Ends(r, l) {
      var k: nat :| Stable(r, Iterate(r, l, k));
      FixedHasNoKeys(r.nfd, Iterate(r, l, k));
      FixedHasNoKeys(r.con, Iterate(r, l, k));
      assert NoKeys(r, Iterate(r, l, k));
    }
    if Clears(r, l) { ClearsEnds(r, l); }
  }

  // ---- a check that takes finitely many passes ----

  ghost function Keys(r: Rules): set<int> { r.nfd.Keys + r.con.Keys }

  /** The keys that need at most k passes. */
  ghost function Within(r: Rules, k: nat): set<int> { set c | c in Keys(r) && ClearRounds(r, c) <= k }

  lemma ClearAtOnce(r: Rules, c: int)
    ensures !IsKey(r, c) ==> ClearRounds(r, c) == 0
  {
    hide Pass, IsKey;
    if !IsKey(r, c) {
      assert NoKeys(r, [c]);
      assert NoKeys(r, Iterate(r, [c], 0));
    }
  }

  lemma ClearStays(r: Rules, l: seq<int>, m: nat, n: nat)
    requires m <= n && NoKeys(r, Iterate(r, l, m))
    ensures NoKeys(r, Iterate(r, l, n))
  {
    hide Iterate, Stable, NoKeys;
    NoKeysIsStable(r, Iterate(r, l, m));
    IterateAdd(r, l, m, n - m);
    StableStays(r, Iterate(r, l, m), n - m);
  }

  /** A character that takes several passes is replaced by one that takes one less. */
  lemma NextRound(r: Rules, d: int) returns (e: int)
    requires (forall c: int :: Clears(r, [c])) && ClearRounds(r, d) > 1
    ensures IsKey(r, e) && ClearRounds(r, e) == ClearRounds(r, d) - 1
  {
    hide Iterate, Pass, Clears, IsKey;
    var k, l := ClearRounds(r, d), Pass(r, [d]);
    ClearAtOnce(r, d);
    IterateOnce(r, [d]);
    IterateAdd(r, [d], 1, k - 2);
    e := Slowest(r, l, k - 2);
    ClearRoundsLower(r, d, e);
    if ClearRounds(r, e) <= k - 2 { ClearStays(r, [e], ClearRounds(r, e), k - 2); }
    ClearAtOnce(r, e);
  }

  /** Some character of a list not yet clear is not yet clear. */
  lemma {:induction false} Slowest(r: Rules, l: seq<int>, k: nat) returns (e: int)
    requires !NoKeys(r, Iterate(r, l, k))
    ensures e in l && !NoKeys(r, Iterate(r, [e], k))
    decreases |l|
  {
    hide Iterate, Pass, IsKey;
    if l == [] {
      e := 0;
      IterateEmpty(r, k);
      assert false;
    } else {
      assert l == [l[0]] + l[1..];
      IterateConcat(r, [l[0]], l[1..], k);
      if NoKeys(r, Iterate(r, [l[0]], k)) {
        e := Slowest(r, l[1..], k);
      } else {
        e := l[0];
      }
    }
  }

  lemma {:induction false} IterateEmpty(r: Rules, k: nat)
    ensures Iterate(r, [], k) == []
  {
    hide Pass;
    if k > 0 { IterateEmpty(r, k - 1); PassEmpty(r); }
  }

  lemma {:induction false} WithinGrows(r: Rules, d: int)
    requires forall c: int :: Clears(r, [c])
    ensures |Within(r, ClearRounds(r, d))| >= ClearRounds(r, d)
    decreases ClearRounds(r, d)
  {
    hide Clears, ClearRounds, IsKey;
    var k := ClearRounds(r, d);
    ClearAtOnce(r, d);
    if k > 0 {
      KeyIn(r, d);
      if k > 1 {
        var e := NextRound(r, d);
        WithinGrows(r, e);
      }
      assert Within(r, k - 1) + {d} <= Within(r, k);
      MoreElements(Within(r, k - 1), Within(r, k), d);
    }
  }

  lemma KeyIn(r: Rules, c: int)
    ensures c in Keys(r) <==> IsKey(r, c)
  {
  }

  lemma MoreElements(a: set<int>, b: set<int>, x: int)
    requires a + {x} <= b && x !in a
    ensures |b| >= |a| + 1
  {
    Subset(a + {x}, b);
  }

  lemma Subset(a: set<int>, b: set<int>)
    requires a <= b
    ensures |a| <= |b|
  {
    assert |b| == |a| + |b - a|;
  }

  /** So a rank exists if and only if as many passes as there are keys leave nothing to replace of any
      key. */
  lemma RankIffChecked(r: Rules)
    ensures (exists rank: int -> nat :: Lowers(r, rank))
       <==> forall c :: c in Keys(r) ==> NoKeys(r, Iterate(r, [c], |Keys(r)|))
  {
    hide Lowers, Iterate, NoKeys, IsKey;
    ClearsIffRank(r);
    if forall c: int :: Clears(r, [c]) {
      forall c | c in Keys(r) ensures NoKeys(r, Iterate(r, [c], |Keys(r)|)) {
        WithinGrows(r, c);
        Subset(Within(r, ClearRounds(r, c)), Keys(r));
        ClearStays(r, [c], ClearRounds(r, c), |Keys(r)|);
      }
    }
    if forall c :: c in Keys(r) ==> NoKeys(r, Iterate(r, [c], |Keys(r)|)) {
      forall c: int ensures Clears(r, [c]) {
        KeyIn(r, c);
        if c !in Keys(r) { OthersAreClear(r, c); }
      }
    }
  }

  lemma OthersAreClear(r: Rules, c: int)
    requires !IsKey(r, c)
    ensures Clears(r, [c])
  {
    assert NoKeys(r, Iterate(r, [c], 0));
  }

  // ---- decompositions of characters and of strings ----

  /** The maps as the script amends them: no empty decompositions, and four confusables of its own. */
  function Amended(nfd: Replacements, con: Replacements): Rules {
    Rules(map c | c in nfd && nfd[c] != [] :: nfd[c],
          con[0x006C := [0x0069]][0x00A1 := [0x0069]][0x2800 := []][0xFFFC := []])
  }

  ghost predicate AllEnd(r: Rules) { forall c: int :: Ends(r, [c]) }

  /** The interesting characters with what gen returns for them. */
  ghost predicate Decomposes(t: Replacements, r: Rules, ignore: set<int>)
    requires AllEnd(r)
  {
    && t.Keys == ignore + Keys(r)
    && forall c :: c in t ==> t[c] == Kept(Converged(r, [c]), ignore)
  }

  /** generate_decompositions. */
  method GenerateDecompositions(nfd: Replacements, con: Replacements, ignore: set<int>) returns (t: Replacements)
    requires AllEnd(Amended(nfd, con))
    ensures Decomposes(t, Amended(nfd, con), ignore)
  {
    hide Amended, Ends, Converged, Kept;
    var r := Amended(nfd, con);
    var rest: set<int> := ignore + r.nfd.Keys + r.con.Keys;
    t := map[];
    while exists c :: c in rest
      invariant t.Keys !! rest && t.Keys + rest == ignore + Keys(r)
      invariant forall c :: c in t ==> t[c] == Kept(Converged(r, [c]), ignore)
      decreases rest
    {
      var c :| c in rest;
      var l := Gen(c, r, ignore);
      t := t[c := l];
      rest := rest - {c};
    }
  }

  lemma KeptFirst(c: int, l: seq<int>, ignore: set<int>)
    ensures Kept([c] + l, ignore) == (if c in ignore then [] else [c]) + Kept(l, ignore)
  {
    assert ([c] + l)[1..] == l;
  }

  lemma {:induction false} KeptConcat(a: seq<int>, b: seq<int>, ignore: set<int>)
    ensures Kept(a + b, ignore) == Kept(a, ignore) + Kept(b, ignore)
  {
    if a == [] {
      assert a + b == b && Kept(a, ignore) == [];
    } else {
      hide Kept;
      var c, t := a[0], a[1..];
      KeptConcat(t, b, ignore);
      KeptFirst(c, t, ignore);
      KeptFirst(c, t + b, ignore);
      SplitFirst(a, b);
      ConcatAssociates(if c in ignore then [] else [c], Kept(t, ignore), Kept(b, ignore));
    }
  }

  lemma CharacterDecomposes(t: Replacements, r: Rules, ignore: set<int>, c: int)
    requires AllEnd(r) && Decomposes(t, r, ignore)
    ensures Lookup(t, c) == Kept(Converged(r, [c]), ignore)
  {
    hide Converged, Ends, Apply;
    if c !in t {
      assert !IsKey(r, c);
      NoKeysIsStable(r, [c]);
      RoundsStep(r, [c]);
      assert [c][1..] == [];
    }
  }

  /** Replacing every character by its decomposition is the same as rewriting the whole string until
      nothing changes and then dropping the ignored characters. */
  lemma {:induction false} StringDecomposes(t: Replacements, r: Rules, ignore: set<int>, s: seq<int>)
    requires AllEnd(r) && Decomposes(t, r, ignore)
    ensures Ends(r, s) && Apply(s, t) == Kept(Converged(r, s), ignore)
  {
    hide Lookup, Kept, Converged, Decomposes, Ends;
    if s == [] {
      EmptyDecomposes(r, ignore);
    } else {
      StringDecomposes(t, r, ignore, s[1..]);
      CharacterDecomposes(t, r, ignore, s[0]);
      ConvergedConcat(r, [s[0]], s[1..]);
      assert s == [s[0]] + s[1..];
      KeptConcat(Converged(r, [s[0]]), Converged(r, s[1..]), ignore);
    }
  }

  lemma EmptyDecomposes(r: Rules, ignore: set<int>)
    ensures Ends(r, []) && Kept(Converged(r, []), ignore) == []
  {
    hide Converged;
    NoKeysIsStable(r, []);
    assert Stable(r, Iterate(r, [], 0));
    RoundsStep(r, []);
  }

  // ---- maps for which the loop does not end, or ends early ----

  /** Two characters that stand for each other: the loop never ends. */
  lemma {:induction false} CycleNeverConverges(k: nat)
    ensures var r, l := Rules(map[], map[0 := [1], 1 := [0]]), Iterate(Rules(map[], map[0 := [1], 1 := [0]]), [0], k);
            (l == [0] || l == [1]) && !Stable(r, l)
  {
    SwapPass(0);
    SwapPass(1);
    if k > 0 {
      CycleNeverConverges(k - 1);
    }
  }

  lemma SwapPass(c: int)
    requires c == 0 || c == 1
    ensures Pass(Rules(map[], map[0 := [1], 1 := [0]]), [c]) == [1 - c]
  {
    ApplyOne(c, map[]);
    ApplyOne(c, map[0 := [1], 1 := [0]]);
  }

  /** The same cycle behind a map that breaks it: no rank for the single maps, but one for passes. */
  lemma MaskedCycleClears(l: seq<int>)
    ensures Clears(Rules(map[0 := [2]], map[0 := [1], 1 := [0]]), l)
  {
    var r := Rules(map[0 := [2]], map[0 := [1], 1 := [0]]);
    ApplyOne(0, r.nfd);
    ApplyOne(1, r.nfd);
    ApplyOne(2, r.con);
    ApplyOne(1, r.con);
    assert Pass(r, [0]) == [2] && Pass(r, [1]) == [0];
    var rank: int -> nat := c => if c == 1 then 2 else if c == 0 then 1 else 0;
    assert Lowers(r, rank);
    RankClearsAll(r, l, rank);
  }

  /** A character that stands for itself: the loop ends at once, with something left to replace, and
      there is no rank. */
  lemma SelfReplacementEnds()
    ensures var r := Rules(map[], map[0 := [0]]);
            Stable(r, [0]) && !NoKeys(r, [0]) && forall rank: int -> nat :: !Lowers(r, rank)
  {
    var r := Rules(map[], map[0 := [0]]);
    ApplyOne(0, r.nfd);
    ApplyOne(0, r.con);
    assert Pass(r, [0]) == [0];
    assert 0 in [0];
    forall rank: int -> nat ensures !Lowers(r, rank) {
      NoRankForSelf(r, 0, rank);
    }
  }

  lemma NoRankForSelf(r: Rules, c: int, rank: int -> nat)
    requires IsKey(r, c) && c in Pass(r, [c])
    ensures !Lowers(r, rank)
  {
    if Lowers(r, rank) { RankDrops(r, c, c, rank); }
  }

  lemma RankDrops(r: Rules, d: int, e: int, rank: int -> nat)
    requires Lowers(r, rank) && IsKey(r, d) && e in Pass(r, [d])
    ensures rank(e) < rank(d)
  {
  }

  /** A character with an entry in both maps is decomposed first: what the other map has for it is not
      used. */
  lemma DecomposedFirst()
    ensures var r := Rules(map[0 := [1]], map[0 := [2]]);
            Ends(r, [0]) && Converged(r, [0]) == [1]
  {
    var r := Rules(map[0 := [1]], map[0 := [2]]);
    ApplyOne(0, r.nfd);
    ApplyOne(1, r.con);
    IterateOnce(r, [0]);
    assert Pass(r, [0]) == [1];
    NoKeysIsStable(r, [1]);
    ConvergedIs(r, [0], 1);
  }

  /** A character that is not decomposed (an empty decomposition is none) and stands for characters that
      stand for themselves converges to these. */
  lemma OneReplacement(r: Rules, c: int, l: seq<int>)
    requires c !in r.nfd && c in r.con && r.con[c] == l && NoKeys(r, l)
    ensures Ends(r, [c]) && Converged(r, [c]) == l
  {
    hide Stable;
    ApplyNothing([c], r.nfd);
    ApplyOne(c, r.con);
    IterateOnce(r, [c]);
    NoKeysIsStable(r, l);
    ConvergedIs(r, [c], 1);
  }

  /** The script's own four: l and the inverted exclamation mark become i, the blank braille pattern and the
      object replacement character vanish. */
  lemma OwnFour(nfd: Replacements, con: Replacements)
    requires forall c :: c in {0x69, 0x6C, 0xA1, 0x2800, 0xFFFC} ==> c !in nfd || nfd[c] == []
    requires 0x69 !in con
    ensures var r := Amended(nfd, con);
            && Ends(r, [0x6C]) && Converged(r, [0x6C]) == [0x69] && Ends(r, [0xA1]) && Converged(r, [0xA1]) == [0x69]
            && Ends(r, [0x2800]) && Converged(r, [0x2800]) == [] && Ends(r, [0xFFFC]) && Converged(r, [0xFFFC]) == []
  {
    hide Ends, Converged;
    var r := Amended(nfd, con);
    OneReplacement(r, 0x6C, [0x69]);
    OneReplacement(r, 0xA1, [0x69]);
    OneReplacement(r, 0x2800, []);
    OneReplacement(r, 0xFFFC, []);
  }
}
