/** Exactly when the loop of scripts/generate_unicode_confusables_data.py ends from every character,
    whatever the maps: characters may stand for lists that hold them. */
module ConfusablesEnd {
  import opened Sequences
  import opened Confusables

  /** Nothing is left of a character after some passes. */
  ghost predicate Vanishes(r: Rules, c: int) { exists n: nat :: Iterate(r, [c], n) == [] }

  /** How many characters of a list never vanish. */
  ghost function Living(r: Rules, l: seq<int>): nat {
    if l == [] then 0 else (if Vanishes(r, l[0]) then 0 else 1) + Living(r, l[1..])
  }

  lemma LivingFirst(r: Rules, c: int, l: seq<int>)
    ensures Living(r, [c] + l) == (if Vanishes(r, c) then 0 else 1) + Living(r, l)
  {
    assert ([c] + l)[1..] == l;
  }

  lemma LivingOne(r: Rules, c: int)
    ensures Living(r, []) == 0 && Living(r, [c]) == if Vanishes(r, c) then 0 else 1
  {
    hide Vanishes;
    assert [c][1..] == [];
  }

  lemma {:induction false} LivingConcat(r: Rules, a: seq<int>, b: seq<int>)
    ensures Living(r, a + b) == Living(r, a) + Living(r, b)
  {
    hide Vanishes, Living;
    if a == [] {
      assert a + b == b;
      LivingOne(r, 0);
    } else {
      LivingConcat(r, a[1..], b);
      LivingFirst(r, a[0], a[1..]);
      LivingFirst(r, a[0], a[1..] + b);
      SplitFirst(a, b);
    }
  }

  lemma {:induction false} LivingMember(r: Rules, l: seq<int>, c: int)
    requires c in l && !Vanishes(r, c)
    ensures Living(r, l) >= 1
  {
    hide Vanishes;
    if c != l[0] { LivingMember(r, l[1..], c); }
  }

  lemma {:induction false} SomeLiving(r: Rules, l: seq<int>) returns (c: int)
    requires Living(r, l) >= 1
    ensures c in l && !Vanishes(r, c)
  {
    hide Vanishes;
    if Vanishes(r, l[0]) { c := SomeLiving(r, l[1..]); } else { c := l[0]; }
  }

  lemma Parts(l: seq<int>, c: int) returns (a: seq<int>, b: seq<int>)
    requires c in l
    ensures l == a + [c] + b
  {
    var i :| 0 <= i < |l| && l[i] == c;
    a, b := l[..i], l[i + 1..];
  }

  lemma LivingAt(r: Rules, a: seq<int>, c: int, b: seq<int>)
    ensures Living(r, a + [c] + b) == Living(r, a) + (if Vanishes(r, c) then 0 else 1) + Living(r, b)
  {
    hide Vanishes, Living;
    LivingConcat(r, a + [c], b);
    LivingConcat(r, a, [c]);
    LivingOne(r, c);
  }

  /** Two different characters that live count twice. */
  lemma OnlyLiving(r: Rules, l: seq<int>, c: int, d: int)
    requires Living(r, l) == 1 && c in l && d in l && !Vanishes(r, c) && !Vanishes(r, d)
    ensures c == d
  {
    hide Vanishes, Living;
    var a, b := Parts(l, c);
    LivingAt(r, a, c, b);
    if c != d {
      if d in a { LivingMember(r, a, d); } else { LivingMember(r, b, d); }
      assert false;
    }
  }

  // ---- what a pass does to the living ----

  lemma {:induction false} EmptyStays(r: Rules, l: seq<int>, m: nat, n: nat)
    requires Iterate(r, l, m) == [] && m <= n
    ensures Iterate(r, l, n) == []
  {
    hide Iterate;
    IterateAdd(r, l, m, n - m);
    IterateEmpty(r, n - m);
  }

  /** Where no character lives, the whole list vanishes. */
  lemma {:induction false} NoneLiving(r: Rules, l: seq<int>) returns (n: nat)
    requires Living(r, l) == 0
    ensures Iterate(r, l, n) == []
  {
    hide Iterate;
    if l == [] {
      n := 0;
      IterateOnce(r, l);
    } else {
      var k := NoneLiving(r, l[1..]);
      var m: nat :| Iterate(r, [l[0]], m) == [];
      n := m + k;
      EmptyStays(r, [l[0]], m, n);
      EmptyStays(r, l[1..], k, n);
      assert l == [l[0]] + l[1..];
      IterateConcat(r, [l[0]], l[1..], n);
    }
  }

  lemma VanishesLater(r: Rules, c: int, n: nat)
    requires Iterate(r, Pass(r, [c]), n) == []
    ensures Vanishes(r, c)
  {
    hide Iterate, Pass;
    IterateOnce(r, [c]);
    IterateAdd(r, [c], 1, n);
  }

  lemma {:induction false} PartsVanish(r: Rules, l: seq<int>, n: nat)
    requires Iterate(r, l, n) == []
    ensures Living(r, l) == 0
  {
    hide Iterate;
    if l != [] {
      assert l == [l[0]] + l[1..];
      IterateConcat(r, [l[0]], l[1..], n);
      PartsVanish(r, l[1..], n);
    }
  }

  /** A character lives if and only if something that lives comes of it. */
  lemma LivesOn(r: Rules, c: int)
    ensures Vanishes(r, c) <==> Living(r, Pass(r, [c])) == 0
  {
    hide Iterate, Pass, Living;
    if Living(r, Pass(r, [c])) == 0 {
      var n := NoneLiving(r, Pass(r, [c]));
      VanishesLater(r, c, n);
    }
    if n: nat :| Iterate(r, [c], n) == [] {
      EmptyStays(r, [c], n, n + 1);
      IterateOnce(r, [c]);
      IterateAdd(r, [c], 1, n);
      PartsVanish(r, Pass(r, [c]), n);
    }
  }

  lemma PassFirst(r: Rules, l: seq<int>)
    requires l != []
    ensures l == [l[0]] + l[1..] && Living(r, Pass(r, l)) == Living(r, Pass(r, [l[0]])) + Living(r, Pass(r, l[1..]))
  {
    hide Pass, Living;
    assert l == [l[0]] + l[1..];
    PassConcat(r, [l[0]], l[1..]);
    LivingConcat(r, Pass(r, [l[0]]), Pass(r, l[1..]));
  }

  /** No pass makes them fewer; if it does not make them more, each has one successor. */
  lemma {:induction false} LivingGrows(r: Rules, l: seq<int>)
    ensures Living(r, Pass(r, l)) >= Living(r, l)
    ensures Living(r, Pass(r, l)) == Living(r, l) ==>
              forall c :: c in l && !Vanishes(r, c) ==> Living(r, Pass(r, [c])) == 1
  {
    hide Pass, Vanishes;
    if l == [] {
      PassEmpty(r);
    } else {
      LivingGrows(r, l[1..]);
      PassFirst(r, l);
      LivesOn(r, l[0]);
    }
  }

  lemma {:induction false} LivingKept(r: Rules, l: seq<int>)
    requires forall c :: c in l && !Vanishes(r, c) ==> Living(r, Pass(r, [c])) == 1
    ensures Living(r, Pass(r, l)) == Living(r, l)
  {
    hide Pass, Vanishes;
    if l == [] {
      PassEmpty(r);
    } else {
      LivingKept(r, l[1..]);
      PassFirst(r, l);
      LivesOn(r, l[0]);
    }
  }

  // ---- characters that come back ----

  lemma PassHas(r: Rules, l: seq<int>, c: int, e: int)
    requires c in l && e in Pass(r, [c])
    ensures e in Pass(r, l)
  {
    hide Pass;
    var a, b := Parts(l, c);
    PassConcat(r, a + [c], b);
    PassConcat(r, a, [c]);
  }

  lemma PassWithin(r: Rules, l: seq<int>, u: seq<int>)
    requires (forall e :: e in l ==> e in u) && Pass(r, u) == u
    ensures forall e :: e in Pass(r, l) ==> e in u
  {
    hide Pass;
    forall e | e in Pass(r, l) ensures e in u {
      PassMember(r, l, e);
      var c :| c in l && e in Pass(r, [c]);
      PassHas(r, u, c, e);
    }
  }

  lemma {:induction false} IterateHas(r: Rules, l: seq<int>, c: int, e: int, n: nat)
    requires c in l && e in Iterate(r, [c], n)
    ensures e in Iterate(r, l, n)
  {
    hide Iterate;
    var a, b := Parts(l, c);
    IterateConcat(r, a + [c], b, n);
    IterateConcat(r, a, [c], n);
  }

  /** It comes back as late as one likes. */
  lemma {:induction false} ComesBackLate(r: Rules, d: int, j: nat, n: nat) returns (m: nat)
    requires j >= 1 && d in Iterate(r, [d], j)
    ensures m >= n && d in Iterate(r, [d], m)
    decreases n
  {
    hide Iterate;
    if n == 0 {
      m := 0;
      IterateOnce(r, [d]);
    } else {
      var k := ComesBackLate(r, d, j, n - 1);
      m := k + j;
      IterateAdd(r, [d], k, j);
      IterateHas(r, Iterate(r, [d], k), d, d, j);
    }
  }

  lemma ComesBackLives(r: Rules, d: int, j: nat)
    requires j >= 1 && d in Iterate(r, [d], j)
    ensures !Vanishes(r, d)
  {
    hide Iterate;
    if n: nat :| Iterate(r, [d], n) == [] {
      var m := ComesBackLate(r, d, j, n);
      EmptyStays(r, [d], n, m);
      assert false;
    }
  }

  /** The list it converges to holds the character itself. */
  lemma ComesBackStays(r: Rules, d: int, j: nat)
    requires j >= 1 && d in Iterate(r, [d], j) && Ends(r, [d])
    ensures d in Converged(r, [d]) && Pass(r, Converged(r, [d])) == Converged(r, [d])
  {
    hide Iterate, Pass;
    var n := Rounds(r, [d]);
    var m := ComesBackLate(r, d, j, n);
    IterateAdd(r, [d], n, m - n);
    StableStays(r, Iterate(r, [d], n), m - n);
  }

  /** With each of them having one living successor, one living character stays one. */
  lemma {:induction false} OneLives(r: Rules, d: int, u: seq<int>, n: nat)
    requires d in u && !Vanishes(r, d) && Pass(r, u) == u
    requires forall c :: c in u && !Vanishes(r, c) ==> Living(r, Pass(r, [c])) == 1
    ensures (forall e :: e in Iterate(r, [d], n) ==> e in u) && Living(r, Iterate(r, [d], n)) == 1
  {
    hide Pass, Vanishes, Living;
    if n == 0 {
      IterateOnce(r, [d]);
      LivingOne(r, d);
    } else {
      OneLives(r, d, u, n - 1);
      PassWithin(r, Iterate(r, [d], n - 1), u);
      LivingKept(r, Iterate(r, [d], n - 1));
    }
  }

  /** A character that comes back comes back at once, once, and everything else that comes of it vanishes. */
  lemma ComesBack(r: Rules, d: int, j: nat)
    requires j >= 1 && d in Iterate(r, [d], j) && Ends(r, [d])
    ensures d in Pass(r, [d]) && !Vanishes(r, d) && Living(r, Pass(r, [d])) == 1
    ensures forall e :: e in Pass(r, [d]) && e != d ==> Vanishes(r, e)
  {
    hide Iterate, Pass, Vanishes, Living;
    ComesBackLives(r, d, j);
    ComesBackStays(r, d, j);
    var u := Converged(r, [d]);
    LivingGrows(r, u);
    OneLives(r, d, u, Rounds(r, [d]));
    forall e | e in Pass(r, [d]) && !Vanishes(r, e) ensures e == d {
      PassHas(r, u, d, e);
      OnlyLiving(r, u, d, e);
    }
    var e := SomeLiving(r, Pass(r, [d]));
  }

  // ---- how long the loop takes ----

  lemma FixedIsStable(r: Rules, l: seq<int>)
    requires Ends(r, l) && Pass(r, l) == l
    ensures Stable(r, l)
  {
    hide Stable, Pass;
    var k: nat :| Stable(r, Iterate(r, l, k));
    FixedStays(r, l, k);
  }

  lemma {:induction false} FixedStays(r: Rules, l: seq<int>, k: nat)
    requires Pass(r, l) == l
    ensures Iterate(r, l, k) == l
  {
    hide Pass;
    if k > 0 { FixedStays(r, l, k - 1); }
  }

  lemma EndsLater(r: Rules, l: seq<int>, n: nat)
    requires Ends(r, l)
    ensures Ends(r, Iterate(r, l, n))
  {
    hide Iterate, Stable;
    var k := Rounds(r, l);
    IterateAdd(r, l, k, n);
    StableStays(r, Iterate(r, l, k), n);
    IterateAdd(r, l, n, k);
    assert k + n == n + k;
  }

  /** A list is stable as soon as all its characters are. */
  lemma {:induction false} SlowOne(r: Rules, l: seq<int>, n: nat) returns (e: int)
    requires AllEnd(r) && !Stable(r, Iterate(r, l, n))
    ensures e in l && Rounds(r, [e]) > n
    decreases |l|
  {
    hide Iterate, Stable, Ends, Rounds;
    if l == [] {
      e := 0;
      IterateEmpty(r, n);
      NoKeysIsStable(r, []);
      assert false;
    } else {
      e := l[0];
      assert l == [l[0]] + l[1..];
      if Rounds(r, [e]) <= n {
        StableBy(r, [e], n);
        IterateConcat(r, [e], l[1..], n);
        if Stable(r, Iterate(r, l[1..], n)) {
          StableConcat(r, Iterate(r, [e], n), Iterate(r, l[1..], n));
        }
        e := SlowOne(r, l[1..], n);
      }
    }
  }

  lemma StableBy(r: Rules, l: seq<int>, n: nat)
    requires Ends(r, l) && Rounds(r, l) <= n
    ensures Stable(r, Iterate(r, l, n)) && Converged(r, l) == Iterate(r, l, n)
  {
    hide Iterate, Stable;
    var k := Rounds(r, l);
    IterateAdd(r, l, k, n - k);
    StableStays(r, Iterate(r, l, k), n - k);
  }

  /** What vanishes has vanished when it is stable. */
  lemma GoneBy(r: Rules, c: int, n: nat)
    requires Ends(r, [c]) && Vanishes(r, c) && Rounds(r, [c]) <= n
    ensures Iterate(r, [c], n) == []
  {
    hide Iterate, Stable;
    StableBy(r, [c], n);
    var m: nat :| Iterate(r, [c], m) == [];
    EmptyStays(r, [c], m, m + n);
    IterateAdd(r, [c], n, m);
    StableStays(r, Iterate(r, [c], n), m);
    assert m + n == n + m;
  }

  /** The slowest of a list that vanishes. */
  lemma {:induction false} SlowVanishing(r: Rules, l: seq<int>, n: nat) returns (e: int)
    requires AllEnd(r) && Living(r, l) == 0 && Iterate(r, l, n) != []
    ensures e in l && Vanishes(r, e) && Rounds(r, [e]) > n
    decreases |l|
  {
    hide Iterate, Ends, Rounds, Vanishes;
    if l == [] {
      e := 0;
      IterateEmpty(r, n);
      assert false;
    } else {
      e := l[0];
      assert l == [l[0]] + l[1..];
      if Rounds(r, [e]) <= n {
        GoneBy(r, e, n);
        IterateConcat(r, [e], l[1..], n);
        e := SlowVanishing(r, l[1..], n);
      }
    }
  }

  /** A character that takes k passes is replaced by another one that takes at least k - 1. */
  lemma SlowNext(r: Rules, d: int) returns (e: int)
    requires AllEnd(r) && Rounds(r, [d]) >= 2
    ensures e in Pass(r, [d]) && e != d && Rounds(r, [e]) >= Rounds(r, [d]) - 1
  {
    hide Iterate, Pass, Stable, Rounds, Ends;
    var k := Rounds(r, [d]);
    BeforeRounds(r, [d], k - 1);
    BeforeRounds(r, [d], k - 2);
    IterateOnce(r, [d]);
    IterateAdd(r, [d], 1, k - 2);
    if d in Pass(r, [d]) {
      e := SlowBeside(r, d, k - 2);
    } else {
      e := SlowOne(r, Pass(r, [d]), k - 2);
    }
  }

  lemma BeforeRounds(r: Rules, l: seq<int>, n: nat)
    requires Ends(r, l) && n < Rounds(r, l)
    ensures !Stable(r, Iterate(r, l, n))
  {
    hide Iterate, Stable;
  }

  /** If the character itself comes back, the other one is among those that vanish. */
  lemma SlowBeside(r: Rules, d: int, n: nat) returns (e: int)
    requires AllEnd(r) && d in Pass(r, [d]) && !Stable(r, Iterate(r, [d], n))
    ensures e in Pass(r, [d]) && e != d && Rounds(r, [e]) > n
  {
    hide Iterate, Pass, Stable, Rounds, Ends, Vanishes, Living;
    IterateOnce(r, [d]);
    ComesBack(r, d, 1);
    var a, b := Parts(Pass(r, [d]), d);
    LivingAt(r, a, d, b);
    if Iterate(r, a, n) != [] {
      e := SlowVanishing(r, a, n);
    } else if Iterate(r, b, n) != [] {
      e := SlowVanishing(r, b, n);
    } else {
      e := d;
      IterateAdd(r, [d], 1, n);
      IterateConcat(r, a + [d], b, n);
      IterateConcat(r, a, [d], n);
      NextIterate(r, [d], n);
      EndsLater(r, [d], n);
      FixedIsStable(r, Iterate(r, [d], n));
      assert false;
    }
  }

  lemma NextIterate(r: Rules, l: seq<int>, n: nat)
    ensures Iterate(r, l, n + 1) == Pass(r, Iterate(r, l, n))
  {
  }

  // ---- the number of keys is enough ----

  /** Each character of the chain comes of the one before it, and is another one. */
  ghost predicate IsChain(r: Rules, l: seq<int>) {
    forall i :: 0 < i < |l| ==> l[i] in Pass(r, [l[i - 1]]) && l[i] != l[i - 1]
  }

  lemma {:induction false} ChainReaches(r: Rules, l: seq<int>, i: nat, j: nat)
    requires IsChain(r, l) && i <= j < |l|
    ensures l[j] in Iterate(r, [l[i]], j - i)
    decreases j - i
  {
    hide Pass, Iterate;
    if i == j {
      IterateOnce(r, [l[i]]);
    } else {
      ChainReaches(r, l, i + 1, j);
      IterateOnce(r, [l[i]]);
      IterateAdd(r, [l[i]], 1, j - i - 1);
      IterateHas(r, Pass(r, [l[i]]), l[i + 1], l[j], j - i - 1);
    }
  }

  /** It does not come back to any of them. */
  lemma ChainDistinct(r: Rules, l: seq<int>, i: nat, j: nat)
    requires AllEnd(r) && IsChain(r, l) && i < j < |l|
    ensures l[i] != l[j]
  {
    hide Pass, Iterate, Ends, Vanishes;
    if l[i] == l[j] {
      var d, e := l[i], l[i + 1];
      ChainReaches(r, l, i, j);
      ChainReaches(r, l, i + 1, j);
      ComesBack(r, d, j - i);
      IterateOnce(r, [d]);
      IterateAdd(r, [e], j - i - 1, 1);
      IterateHas(r, Iterate(r, [e], j - i - 1), d, e, 1);
      ComesBackLives(r, e, j - i);
      assert false;
    }
  }

  /** A chain as long as the passes a character takes. */
  lemma {:induction false} SlowChain(r: Rules, d: int, k: nat) returns (l: seq<int>)
    requires AllEnd(r) && 1 <= k <= Rounds(r, [d])
    ensures |l| == k && l[0] == d && IsChain(r, l)
    ensures forall c :: c in l ==> Rounds(r, [c]) >= 1
    decreases k
  {
    hide Pass, Rounds, Ends;
    if k == 1 {
      l := [d];
    } else {
      var e := SlowNext(r, d);
      var rest := SlowChain(r, e, k - 1);
      l := [d] + rest;
    }
  }

  lemma {:induction false} DistinctCount(l: seq<int>, s: set<int>)
    requires (forall i, j :: 0 <= i < j < |l| ==> l[i] != l[j]) && forall c :: c in l ==> c in s
    ensures |l| <= |s|
    decreases |l|
  {
    if l != [] {
      var n := |l| - 1;
      assert l[n] in l;
      forall c | c in l[..n] ensures c in s - {l[n]} { assert c in l; }
      DistinctCount(l[..n], s - {l[n]});
      MoreElements(s - {l[n]}, s, l[n]);
    }
  }

  lemma SlowIsKey(r: Rules, c: int)
    requires Ends(r, [c]) && Rounds(r, [c]) >= 1
    ensures c in Keys(r)
  {
    hide Iterate, Stable, IsKey;
    KeyIn(r, c);
    IterateOnce(r, [c]);
    BeforeRounds(r, [c], 0);
    if !IsKey(r, c) {
      NoKeysIsStable(r, [c]);
      assert false;
    }
  }

  /** No character takes more passes than there are keys. */
  lemma RoundsBound(r: Rules, c: int)
    requires AllEnd(r)
    ensures Rounds(r, [c]) <= |Keys(r)|
  {
    hide Rounds, Ends, Keys, IsChain;
    if Rounds(r, [c]) >= 1 {
      var l := SlowChain(r, c, Rounds(r, [c]));
      forall i, j | 0 <= i < j < |l| ensures l[i] != l[j] { ChainDistinct(r, l, i, j); }
      forall e | e in l ensures e in Keys(r) { SlowIsKey(r, e); }
      DistinctCount(l, Keys(r));
    }
  }

  /** The loop ends from every character if and only if as many passes as there are keys leave every key
      at a stable list. */
  lemma EndsIffChecked(r: Rules)
    ensures AllEnd(r) <==> forall c :: c in Keys(r) ==> Stable(r, Iterate(r, [c], |Keys(r)|))
  {
    hide Iterate, Stable, Rounds, IsKey;
    if AllEnd(r) {
      forall c | c in Keys(r) ensures Stable(r, Iterate(r, [c], |Keys(r)|)) {
        RoundsBound(r, c);
        StableBy(r, [c], |Keys(r)|);
      }
    }
    if forall c :: c in Keys(r) ==> Stable(r, Iterate(r, [c], |Keys(r)|)) {
      forall c: int ensures Ends(r, [c]) {
        KeyIn(r, c);
        if c !in Keys(r) {
          OthersAreClear(r, c);
          ClearsEnds(r, [c]);
        }
      }
    }
  }

  // ---- characters that stand for lists holding them ----

  /** A character that leaves one more behind at each pass: the loop never ends. */
  lemma {:induction false} GrowingNeverEnds(k: nat)
    ensures var r := Rules(map[], map[0 := [0, 1]]);
            |Iterate(r, [0], k)| == k + 1 && !Stable(r, Iterate(r, [0], k))
  {
    var r := Rules(map[], map[0 := [0, 1]]);
    GrowingPass(r, k);
    GrowingPass(r, k + 1);
  }

  lemma {:induction false} GrowingPass(r: Rules, k: nat)
    requires r == Rules(map[], map[0 := [0, 1]])
    ensures Iterate(r, [0], k) == [0] + seq(k, _ => 1) && Pass(r, Iterate(r, [0], k)) == [0] + seq(k + 1, _ => 1)
  {
    if k == 0 {
      assert [0] + seq(0, _ => 1) == [0];
    } else {
      GrowingPass(r, k - 1);
    }
    var ones: seq<int> := seq(k, _ => 1);
    ApplyNothing([0] + ones, r.nfd);
    ApplyNothing(ones, r.con);
    ApplyFirst(0, ones, r.con);
    assert [0, 1] + ones == [0] + seq(k + 1, _ => 1);
  }

  /** If what it leaves behind vanishes, it ends. */
  lemma VanishingTailEnds()
    ensures var r := Rules(map[], map[0 := [0, 1], 1 := []]);
            AllEnd(r) && !NoKeys(r, Converged(r, [0]))
  {
    var r := Rules(map[], map[0 := [0, 1], 1 := []]);
    TailPass(r);
    hide Pass, Apply, Stable, Iterate;
    assert Iterate(r, [0], 2) == [0, 1] by { NextIterate(r, [0], 1); IterateOnce(r, [0]); }
    assert Iterate(r, [1], 2) == [] by { NextIterate(r, [1], 1); IterateOnce(r, [1]); }
    assert Keys(r) == {0, 1};
    EndsIffChecked(r);
    ConvergedIs(r, [0], 2);
    assert 0 in [0, 1];
  }

  lemma TailPass(r: Rules)
    requires r == Rules(map[], map[0 := [0, 1], 1 := []])
    ensures Pass(r, [0]) == [0, 1] && Pass(r, [0, 1]) == [0, 1] && Pass(r, [1]) == [] && Pass(r, []) == []
    ensures Stable(r, [0, 1]) && Stable(r, [])
  {
    ApplyNothing([0], r.nfd);
    ApplyNothing([1], r.nfd);
    ApplyNothing([0, 1], r.nfd);
    ApplyOne(0, r.con);
    ApplyOne(1, r.con);
    ApplyFirst(0, [1], r.con);
    assert [0] + [1] == [0, 1];
  }
}
