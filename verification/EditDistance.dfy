/** Edit distance as the length of a shortest sequence of single edits, and the recurrence that
    computes it. */
module EditDistance {

  // ---- single edits ----

  datatype Edit = Insert(pos: nat, c: int) | Delete(pos: nat) | Substitute(pos: nat, c: int)

  predicate Applies(e: Edit, s: seq<int>) {
    if e.Insert? then e.pos <= |s| else e.pos < |s|
  }

  function Apply(e: Edit, s: seq<int>): seq<int>
    requires Applies(e, s)
  {
    match e
    case Insert(p, c) => s[..p] + [c] + s[p..]
    case Delete(p) => s[..p] + s[p + 1..]
    case Substitute(p, c) => s[p := c]
  }

  /** The edits, done one after the other, turn a into b. */
  ghost predicate Turns(script: seq<Edit>, a: seq<int>, b: seq<int>) {
    if script == [] then a == b
    else Applies(script[0], a) && Turns(script[1..], Apply(script[0], a), b)
  }

  // ---- the recurrence ----

  function Min3(a: int, b: int, c: int): int {
    var m := if b < a then b else a;
    if c < m then c else m
  }

  /** The distance between the first i elements of a and the first j of b. */
  function Dist(a: seq<int>, b: seq<int>, i: nat, j: nat): nat
    requires i <= |a| && j <= |b|
  {
    if i == 0 then j
    else if j == 0 then i
    else
      Min3(Dist(a, b, i - 1, j) + 1, Dist(a, b, i, j - 1) + 1,
           Dist(a, b, i - 1, j - 1) + if a[i - 1] != b[j - 1] then 1 else 0)
  }

  function Distance(a: seq<int>, b: seq<int>): nat {
    Dist(a, b, |a|, |b|)
  }

  lemma Border(a: seq<int>, b: seq<int>, i: nat, j: nat)
    requires i <= |a| && j <= |b|
    ensures Dist(a, b, 0, j) == j && Dist(a, b, i, 0) == i
  {
  }

  lemma Recurrence(a: seq<int>, b: seq<int>, i: nat, j: nat)
    requires 0 < i <= |a| && 0 < j <= |b|
    ensures var d, subst := Dist(a, b, i, j), if a[i - 1] != b[j - 1] then 1 else 0;
            var x, y, z := Dist(a, b, i - 1, j) + 1, Dist(a, b, i, j - 1) + 1, Dist(a, b, i - 1, j - 1) + subst;
            d == Min3(x, y, z) && d <= x && d <= y && d <= z && (d == x || d == y || d == z)
  {
  }

  lemma {:induction false} DistSymmetric(a: seq<int>, b: seq<int>, i: nat, j: nat)
    requires i <= |a| && j <= |b|
    ensures Dist(a, b, i, j) == Dist(b, a, j, i)
  {
    hide Dist;
    if i == 0 || j == 0 {
      Border(a, b, i, j);
      Border(b, a, j, i);
    } else {
      Recurrence(a, b, i, j);
      Recurrence(b, a, j, i);
      DistSymmetric(a, b, i - 1, j);
      DistSymmetric(a, b, i, j - 1);
      DistSymmetric(a, b, i - 1, j - 1);
    }
  }

  lemma {:induction false} DistBounds(a: seq<int>, b: seq<int>, i: nat, j: nat)
    requires i <= |a| && j <= |b|
    ensures i - j <= Dist(a, b, i, j) && j - i <= Dist(a, b, i, j) <= i + j
  {
    hide Dist;
    if i == 0 || j == 0 {
      Border(a, b, i, j);
    } else {
      Recurrence(a, b, i, j);
      DistBounds(a, b, i - 1, j);
      DistBounds(a, b, i, j - 1);
      DistBounds(a, b, i - 1, j - 1);
    }
  }

  lemma {:induction false} DistTriangle(a: seq<int>, b: seq<int>, c: seq<int>, i: nat, j: nat, k: nat)
    requires i <= |a| && j <= |b| && k <= |c|
    ensures Dist(a, c, i, k) <= Dist(a, b, i, j) + Dist(b, c, j, k)
    decreases i + j + k
  {
    hide Dist;
    if i == 0 || j == 0 || k == 0 {
      DistBounds(a, b, i, j);
      DistBounds(b, c, j, k);
      DistBounds(a, c, i, k);
      Border(a, b, i, j);
      Border(b, c, j, k);
      Border(a, c, i, k);
    } else {
      Recurrence(a, b, i, j);
      Recurrence(b, c, j, k);
      Recurrence(a, c, i, k);
      if Dist(a, b, i, j) == Dist(a, b, i - 1, j) + 1 {
        DistTriangle(a, b, c, i - 1, j, k);
      } else if Dist(b, c, j, k) == Dist(b, c, j, k - 1) + 1 {
        DistTriangle(a, b, c, i, j, k - 1);
      } else if Dist(a, b, i, j) == Dist(a, b, i, j - 1) + 1 {
        if Dist(b, c, j, k) == Dist(b, c, j - 1, k) + 1 {
          DistTriangle(a, b, c, i, j - 1, k);
        } else {
          DistTriangle(a, b, c, i, j - 1, k - 1);
        }
      } else if Dist(b, c, j, k) == Dist(b, c, j - 1, k) + 1 {
        DistTriangle(a, b, c, i - 1, j - 1, k);
      } else {
        DistTriangle(a, b, c, i - 1, j - 1, k - 1);
      }
    }
  }

  /** A common continuation does not raise the distance. */
  lemma {:induction false} DistSuffix(a: seq<int>, b: seq<int>, i: nat, j: nat, m: nat)
    requires i + m <= |a| && j + m <= |b|
    requires forall k :: i <= k < i + m ==> a[k] == b[k - i + j]
    ensures Dist(a, b, i + m, j + m) <= Dist(a, b, i, j)
    decreases m
  {
    hide Dist;
    if m > 0 {
      assert a[i + m - 1] == b[j + m - 1];
      Recurrence(a, b, i + m, j + m);
      DistSuffix(a, b, i, j, m - 1);
    }
  }

  lemma OneEdit(e: Edit, s: seq<int>)
    requires Applies(e, s)
    ensures Distance(s, Apply(e, s)) <= 1
  {
    hide Dist;
    var t, p := Apply(e, s), e.pos;
    DistSuffix(s, t, 0, 0, p);
    Border(s, t, 0, 0);
    match e
    case Insert(_, _) =>
      if p > 0 { Recurrence(s, t, p, p + 1); } else { Border(s, t, 0, 1); }
      DistSuffix(s, t, p, p + 1, |s| - p);
    case Delete(_) =>
      if p > 0 { Recurrence(s, t, p + 1, p); } else { Border(s, t, 1, 0); }
      DistSuffix(s, t, p + 1, p, |s| - p - 1);
    case Substitute(_, _) =>
      Recurrence(s, t, p + 1, p + 1);
      DistSuffix(s, t, p + 1, p + 1, |s| - p - 1);
  }

  // ---- the recurrence is the shortest script ----

  /** No script turning a into b is shorter than the distance... */
  lemma {:induction false} DistanceIsLowerBound(script: seq<Edit>, a: seq<int>, b: seq<int>)
    requires Turns(script, a, b)
    ensures Distance(a, b) <= |script|
  {
    hide Dist, Applies, Apply;
    if script == [] {
      Border(a, b, 0, 0);
      DistSuffix(a, b, 0, 0, |a|);
    } else {
      var a' := Apply(script[0], a);
      OneEdit(script[0], a);
      DistanceIsLowerBound(script[1..], a', b);
      DistTriangle(a, a', b, |a|, |a'|, |b|);
    }
  }

  lemma {:induction false} TurnsThen(script: seq<Edit>, a: seq<int>, b: seq<int>, e: Edit)
    requires Turns(script, a, b) && Applies(e, b)
    ensures Turns(script + [e], a, Apply(e, b))
  {
    hide Apply;
    if script == [] {
      assert Turns([e][1..], Apply(e, b), Apply(e, b));
    } else {
      TurnsThen(script[1..], Apply(script[0], a), b, e);
      assert (script + [e])[1..] == script[1..] + [e];
    }
  }

  lemma ApplyWithTail(e: Edit, a: seq<int>, t: int)
    requires Applies(e, a)
    ensures Applies(e, a + [t]) && Apply(e, a + [t]) == Apply(e, a) + [t]
  {
  }

  lemma {:induction false} TurnsWithTail(script: seq<Edit>, a: seq<int>, b: seq<int>, t: int)
    requires Turns(script, a, b)
    ensures Turns(script, a + [t], b + [t])
  {
    hide Apply;
    if script != [] {
      var e := script[0];
      TurnsWithTail(script[1..], Apply(e, a), b, t);
      ApplyWithTail(e, a, t);
    }
  }

  lemma TurnsFirst(e: Edit, script: seq<Edit>, a: seq<int>, b: seq<int>)
    requires Applies(e, a) && Turns(script, Apply(e, a), b)
    ensures Turns([e] + script, a, b)
  {
    assert ([e] + script)[1..] == script;
  }

  lemma LastEdits(s: seq<int>, i: nat, c: int)
    requires i < |s|
    ensures Apply(Delete(i), s[..i + 1]) == s[..i]
    ensures s[i] == c ==> s[..i + 1] == s[..i] + [c] == Apply(Insert(i, c), s[..i])
    ensures Apply(Substitute(i, s[i]), s[..i] + [c]) == s[..i + 1]
  {
  }

  /** ...and some script has exactly that length. */
  lemma {:induction false} ShortestScript(a: seq<int>, b: seq<int>, i: nat, j: nat) returns (script: seq<Edit>)
    requires i <= |a| && j <= |b|
    ensures Turns(script, a[..i], b[..j]) && |script| == Dist(a, b, i, j)
    decreases i + j
  {
    hide Dist, Turns, Apply;
    Border(a, b, i, j);
    if i > 0 && j > 0 { Recurrence(a, b, i, j); }
    if i > 0 { LastEdits(a, i - 1, a[i - 1]); Border(a, b, i - 1, j); }
    if j > 0 { LastEdits(b, j - 1, b[j - 1]); Border(a, b, i, j - 1); }
    if i == 0 && j == 0 {
      script := [];
      NoEdits(a[..0]);
    } else if i > 0 && (j == 0 || Dist(a, b, i, j) == Dist(a, b, i - 1, j) + 1) {
      var rest := ShortestScript(a, b, i - 1, j);
      TurnsFirst(Delete(i - 1), rest, a[..i], b[..j]);
      script := [Delete(i - 1)] + rest;
    } else if i == 0 || Dist(a, b, i, j) == Dist(a, b, i, j - 1) + 1 {
      var rest := ShortestScript(a, b, i, j - 1);
      TurnsThen(rest, a[..i], b[..j - 1], Insert(j - 1, b[j - 1]));
      script := rest + [Insert(j - 1, b[j - 1])];
    } else {
      var rest := ShortestScript(a, b, i - 1, j - 1);
      var t := a[i - 1];
      TurnsWithTail(rest, a[..i - 1], b[..j - 1], t);
      if t == b[j - 1] {
        script := rest;
      } else {
        LastEdits(b, j - 1, t);
        TurnsThen(rest, a[..i], b[..j - 1] + [t], Substitute(j - 1, b[j - 1]));
        script := rest + [Substitute(j - 1, b[j - 1])];
      }
    }
  }

  lemma NoEdits(a: seq<int>)
    ensures Turns([], a, a)
  {
  }

  /** The distance is the minimum length of the scripts turning a into b. */
  lemma DistanceIsMinimum(a: seq<int>, b: seq<int>)
    ensures exists script :: Turns(script, a, b) && |script| == Distance(a, b)
    ensures forall script :: Turns(script, a, b) ==> Distance(a, b) <= |script|
  {
    var script := ShortestScript(a, b, |a|, |b|);
    assert a[..|a|] == a && b[..|b|] == b;
    forall other | Turns(other, a, b) ensures Distance(a, b) <= |other| {
      DistanceIsLowerBound(other, a, b);
    }
  }

  /** The distance is a metric. */
  lemma DistanceIsMetric(a: seq<int>, b: seq<int>, c: seq<int>)
    ensures Distance(a, b) == 0 <==> a == b
    ensures Distance(a, b) == Distance(b, a)
    ensures Distance(a, c) <= Distance(a, b) + Distance(b, c)
  {
    hide Dist;
    DistSymmetric(a, b, |a|, |b|);
    DistTriangle(a, b, c, |a|, |b|, |c|);
    var script := ShortestScript(a, b, |a|, |b|);
    assert a[..|a|] == a && b[..|b|] == b;
    if a == b {
      assert Turns([], a, b);
      DistanceIsLowerBound([], a, b);
    }
  }
}
