/** What one Tick does to a hook, from what it reads alone, and what that means for runs: how a hook
    flies, holds on, retracts and gets ready again. */
module HookTicks {
  import opened Hook

  /** The key is let go. */
  predicate KeyUp(t: Input) { t.useInput && !t.hook }

  /** The hook is in the air when the input has been dealt with: it has been, or it is launched. */
  predicate InTheAir(c: Core, t: Input) {
    !KeyUp(t) && (c.hookState == HOOK_FLYING || (c.hookState == HOOK_IDLE && t.useInput))
  }

  /** The count a launch sets, or the one there is. */
  function CountOf(c: Core, t: Input): int {
    if c.hookState == HOOK_IDLE then t.launchTick else c.hookTick
  }

  /** The flying hook looks for players at all. */
  predicate Searches(w: World, me: int, t: Input)
    requires IsCharacter(w, me)
  {
    HasWorld(w, me) && t.playerHooking
  }

  /** The player it takes, if any. */
  ghost predicate Takes(w: World, me: int, t: Input, k: int)
    requires IsCharacter(w, me)
  {
    if Searches(w, me, t) then NearestBelow(w, me, t, |w|, k) else k == -1
  }

  /** A player is held on to for another Tick. */
  predicate HoldsOn(w: World, me: int, t: Input, k: int, count: int)
    requires IsCharacter(w, me)
  {
    count <= 60 && (HasWorld(w, me) ==> w[me].Filled? && IsPlayer(w, k) && t.keepsHook(k))
  }

  // ---- the parts of a Tick ----

  lemma AfterInput(w: World, me: int, t: Input)
    requires IsCharacter(w, me) && HookOk(w[me].core)
    ensures var c, w' := w[me].core, HandleInput(w, me, t);
            && (KeyUp(t) ==> w'[me].core.hookState == HOOK_IDLE && w'[me].core.hookedPlayer == -1)
            && (InTheAir(c, t) ==>
                  w'[me].core.hookState == HOOK_FLYING && w'[me].core.hookedPlayer == -1 && w'[me].core.hookTick == CountOf(c, t))
            && (!KeyUp(t) && !InTheAir(c, t) ==> w' == w)
  {
    SetHookedSets(w, me, -1);
    SetHookedSets(SetState(w, me, HOOK_FLYING), me, -1);
    hide SetHooked;
  }

  /** The same players are taken after the input as before. */
  lemma SameTakes(w: World, w': World, me: int, t: Input, k: int)
    requires SamePlayers(w, w') && IsCharacter(w, me)
    ensures Takes(w, me, t, k) <==> Takes(w', me, t, k)
  {
    hide NearestBelow;
    SamePlayersHookable(w, w', me, t, |w|, k);
  }

  lemma SameHold(w: World, w': World, me: int, t: Input, k: int, count: int)
    requires SamePlayers(w, w') && IsCharacter(w, me)
    ensures HoldsOn(w, me, t, k, count) <==> HoldsOn(w', me, t, k, count)
  {
    assert IsPlayer(w, me) <==> IsPlayer(w', me);
  }

  lemma AfterSearch(w: World, me: int, t: Input)
    requires IsCharacter(w, me) && w[me].core.hookedPlayer == -1
    ensures var w' := GrabPlayers(w, me, t, 0, 0.0);
            && NearestBelow(w, me, t, |w|, w'[me].core.hookedPlayer)
            && (w'[me].core.hookedPlayer == -1 ==> w' == w)
            && (w'[me].core.hookedPlayer != -1 ==> w'[me].core.hookState == HOOK_GRABBED && w'[me].core.hookTick == w[me].core.hookTick)
  {
    GrabsNearest(w, me, t, 0, 0.0);
    SearchKeepsCount(w, me, t, 0, 0.0);
  }

  lemma {:induction false} SearchKeepsCount(w: World, me: int, t: Input, i: nat, best: real)
    requires IsCharacter(w, me) && i <= |w|
    ensures GrabPlayers(w, me, t, i, best)[me].core.hookTick == w[me].core.hookTick
    decreases |w| - i
  {
    hide SetHooked;
    if i < |w| {
      if IsPlayer(w, i) && i != me && t.reaches(i) && (w[me].core.hookedPlayer == -1 || t.distance(i) < best) {
        SetHookedSets(SetState(w, me, HOOK_GRABBED), me, i);
        SearchKeepsCount(SetHooked(SetState(w, me, HOOK_GRABBED), me, i), me, t, i + 1, t.distance(i));
      } else {
        SearchKeepsCount(w, me, t, i + 1, best);
      }
    }
  }

  /** Only one player is the nearest, the first of those. */
  lemma TakesOne(w: World, me: int, t: Input, k: int, k': int)
    requires IsCharacter(w, me) && Takes(w, me, t, k) && Takes(w, me, t, k')
    ensures k == k'
  {
  }

  lemma AfterFlight(w: World, me: int, t: Input, k: int)
    requires IsCharacter(w, me) && w[me].core.hookState == HOOK_FLYING && w[me].core.hookedPlayer == -1 && Takes(w, me, t, k)
    ensures var c' := MoveHook(w, me, t)[me].core;
            && c'.hookTick == w[me].core.hookTick && c'.hookedPlayer == k
            && c'.hookState == if k != -1 || (t.hit.HitGround? && !t.tooLong) then HOOK_GRABBED
                               else if t.tooLong || t.hit.HitNoHook? then HOOK_RETRACT_START
                               else HOOK_FLYING
  {
    hide SetHooked, GrabPlayers, NearestBelow;
    var w1 := if t.tooLong then SetState(w, me, HOOK_RETRACT_START) else w;
    AfterSearch(w1, me, t);
    SameTakes(w, w1, me, t, k);
    var w2 := if Searches(w1, me, t) then GrabPlayers(w1, me, t, 0, 0.0) else w1;
    assert Takes(w1, me, t, w2[me].core.hookedPlayer);
    TakesOne(w1, me, t, k, w2[me].core.hookedPlayer);
    var w3 := if t.hit.HitGround? then SetState(w2, me, HOOK_GRABBED)
              else if t.hit.HitNoHook? then SetState(w2, me, HOOK_RETRACT_START)
              else w2;
    SetHookedSets(w3, me, -1);
  }

  lemma AfterHold(w: World, me: int, t: Input)
    requires IsCharacter(w, me)
    ensures var c, c' := w[me].core, Hold(w, me, t)[me].core;
            && c'.hookTick == c.hookTick + 1
            && if c.hookedPlayer == -1 || HoldsOn(w, me, t, c.hookedPlayer, c.hookTick + 1)
               then c'.hookedPlayer == c.hookedPlayer && c'.hookState == c.hookState
               else c'.hookedPlayer == -1 && c'.hookState == HOOK_RETRACTED
  {
    var p := w[me].core.hookedPlayer;
    SetHookedSets(w, me, -1);
    hide SetHooked;
    var w1 := if p != -1 && HasWorld(w, me) && !(IsPlayer(w, p) && w[me].Filled? && t.keepsHook(p)) then Release(w, me) else w;
    var w2 := With(w1, me, w1[me].core.(hookTick := w1[me].core.hookTick + 1));
    SetHookedSets(w2, me, -1);
  }

  // ---- one Tick ----

  /** With the key up the hook is idle and holds nobody, whatever it did before. */
  lemma KeyUpTick(w: World, me: int, t: Input)
    requires IsCharacter(w, me) && HookOk(w[me].core) && KeyUp(t)
    ensures var c' := Tick(w, me, t)[me].core; c'.hookState == HOOK_IDLE && c'.hookedPlayer == -1
  {
    hide SetHooked, HandleInput, Fly, Hold;
    AfterInput(w, me, t);
    SetHookedSets(HandleInput(w, me, t), me, -1);
  }

  /** A hook in the air that takes no player: it grabs the ground it meets unless it is too long, retracts
      if it is too long or meets a tile it cannot hold on to, and otherwise flies on. */
  lemma FlyingTick(w: World, me: int, t: Input)
    requires IsCharacter(w, me) && HookOk(w[me].core) && InTheAir(w[me].core, t) && Takes(w, me, t, -1)
    ensures var c' := Tick(w, me, t)[me].core;
            && (c'.hookState == HOOK_GRABBED <==> t.hit.HitGround? && !t.tooLong)
            && (c'.hookState == HOOK_RETRACT_START <==> t.tooLong || t.hit.HitNoHook?)
            && (c'.hookState == HOOK_FLYING <==> !t.tooLong && !t.hit.HitGround? && !t.hit.HitNoHook?)
            && c'.hookedPlayer == -1
            && c'.hookTick == CountOf(w[me].core, t) + if c'.hookState == HOOK_GRABBED then 1 else 0
  {
    hide SetHooked, HandleInput, MoveHook, Hold, NearestBelow;
    AfterInput(w, me, t);
    var w1 := HandleInput(w, me, t);
    SameTakes(w, w1, me, t, -1);
    AfterFlight(w1, me, t, -1);
    AfterHold(MoveHook(w1, me, t), me, t);
  }

  /** A hook in the air that takes a player holds on to that player, whatever else it meets, if it may and
      its count has not reached the limit; and is retracted otherwise. */
  lemma TakingTick(w: World, me: int, t: Input, k: int)
    requires IsCharacter(w, me) && HookOk(w[me].core) && InTheAir(w[me].core, t) && Takes(w, me, t, k) && k != -1
    ensures var c' := Tick(w, me, t)[me].core;
            && c'.hookTick == CountOf(w[me].core, t) + 1
            && if HoldsOn(w, me, t, k, c'.hookTick) then c'.hookState == HOOK_GRABBED && c'.hookedPlayer == k
               else c'.hookState == HOOK_RETRACTED && c'.hookedPlayer == -1
  {
    hide SetHooked, HandleInput, MoveHook, Hold, NearestBelow;
    AfterInput(w, me, t);
    var w1 := HandleInput(w, me, t);
    SameTakes(w, w1, me, t, k);
    AfterFlight(w1, me, t, k);
    var w2 := MoveHook(w1, me, t);
    AfterHold(w2, me, t);
    SameHold(w, w1, me, t, k, w2[me].core.hookTick + 1);
    SameHold(w1, w2, me, t, k, w2[me].core.hookTick + 1);
  }

  /** A hook that has grabbed stays where it is, on the ground as long as the key is not let go, on a player
      as long as it holds on; and its count grows by one. */
  lemma GrabbedTick(w: World, me: int, t: Input)
    requires IsCharacter(w, me) && HookOk(w[me].core) && !KeyUp(t) && w[me].core.hookState == HOOK_GRABBED
    ensures var c, c' := w[me].core, Tick(w, me, t)[me].core;
            && c'.hookTick == c.hookTick + 1
            && if c.hookedPlayer == -1 || HoldsOn(w, me, t, c.hookedPlayer, c.hookTick + 1)
               then c'.hookedPlayer == c.hookedPlayer && c'.hookState == HOOK_GRABBED
               else c'.hookedPlayer == -1 && c'.hookState == HOOK_RETRACTED
  {
    hide SetHooked, HandleInput, Hold, Fly;
    AfterInput(w, me, t);
    AfterHold(w, me, t);
  }

  /** Where the other states lead to as long as the key is not let go. */
  function Retracting(s: int): int {
    if s == 1 then 2 else if s == 2 then 3 else if s == 3 then -1 else s
  }

  /** A retracting hook comes in step by step, a retracted one stays so and an idle one that is not
      launched stays idle; none holds anybody, and the count stands still. */
  lemma RetractingTick(w: World, me: int, t: Input)
    requires IsCharacter(w, me) && HookOk(w[me].core) && !KeyUp(t) && !InTheAir(w[me].core, t)
    requires w[me].core.hookState != HOOK_GRABBED
    ensures var c, c' := w[me].core, Tick(w, me, t)[me].core;
            c'.hookState == Retracting(c.hookState) && c'.hookedPlayer == -1 && c'.hookTick == c.hookTick
  {
    SetHookedSets(w, me, -1);
    hide SetHooked, HandleInput, Hold, Fly;
    AfterInput(w, me, t);
  }

  // ---- runs ----

  /** From turn m on the key is not let go up to turn n. */
  ghost predicate KeyHeld(turns: seq<Turn>, me: int, m: nat, n: nat)
    requires n <= |turns|
  {
    forall k :: m <= k < n && turns[k].who == me ==> !KeyUp(turns[k].input)
  }

  /** The Ticks of the others leave the hook alone. */
  lemma OthersTick(w: World, turn: Turn, me: int)
    requires Inv(w) && IsCharacter(w, turn.who) && IsCharacter(w, me) && turn.who != me
    ensures var w' := Tick(w, turn.who, turn.input); IsCharacter(w', me) && Untouched(w[me].core, w'[me].core)
  {
    hide Tick, Inv;
    TickKeeps(w, turn.who, turn.input);
  }

  lemma StillThere(w: World, turn: Turn, me: int)
    requires IsCharacter(w, turn.who) && IsCharacter(w, me)
    ensures IsCharacter(Tick(w, turn.who, turn.input), me)
  {
  }

  lemma InvOk(w: World, me: int)
    requires Inv(w) && IsCharacter(w, me)
    ensures HookOk(w[me].core)
  {
  }

  /** The state after j own Ticks of retracting. */
  function RetractedBy(s: int, j: nat): int { if j == 0 then s else Retracting(RetractedBy(s, j - 1)) }

  lemma {:induction false} RetractingRun(run: seq<World>, turns: seq<Turn>, me: int, m: nat, n: nat)
    requires IsRun(run, turns) && AllReset(run[0]) && m <= n < |run| && KeyHeld(turns, me, m, n)
    requires IsCharacter(run[m], me) && run[m][me].core.hookState in {-1, 1, 2, 3}
    ensures IsCharacter(run[n], me) && run[n][me].core.hookState in {-1, 1, 2, 3}
    ensures run[n][me].core.hookState == RetractedBy(run[m][me].core.hookState, TurnsOf(turns[m..n], me))
    decreases n
  {
    hide Tick, Inv, TurnsOf;
    if m < n {
      RetractingRun(run, turns, me, m, n - 1);
      RunKeeps(run, turns, n - 1);
      InvOk(run[n - 1], me);
      StillThere(run[n - 1], turns[n - 1], me);
      OneMoreTurn(turns, me, m, n);
      if turns[n - 1].who == me {
        RetractingTick(run[n - 1], me, turns[n - 1].input);
      } else {
        OthersTick(run[n - 1], turns[n - 1], me);
      }
    } else {
      NoTurns(turns, me, m);
    }
  }

  lemma NoTurns(turns: seq<Turn>, me: int, m: nat)
    requires m <= |turns|
    ensures TurnsOf(turns[m..m], me) == 0
  {
  }

  lemma OneMoreTurn(turns: seq<Turn>, me: int, m: nat, n: nat)
    requires m < n <= |turns|
    ensures TurnsOf(turns[m..n], me) == TurnsOf(turns[m..n - 1], me) + if turns[n - 1].who == me then 1 else 0
  {
    assert turns[m..n][..n - m - 1] == turns[m..n - 1];
  }

  /** With the key held, a hook that starts to retract is retracted after exactly three own Ticks, and
      stays so. */
  lemma RetractsInThree(run: seq<World>, turns: seq<Turn>, me: int, m: nat, n: nat)
    requires IsRun(run, turns) && AllReset(run[0]) && m <= n < |run| && KeyHeld(turns, me, m, n)
    requires IsCharacter(run[m], me) && run[m][me].core.hookState == HOOK_RETRACT_START
    ensures IsCharacter(run[n], me)
    ensures run[n][me].core.hookState == HOOK_RETRACTED <==> TurnsOf(turns[m..n], me) >= 3
  {
    hide Inv;
    RetractingRun(run, turns, me, m, n);
    ThreeSteps(TurnsOf(turns[m..n], me));
  }

  lemma {:induction false} ThreeSteps(j: nat)
    ensures RetractedBy(1, j) == if j == 0 then 1 else if j == 1 then 2 else if j == 2 then 3 else -1
  {
    if j > 0 { ThreeSteps(j - 1); }
  }

  lemma {:induction false} NotReady(run: seq<World>, turns: seq<Turn>, me: int, m: nat, n: nat)
    requires IsRun(run, turns) && AllReset(run[0]) && m <= n < |run| && KeyHeld(turns, me, m, n)
    requires IsCharacter(run[m], me) && run[m][me].core.hookState !in {HOOK_IDLE, HOOK_FLYING}
    ensures IsCharacter(run[n], me) && run[n][me].core.hookState !in {HOOK_IDLE, HOOK_FLYING}
    decreases n
  {
    hide Tick, Inv;
    if m < n {
      NotReady(run, turns, me, m, n - 1);
      RunKeeps(run, turns, n - 1);
      InvOk(run[n - 1], me);
      StillThere(run[n - 1], turns[n - 1], me);
      if turns[n - 1].who != me {
        OthersTick(run[n - 1], turns[n - 1], me);
      } else if run[n - 1][me].core.hookState == HOOK_GRABBED {
        GrabbedTick(run[n - 1], me, turns[n - 1].input);
      } else {
        RetractingTick(run[n - 1], me, turns[n - 1].input);
      }
    }
  }

  /** A hook that has grabbed or retracts flies again only after a Tick in which the key was up. */
  lemma FliesAgain(run: seq<World>, turns: seq<Turn>, me: int, m: nat, n: nat)
    requires IsRun(run, turns) && AllReset(run[0]) && m <= n < |run|
    requires IsCharacter(run[m], me) && run[m][me].core.hookState !in {HOOK_IDLE, HOOK_FLYING}
    requires IsCharacter(run[n], me) && run[n][me].core.hookState == HOOK_FLYING
    ensures exists k :: m <= k < n && turns[k].who == me && KeyUp(turns[k].input)
  {
    hide Inv;
    if KeyHeld(turns, me, m, n) {
      NotReady(run, turns, me, m, n);
      assert false;
    }
  }
}
