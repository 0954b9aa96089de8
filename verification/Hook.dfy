/** The hook of CCharacterCore in src/game/gamecore.cpp as a state machine over all characters of
    the world: what one Tick does, and what every run keeps. */
module Hook {

  const HOOK_RETRACTED := -1
  const HOOK_IDLE := 0
  const HOOK_RETRACT_START := 1
  const HOOK_RETRACT_END := 3
  const HOOK_FLYING := 4
  const HOOK_GRABBED := 5
  const SERVER_TICK_SPEED := 50

  datatype Core = Core(hookState: int, hookTick: int, hookedPlayer: int, attached: set<int>)

  /** A slot of m_apCharacters; or a character that is in none of them (m_Id is -1), or one that has no
      world at all (m_pWorld is null). */
  datatype Slot = Empty | Filled(core: Core) | Outside(core: Core) | Alone(core: Core)

  type World = seq<Slot>

  datatype Hit = HitNothing | HitNoHook | HitTele | HitGround

  /** What one Tick reads besides the hook: the input, the tuning and the outcomes of its geometric
      and team tests. */
  datatype Input = Input(
    useInput: bool, hook: bool, launchTick: int, tooLong: bool, hit: Hit, playerHooking: bool,
    reaches: int -> bool, distance: int -> real, teleOut: bool, keepsHook: int -> bool)

  predicate IsPlayer(w: World, k: int) { 0 <= k < |w| && w[k].Filled? }

  predicate IsCharacter(w: World, k: int) { 0 <= k < |w| && !w[k].Empty? }

  predicate HasWorld(w: World, k: int)
    requires IsCharacter(w, k)
  {
    !w[k].Alone?
  }

  ghost predicate SamePlayers(w: World, w': World) {
    && |w'| == |w|
    && (forall i :: IsPlayer(w', i) <==> IsPlayer(w, i))
    && (forall i :: IsCharacter(w', i) <==> IsCharacter(w, i))
    && (forall i :: IsCharacter(w, i) ==> HasWorld(w', i) == HasWorld(w, i))
  }

  predicate IsTarget(w: World, k: int) { k == -1 || IsPlayer(w, k) }

  function With(w: World, me: int, c: Core): (w': World)
    requires IsCharacter(w, me)
    ensures SamePlayers(w, w')
  {
    w[me := w[me].(core := c)]
  }

  function SetState(w: World, me: int, s: int): (w': World)
    requires IsCharacter(w, me)
    ensures SamePlayers(w, w')
  {
    With(w, me, w[me].core.(hookState := s))
  }

  function Detach(w: World, k: int, me: int): World
    requires IsPlayer(w, k)
  {
    With(w, k, w[k].core.(attached := w[k].core.attached - {me}))
  }

  function Attach(w: World, k: int, me: int): World
    requires IsPlayer(w, k)
  {
    With(w, k, w[k].core.(attached := w[k].core.attached + {me}))
  }

  /** SetHookedPlayer: tells the player hooked before and the one hooked now. */
  function SetHooked(w: World, me: int, target: int): (w': World)
    requires IsCharacter(w, me)
    ensures SamePlayers(w, w')
  {
    var was := w[me].core.hookedPlayer;
    if target == was then w
    else if !w[me].Filled? then With(w, me, w[me].core.(hookedPlayer := target))
    else
      var w1 := if was != -1 && IsPlayer(w, was) then Detach(w, was, me) else w;
      var w2 := if target != -1 && IsPlayer(w1, target) then Attach(w1, target, me) else w1;
      With(w2, me, w2[me].core.(hookedPlayer := target))
  }

  /** The input part of Tick. */
  function HandleInput(w: World, me: int, t: Input): (w': World)
    requires IsCharacter(w, me)
    ensures SamePlayers(w, w')
  {
    if !t.useInput then w
    else if t.hook then
      if w[me].core.hookState == HOOK_IDLE then
        var w1 := SetHooked(SetState(w, me, HOOK_FLYING), me, -1);
        With(w1, me, w1[me].core.(hookTick := t.launchTick))
      else w
    else SetState(SetHooked(w, me, -1), me, HOOK_IDLE)
  }

  /** The search for players from slot i on, with the distance of the one hooked last. */
  function GrabPlayers(w: World, me: int, t: Input, i: nat, best: real): (w': World)
    requires IsCharacter(w, me) && i <= |w|
    ensures SamePlayers(w, w')
    decreases |w| - i
  {
    if i == |w| then w
    else if IsPlayer(w, i) && i != me && t.reaches(i) && (w[me].core.hookedPlayer == -1 || t.distance(i) < best) then
      GrabPlayers(SetHooked(SetState(w, me, HOOK_GRABBED), me, i), me, t, i + 1, t.distance(i))
    else GrabPlayers(w, me, t, i + 1, best)
  }

  /** A flying hook. */
  function Fly(w: World, me: int, t: Input): (w': World)
    requires IsCharacter(w, me)
    ensures SamePlayers(w, w')
  {
    var w1 := if t.tooLong then SetState(w, me, HOOK_RETRACT_START) else w;
    var w2 := if HasWorld(w1, me) && t.playerHooking then GrabPlayers(w1, me, t, 0, 0.0) else w1;
    assert SamePlayers(w, w2);
    if w2[me].core.hookState != HOOK_FLYING then w2
    else
      var w3 := if t.hit.HitGround? then SetState(w2, me, HOOK_GRABBED)
                else if t.hit.HitNoHook? then SetState(w2, me, HOOK_RETRACT_START)
                else w2;
      if t.hit.HitTele? && HasWorld(w3, me) && t.teleOut then SetHooked(w3, me, -1) else w3
  }

  /** The state machine part of Tick. */
  function MoveHook(w: World, me: int, t: Input): (w': World)
    requires IsCharacter(w, me)
    ensures SamePlayers(w, w')
  {
    var s := w[me].core.hookState;
    if s == HOOK_IDLE then SetHooked(w, me, -1)
    else if HOOK_RETRACT_START <= s < HOOK_RETRACT_END then SetState(w, me, s + 1)
    else if s == HOOK_RETRACT_END then SetState(w, me, HOOK_RETRACTED)
    else if s == HOOK_FLYING then Fly(w, me, t)
    else w
  }

  function Release(w: World, me: int): (w': World)
    requires IsCharacter(w, me)
    ensures SamePlayers(w, w')
  {
    SetState(SetHooked(w, me, -1), me, HOOK_RETRACTED)
  }

  /** What Tick does with a hook that holds on to something. */
  function Hold(w: World, me: int, t: Input): (w': World)
    requires IsCharacter(w, me)
    ensures SamePlayers(w, w')
  {
    var p := w[me].core.hookedPlayer;
    var w1 := if p != -1 && HasWorld(w, me) && !(IsPlayer(w, p) && w[me].Filled? && t.keepsHook(p)) then Release(w, me) else w;
    var w2 := With(w1, me, w1[me].core.(hookTick := w1[me].core.hookTick + 1));
    var q := w2[me].core.hookedPlayer;
    if q != -1 && (w2[me].core.hookTick > SERVER_TICK_SPEED + SERVER_TICK_SPEED / 5
                   || (HasWorld(w2, me) && !IsPlayer(w2, q)))
    then Release(w2, me) else w2
  }

  /** The hook part of Tick. */
  function Tick(w: World, me: int, t: Input): (w': World)
    requires IsCharacter(w, me)
    ensures SamePlayers(w, w')
  {
    var w2 := MoveHook(HandleInput(w, me, t), me, t);
    if w2[me].core.hookState == HOOK_GRABBED then Hold(w2, me, t) else w2
  }

  // ---- what every Tick keeps ----

  /** i is in k's set exactly when i is a player and his hooked player is k. */
  ghost predicate Tied(w: World, i: int, k: int)
    requires IsPlayer(w, k)
  {
    i in w[k].core.attached <==> IsPlayer(w, i) && w[i].core.hookedPlayer == k
  }

  ghost predicate Attached(w: World) {
    forall i: int, k: int :: IsPlayer(w, k) ==> Tied(w, i, k)
  }

  ghost predicate Targets(w: World) {
    forall i :: IsCharacter(w, i) ==> IsTarget(w, w[i].core.hookedPlayer) && w[i].core.hookedPlayer != i
  }

  predicate Untouched(c: Core, c': Core) {
    c'.hookState == c.hookState && c'.hookTick == c.hookTick && c'.hookedPlayer == c.hookedPlayer
  }

  /** A step of player `me` that keeps the relation and leaves the others' hooks alone. */
  ghost predicate Step(w: World, w': World, me: int) {
    && SamePlayers(w, w')
    && (forall i :: IsCharacter(w, i) && i != me ==> IsCharacter(w', i) && Untouched(w[i].core, w'[i].core))
    && Attached(w') && Targets(w')
  }

  lemma StepTransitive(w: World, w': World, w'': World, me: int)
    requires Step(w, w', me) && Step(w', w'', me)
    ensures Step(w, w'', me)
  {
  }

  lemma SetHookedTies(w: World, me: int, target: int, i: int, k: int)
    requires IsCharacter(w, me) && Attached(w) && IsTarget(w, target) && IsPlayer(w, k)
    ensures Tied(SetHooked(w, me, target), i, k)
  {
    assert Tied(w, i, k) && Tied(w, me, k);
  }

  lemma SetHookedOthers(w: World, me: int, target: int)
    requires IsCharacter(w, me) && Targets(w) && IsTarget(w, target) && target != me
    ensures var w' := SetHooked(w, me, target);
            && (forall i :: IsCharacter(w, i) && i != me ==> Untouched(w[i].core, w'[i].core))
            && Targets(w')
  {
  }

  lemma SetHookedSteps(w: World, me: int, target: int)
    requires IsCharacter(w, me) && Attached(w) && Targets(w) && IsTarget(w, target) && target != me
    ensures var w' := SetHooked(w, me, target);
            && Step(w, w', me) && w'[me].core.hookedPlayer == target
            && w'[me].core.hookState == w[me].core.hookState && w'[me].core.hookTick == w[me].core.hookTick
  {
    SetHookedSets(w, me, target);
    SetHookedOthers(w, me, target);
    hide SetHooked, Targets;
    forall i: int, k: int | IsPlayer(w, k) ensures Tied(SetHooked(w, me, target), i, k) {
      SetHookedTies(w, me, target, i, k);
    }
  }

  lemma SetHookedSets(w: World, me: int, target: int)
    requires IsCharacter(w, me)
    ensures var w' := SetHooked(w, me, target);
            && w'[me].core.hookedPlayer == target && w'[me].core.hookState == w[me].core.hookState
            && w'[me].core.hookTick == w[me].core.hookTick
  {
  }

  lemma SetCoreSteps(w: World, me: int, s: int, n: int)
    requires IsCharacter(w, me) && Attached(w) && Targets(w)
    ensures var w' := With(w, me, w[me].core.(hookState := s, hookTick := n)); Step(w, w', me)
  {
    var w' := With(w, me, w[me].core.(hookState := s, hookTick := n));
    forall i: int, k: int | IsPlayer(w', k) ensures Tied(w', i, k) {
      assert Tied(w, i, k);
    }
  }

  predicate HookOk(c: Core) {
    && HOOK_RETRACTED <= c.hookState <= HOOK_GRABBED
    && (c.hookedPlayer != -1 ==> c.hookState == HOOK_GRABBED)
  }

  predicate TickOk(c: Core) {
    c.hookedPlayer != -1 ==> c.hookTick <= SERVER_TICK_SPEED + SERVER_TICK_SPEED / 5
  }

  ghost predicate Inv(w: World) {
    Attached(w) && Targets(w) && forall i :: IsCharacter(w, i) ==> HookOk(w[i].core) && TickOk(w[i].core)
  }

  lemma ReleaseSteps(w: World, me: int, s: int)
    requires IsCharacter(w, me) && Attached(w) && Targets(w)
    ensures var w' := SetState(SetHooked(w, me, -1), me, s);
            && Step(w, w', me) && w'[me].core.hookedPlayer == -1 && w'[me].core.hookState == s
            && w'[me].core.hookTick == w[me].core.hookTick
  {
    hide SetHooked, Step;
    SetHookedSteps(w, me, -1);
    var w1 := SetHooked(w, me, -1);
    StepKeeps(w, w1, me);
    SetCoreSteps(w1, me, s, w1[me].core.hookTick);
    StepTransitive(w, w1, SetState(w1, me, s), me);
  }

  lemma StepKeeps(w: World, w': World, me: int)
    requires Step(w, w', me)
    ensures Attached(w') && Targets(w')
  {
  }

  /** The input either leaves a held player alone or lets go. */
  lemma HandleInputSteps(w: World, me: int, t: Input)
    requires IsCharacter(w, me) && Attached(w) && Targets(w) && HookOk(w[me].core)
    ensures var w' := HandleInput(w, me, t);
            && Step(w, w', me) && HookOk(w'[me].core)
            && (w'[me].core.hookedPlayer != -1 ==> Untouched(w[me].core, w'[me].core))
            && (w[me].core.hookedPlayer != -1 && w'[me].core.hookedPlayer == -1 ==> w'[me].core.hookState == HOOK_IDLE)
  {
    hide SetHooked, Attached, Targets, Step;
    if t.useInput && !t.hook {
      ReleaseSteps(w, me, HOOK_IDLE);
    } else if t.useInput && w[me].core.hookState == HOOK_IDLE {
      var w1 := SetState(w, me, HOOK_FLYING);
      SetCoreSteps(w, me, HOOK_FLYING, w[me].core.hookTick);
      StepKeeps(w, w1, me);
      SetHookedSteps(w1, me, -1);
      var w2 := SetHooked(w1, me, -1);
      StepKeeps(w1, w2, me);
      SetCoreSteps(w2, me, w2[me].core.hookState, t.launchTick);
      StepTransitive(w, w1, w2, me);
      StepTransitive(w, w2, HandleInput(w, me, t), me);
    } else {
      StepRefl(w, me);
    }
  }

  lemma StepRefl(w: World, me: int)
    requires Attached(w) && Targets(w)
    ensures Step(w, w, me)
  {
  }

  lemma {:induction false} GrabPlayersSteps(w: World, me: int, t: Input, i: nat, best: real)
    requires IsCharacter(w, me) && i <= |w| && Attached(w) && Targets(w) && HookOk(w[me].core)
    ensures var w' := GrabPlayers(w, me, t, i, best); Step(w, w', me) && HookOk(w'[me].core)
    decreases |w| - i
  {
    hide SetHooked, Attached, Targets, Step;
    if i == |w| {
      StepRefl(w, me);
    } else if IsPlayer(w, i) && i != me && t.reaches(i) && (w[me].core.hookedPlayer == -1 || t.distance(i) < best) {
      var w1 := SetState(w, me, HOOK_GRABBED);
      SetCoreSteps(w, me, HOOK_GRABBED, w[me].core.hookTick);
      StepKeeps(w, w1, me);
      SetHookedSteps(w1, me, i);
      var w2 := SetHooked(w1, me, i);
      StepKeeps(w1, w2, me);
      StepTransitive(w, w1, w2, me);
      GrabPlayersSteps(w2, me, t, i + 1, t.distance(i));
      StepTransitive(w, w2, GrabPlayers(w, me, t, i, best), me);
    } else {
      GrabPlayersSteps(w, me, t, i + 1, best);
    }
  }

  // ---- which player a flying hook takes ----

  /** One slot of the search. */
  lemma GrabStep(w: World, me: int, t: Input, i: nat, best: real)
    requires IsCharacter(w, me) && i < |w|
    ensures GrabPlayers(w, me, t, i, best) ==
              if IsPlayer(w, i) && i != me && t.reaches(i) && (w[me].core.hookedPlayer == -1 || t.distance(i) < best)
              then GrabPlayers(SetHooked(SetState(w, me, HOOK_GRABBED), me, i), me, t, i + 1, t.distance(i))
              else GrabPlayers(w, me, t, i + 1, best)
  {
    hide SetHooked;
  }

  /** Where no player is left the search changes nothing. */
  lemma {:induction false} GrabsNobody(w: World, me: int, t: Input, i: nat, best: real)
    requires IsCharacter(w, me) && i <= |w| && forall j :: i <= j < |w| ==> !IsPlayer(w, j)
    ensures GrabPlayers(w, me, t, i, best) == w
    decreases |w| - i
  {
    if i < |w| { GrabsNobody(w, me, t, i + 1, best); }
  }

  predicate Hookable(w: World, me: int, t: Input, i: int) { IsPlayer(w, i) && i != me && t.reaches(i) }

  /** Player k is the nearest of those the hook reaches below slot i, the first of those at that
      distance; -1 if it reaches none. */
  ghost predicate NearestBelow(w: World, me: int, t: Input, i: int, k: int) {
    && (k == -1 ==> forall j :: 0 <= j < i ==> !Hookable(w, me, t, j))
    && (k != -1 ==> 0 <= k < i && Hookable(w, me, t, k) &&
                    forall j :: 0 <= j < i && Hookable(w, me, t, j) ==>
                      t.distance(k) < t.distance(j) || (t.distance(k) == t.distance(j) && k <= j))
  }

  lemma SamePlayersHookable(w: World, w': World, me: int, t: Input, i: int, k: int)
    requires SamePlayers(w, w')
    ensures NearestBelow(w, me, t, i, k) <==> NearestBelow(w', me, t, i, k)
  {
    assert forall j :: Hookable(w, me, t, j) <==> Hookable(w', me, t, j);
  }

  /** The search hooks the nearest player within reach, and nothing changes if there is none. */
  lemma {:induction false} GrabsNearest(w: World, me: int, t: Input, i: nat, best: real)
    requires IsCharacter(w, me) && i <= |w| && NearestBelow(w, me, t, i, w[me].core.hookedPlayer)
    requires w[me].core.hookedPlayer != -1 ==> best == t.distance(w[me].core.hookedPlayer)
    ensures var w' := GrabPlayers(w, me, t, i, best);
            && NearestBelow(w, me, t, |w|, w'[me].core.hookedPlayer)
            && (w'[me].core.hookedPlayer == w[me].core.hookedPlayer ==> w' == w)
            && (w'[me].core.hookedPlayer != w[me].core.hookedPlayer ==> w'[me].core.hookState == HOOK_GRABBED)
    decreases |w| - i
  {
    hide SetHooked;
    if i < |w| {
      if IsPlayer(w, i) && i != me && t.reaches(i) && (w[me].core.hookedPlayer == -1 || t.distance(i) < best) {
        var w1 := SetState(w, me, HOOK_GRABBED);
        var w2 := SetHooked(w1, me, i);
        SetHookedSets(w1, me, i);
        SamePlayersHookable(w, w2, me, t, i + 1, i);
        GrabsNearest(w2, me, t, i + 1, t.distance(i));
        SamePlayersHookable(w, w2, me, t, |w|, GrabPlayers(w, me, t, i, best)[me].core.hookedPlayer);
      } else {
        GrabsNearest(w, me, t, i + 1, best);
      }
    }
  }

  lemma SetStateSteps(w: World, me: int, s: int)
    requires IsCharacter(w, me) && Attached(w) && Targets(w)
    ensures Step(w, SetState(w, me, s), me)
  {
    hide Step;
    SetCoreSteps(w, me, s, w[me].core.hookTick);
  }

  lemma FlySteps(w: World, me: int, t: Input)
    requires IsCharacter(w, me) && Attached(w) && Targets(w) && HookOk(w[me].core) && w[me].core.hookState == HOOK_FLYING
    ensures var w' := Fly(w, me, t); Step(w, w', me) && HookOk(w'[me].core)
  {
    hide SetHooked, Attached, Targets, Step, GrabPlayers;
    StepRefl(w, me);
    SetStateSteps(w, me, HOOK_RETRACT_START);
    var w1 := if t.tooLong then SetState(w, me, HOOK_RETRACT_START) else w;
    StepKeeps(w, w1, me);
    GrabPlayersSteps(w1, me, t, 0, 0.0);
    StepRefl(w1, me);
    var w2 := if HasWorld(w1, me) && t.playerHooking then GrabPlayers(w1, me, t, 0, 0.0) else w1;
    StepTransitive(w, w1, w2, me);
    StepKeeps(w1, w2, me);
    if w2[me].core.hookState == HOOK_FLYING {
      StepRefl(w2, me);
      SetStateSteps(w2, me, HOOK_GRABBED);
      SetStateSteps(w2, me, HOOK_RETRACT_START);
      SetHookedSteps(w2, me, -1);
      StepTransitive(w, w2, Fly(w, me, t), me);
    }
  }

  lemma MoveHookSteps(w: World, me: int, t: Input)
    requires IsCharacter(w, me) && Attached(w) && Targets(w) && HookOk(w[me].core)
    ensures var w' := MoveHook(w, me, t);
            && Step(w, w', me) && HookOk(w'[me].core)
            && (w[me].core.hookedPlayer != -1 ==> w' == w)
            && (w[me].core.hookState == HOOK_IDLE ==> w'[me].core.hookState == HOOK_IDLE)
  {
    hide SetHooked, Attached, Targets, Step, Fly;
    var s := w[me].core.hookState;
    StepRefl(w, me);
    SetHookedSteps(w, me, -1);
    SetStateSteps(w, me, s + 1);
    SetStateSteps(w, me, HOOK_RETRACTED);
    if s == HOOK_FLYING { FlySteps(w, me, t); }
  }

  /** Holding counts the ticks and lets go after SERVER_TICK_SPEED + SERVER_TICK_SPEED / 5 of them. */
  lemma HoldSteps(w: World, me: int, t: Input)
    requires IsCharacter(w, me) && Attached(w) && Targets(w) && HookOk(w[me].core) && w[me].core.hookState == HOOK_GRABBED
    ensures var w' := Hold(w, me, t);
            && Step(w, w', me) && HookOk(w'[me].core) && TickOk(w'[me].core)
            && (w'[me].core.hookedPlayer != -1 ==>
                  w'[me].core.hookedPlayer == w[me].core.hookedPlayer && w'[me].core.hookTick == w[me].core.hookTick + 1)
  {
    hide SetHooked, Attached, Targets, Step;
    var p := w[me].core.hookedPlayer;
    StepRefl(w, me);
    ReleaseSteps(w, me, HOOK_RETRACTED);
    var w1 := if p != -1 && HasWorld(w, me) && !(IsPlayer(w, p) && w[me].Filled? && t.keepsHook(p)) then Release(w, me) else w;
    StepKeeps(w, w1, me);
    SetCoreSteps(w1, me, w1[me].core.hookState, w1[me].core.hookTick + 1);
    var w2 := With(w1, me, w1[me].core.(hookTick := w1[me].core.hookTick + 1));
    StepKeeps(w1, w2, me);
    StepTransitive(w, w1, w2, me);
    ReleaseSteps(w2, me, HOOK_RETRACTED);
    StepTransitive(w, w2, Release(w2, me), me);
  }

  /** Every Tick keeps the invariant; a player held before and after it is the same, for one tick
      more. */
  lemma TickKeeps(w: World, me: int, t: Input)
    requires IsCharacter(w, me) && Inv(w)
    ensures var w' := Tick(w, me, t);
            && Inv(w') && Step(w, w', me)
            && (w[me].core.hookedPlayer != -1 && w'[me].core.hookedPlayer != -1 ==>
                  w'[me].core.hookedPlayer == w[me].core.hookedPlayer && w'[me].core.hookTick == w[me].core.hookTick + 1)
  {
    hide SetHooked, Attached, Targets, HandleInput, MoveHook, Hold;
    HandleInputSteps(w, me, t);
    var w1 := HandleInput(w, me, t);
    MoveHookSteps(w1, me, t);
    var w2 := MoveHook(w1, me, t);
    StepTransitive(w, w1, w2, me);
    if w2[me].core.hookState == HOOK_GRABBED {
      HoldSteps(w2, me, t);
      StepTransitive(w, w2, Hold(w2, me, t), me);
    }
  }

  /** A character outside the roster cannot keep a hook on anybody: what it hooks it lets go in the
      same Tick. */
  lemma OutsiderHoldsNobody(w: World, me: int, t: Input)
    requires IsCharacter(w, me) && w[me].Outside? && Inv(w)
    ensures Tick(w, me, t)[me].core.hookedPlayer == -1
  {
    hide SetHooked, Attached, Targets, HandleInput, MoveHook, Hold;
    HandleInputSteps(w, me, t);
    var w1 := HandleInput(w, me, t);
    MoveHookSteps(w1, me, t);
    var w2 := MoveHook(w1, me, t);
    assert !IsPlayer(w, me) && !IsPlayer(w1, me) && !IsPlayer(w2, me);
    if w2[me].core.hookState == HOOK_GRABBED { OutsiderLetsGo(w2, me, t); }
  }

  lemma OutsiderLetsGo(w: World, me: int, t: Input)
    requires IsCharacter(w, me) && w[me].Outside?
    ensures Hold(w, me, t)[me].core.hookedPlayer == -1
  {
    SetHookedSets(w, me, -1);
    hide SetHooked;
  }

  /** A character without a world hooks nobody. */
  lemma AloneHooksNobody(w: World, me: int, t: Input)
    requires IsCharacter(w, me) && w[me].Alone? && w[me].core.hookedPlayer == -1
    ensures Tick(w, me, t)[me].core.hookedPlayer == -1
  {
    hide GrabPlayers;
  }

  // ---- runs ----

  /** After CCharacterCore::Reset of every character. */
  ghost predicate AllReset(w: World) {
    forall i :: IsCharacter(w, i) ==>
      w[i].core.hookState == HOOK_IDLE && w[i].core.hookTick == 0 && w[i].core.hookedPlayer == -1 && w[i].core.attached == {}
  }

  /** One Tick of some player. */
  datatype Turn = Turn(who: int, input: Input)

  ghost predicate IsRun(run: seq<World>, turns: seq<Turn>) {
    && |run| == |turns| + 1
    && forall n :: 0 <= n < |turns| ==> IsCharacter(run[n], turns[n].who) && run[n + 1] == Tick(run[n], turns[n].who, turns[n].input)
  }

  /** Every reachable state has consistent hooks. */
  lemma {:induction false} RunKeeps(run: seq<World>, turns: seq<Turn>, n: nat)
    requires IsRun(run, turns) && AllReset(run[0]) && n < |run|
    ensures Inv(run[n])
  {
    hide Tick;
    if n > 0 {
      RunKeeps(run, turns, n - 1);
      TickKeeps(run[n - 1], turns[n - 1].who, turns[n - 1].input);
    }
  }

  /** Of the characters that are in no slot none holds anybody between two Ticks. */
  lemma {:induction false} OnlyPlayersHold(run: seq<World>, turns: seq<Turn>, n: nat, i: int)
    requires IsRun(run, turns) && AllReset(run[0]) && n < |run| && IsCharacter(run[n], i) && !IsPlayer(run[n], i)
    ensures run[n][i].core.hookedPlayer == -1
  {
    hide Tick, Attached, Targets;
    if n > 0 {
      var w, turn := run[n - 1], turns[n - 1];
      RunKeeps(run, turns, n - 1);
      TickKeeps(w, turn.who, turn.input);
      OnlyPlayersHold(run, turns, n - 1, i);
      if turn.who == i {
        if w[i].Alone? { AloneHooksNobody(w, i, turn.input); } else { OutsiderHoldsNobody(w, i, turn.input); }
      }
    }
  }

  function TurnsOf(turns: seq<Turn>, me: int): nat {
    if turns == [] then 0 else TurnsOf(turns[..|turns| - 1], me) + if turns[|turns| - 1].who == me then 1 else 0
  }

  /** Player me holds somebody after each of the turns m .. n. */
  ghost predicate Holds(run: seq<World>, me: int, m: nat, n: nat)
    requires n < |run|
  {
    forall k :: m <= k <= n ==> IsCharacter(run[k], me) && run[k][me].core.hookedPlayer != -1
  }

  lemma OneTurn(w: World, t: Turn, me: int)
    requires Inv(w) && IsCharacter(w, t.who) && IsCharacter(w, me)
    ensures var w' := Tick(w, t.who, t.input);
            IsCharacter(w', me) &&
            (w[me].core.hookedPlayer != -1 && w'[me].core.hookedPlayer != -1 ==>
               w'[me].core.hookedPlayer == w[me].core.hookedPlayer
               && w'[me].core.hookTick == w[me].core.hookTick + if t.who == me then 1 else 0)
  {
    hide Tick, Inv;
    TickKeeps(w, t.who, t.input);
  }

  lemma {:induction false} HeldCounts(run: seq<World>, turns: seq<Turn>, me: int, m: nat, n: nat)
    requires IsRun(run, turns) && AllReset(run[0]) && m <= n < |run| && Holds(run, me, m, n)
    ensures run[n][me].core.hookTick == run[m][me].core.hookTick + TurnsOf(turns[m..n], me)
    ensures run[n][me].core.hookedPlayer == run[m][me].core.hookedPlayer
    decreases n
  {
    hide Tick, Inv, Step;
    if m < n {
      HeldCounts(run, turns, me, m, n - 1);
      RunKeeps(run, turns, n - 1);
      OneTurn(run[n - 1], turns[n - 1], me);
      assert turns[m..n][..n - m - 1] == turns[m..n - 1];
    }
  }

  /** A grab of one player lasts for at most 60 of the grabber's ticks, less those counted when it
      began. */
  lemma GrabIsBounded(run: seq<World>, turns: seq<Turn>, me: int, m: nat, n: nat)
    requires IsRun(run, turns) && AllReset(run[0]) && m <= n < |run| && Holds(run, me, m, n)
    ensures IsCharacter(run[m], me)
    ensures TurnsOf(turns[m..n], me) <= SERVER_TICK_SPEED + SERVER_TICK_SPEED / 5 - run[m][me].core.hookTick
  {
    HeldCounts(run, turns, me, m, n);
    RunKeeps(run, turns, n);
  }
}
