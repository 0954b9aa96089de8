/** The character objects of src/game/gamecore.cpp: SetHookedPlayer and the hook part of Tick update
    the object and the sets of other characters exactly as the world functions say. */
module HookCore {
  import opened Hook

  class CharacterCore {
    const id: int
    const inWorld: bool     // whether m_pWorld is set
    var hookState: int
    var hookTick: int
    var hookedPlayer: int
    var attached: set<int>

    constructor (id: int, inWorld: bool)
      ensures this.id == id && this.inWorld == inWorld
      ensures hookState == HOOK_IDLE && hookTick == 0 && hookedPlayer == -1 && attached == {}
    {
      this.id, this.inWorld := id, inWorld;
      hookState, hookTick, hookedPlayer, attached := HOOK_IDLE, 0, -1, {};
    }

    ghost function View(): Core
      reads this
    {
      Core(hookState, hookTick, hookedPlayer, attached)
    }

    /** SetHookedPlayer */
    method SetHookedPlayer(chars: seq<CharacterCore?>, target: int, ghost all: seq<CharacterCore?>, ghost me: nat, ghost w: World)
      requires Here(chars, all, me, w)
      modifies all
      ensures Shows(|chars|, all, SetHooked(w, me, target))
    {
      Sees(chars, all, me, w);
      hide Shows;
      if target != hookedPlayer {
        ghost var v := w;
        if hookedPlayer != -1 && id != -1 && inWorld {
          Erase(chars, hookedPlayer, all, me, v);
          v := if IsPlayer(v, hookedPlayer) then Detach(v, hookedPlayer, me) else v;
        }
        Sees(chars, all, me, v);
        if target != -1 && id != -1 && inWorld {
          Insert(chars, target, all, me, v);
          v := if IsPlayer(v, target) then Attach(v, target, me) else v;
        }
        Link(chars, target, all, me, v);
      }
    }

    method Erase(chars: seq<CharacterCore?>, k: int, ghost all: seq<CharacterCore?>, ghost me: nat, ghost w: World)
      requires Here(chars, all, me, w) && id != -1 && inWorld
      modifies all
      ensures Shows(|chars|, all, if IsPlayer(w, k) then Detach(w, k, me) else w)
      ensures hookedPlayer == old(hookedPlayer)
    {
      if 0 <= k < |chars| {
        var c := chars[k];
        if c != null {
          c.attached := c.attached - {id};
        }
      }
    }

    method Insert(chars: seq<CharacterCore?>, k: int, ghost all: seq<CharacterCore?>, ghost me: nat, ghost w: World)
      requires Here(chars, all, me, w) && id != -1 && inWorld
      modifies all
      ensures Shows(|chars|, all, if IsPlayer(w, k) then Attach(w, k, me) else w)
      ensures hookedPlayer == old(hookedPlayer)
    {
      if 0 <= k < |chars| {
        var c := chars[k];
        if c != null {
          c.attached := c.attached + {id};
        }
      }
    }

    method Link(chars: seq<CharacterCore?>, target: int, ghost all: seq<CharacterCore?>, ghost me: nat, ghost w: World)
      requires Here(chars, all, me, w)
      modifies this
      ensures Shows(|chars|, all, With(w, me, w[me].core.(hookedPlayer := target)))
    {
      hookedPlayer := target;
    }

    /** What a character can see of the world. */
    lemma Sees(chars: seq<CharacterCore?>, all: seq<CharacterCore?>, me: nat, w: World)
      requires Here(chars, all, me, w)
      ensures IsCharacter(w, me) && w[me].core == View() && (w[me].Filled? <==> id != -1 && inWorld)
      ensures (HasWorld(w, me) <==> inWorld) && |chars| <= |w| && (id != -1 && inWorld ==> id == me)
      ensures forall k :: 0 <= k < |chars| ==> (chars[k] == this <==> k == me)
      ensures forall k :: IsPlayer(w, k) <==> 0 <= k < |chars| && chars[k] != null
    {
      assert forall k :: 0 <= k < |chars| ==> chars[k] == all[k];
    }

    /** The character is number `me` of all: in the slot of its id, outside the roster with id -1, or without a world. */
    ghost predicate Here(chars: seq<CharacterCore?>, all: seq<CharacterCore?>, me: nat, w: World)
      reads all
    {
      chars <= all && me < |all| && all[me] == this && Shows(|chars|, all, w)
    }

    method SetHookState(chars: seq<CharacterCore?>, s: int, ghost all: seq<CharacterCore?>, ghost me: nat, ghost w: World)
      requires Here(chars, all, me, w)
      modifies this
      ensures Shows(|chars|, all, SetState(w, me, s))
    {
      hookState := s;
    }

    method SetHookTick(chars: seq<CharacterCore?>, n: int, ghost all: seq<CharacterCore?>, ghost me: nat, ghost w: World)
      requires Here(chars, all, me, w)
      modifies this
      ensures Shows(|chars|, all, With(w, me, w[me].core.(hookTick := n)))
    {
      hookTick := n;
    }

    /** The input part of Tick. */
    method DoInput(chars: seq<CharacterCore?>, t: Input, ghost all: seq<CharacterCore?>, ghost me: nat, ghost w: World)
      requires Here(chars, all, me, w)
      modifies all
      ensures Shows(|chars|, all, HandleInput(w, me, t))
    {
      hide SetHooked;
      if t.useInput {
        if t.hook {
          if hookState == HOOK_IDLE {
            SetHookState(chars, HOOK_FLYING, all, me, w);
            SetHookedPlayer(chars, -1, all, me, SetState(w, me, HOOK_FLYING));
            SetHookTick(chars, t.launchTick, all, me, SetHooked(SetState(w, me, HOOK_FLYING), me, -1));
          }
        } else {
          SetHookedPlayer(chars, -1, all, me, w);
          SetHookState(chars, HOOK_IDLE, all, me, SetHooked(w, me, -1));
        }
      }
    }

    method Grab(chars: seq<CharacterCore?>, k: int, ghost all: seq<CharacterCore?>, ghost me: nat, ghost w: World)
      requires Here(chars, all, me, w)
      modifies all
      ensures Shows(|chars|, all, SetHooked(SetState(w, me, HOOK_GRABBED), me, k))
    {
      hide SetHooked, Shows;
      SetHookState(chars, HOOK_GRABBED, all, me, w);
      SetHookedPlayer(chars, k, all, me, SetState(w, me, HOOK_GRABBED));
    }

    /** The search of a flying hook for players. */
    method CheckPlayers(chars: seq<CharacterCore?>, t: Input, ghost all: seq<CharacterCore?>, ghost me: nat, ghost w: World)
      requires Here(chars, all, me, w)
      modifies all
      ensures Shows(|chars|, all, GrabPlayers(w, me, t, 0, 0.0))
    {
      hide SetHooked, Shows, GrabPlayers;
      Sees(chars, all, me, w);
      var best := 0.0;
      ghost var v := w;
      var i := 0;
      while i < |chars|
        invariant 0 <= i <= |chars| <= |v| && IsCharacter(v, me) && Here(chars, all, me, v)
        invariant GrabPlayers(v, me, t, i, best) == GrabPlayers(w, me, t, 0, 0.0)
      {
        Sees(chars, all, me, v);
        GrabStep(v, me, t, i, best);
        var c := chars[i];
        if c != null && c != this && t.reaches(i) && (hookedPlayer == -1 || t.distance(i) < best) {
          Grab(chars, i, all, me, v);
          best := t.distance(i);
          v := SetHooked(SetState(v, me, HOOK_GRABBED), me, i);
        }
        i := i + 1;
      }
      Sees(chars, all, me, v);
      GrabsNobody(v, me, t, i, best);
    }

    /** A flying hook. */
    method DoFly(chars: seq<CharacterCore?>, t: Input, ghost all: seq<CharacterCore?>, ghost me: nat, ghost w: World)
      requires Here(chars, all, me, w)
      modifies all
      ensures Shows(|chars|, all, Fly(w, me, t))
    {
      hide SetHooked, GrabPlayers;
      ghost var v := w;
      if t.tooLong {
        SetHookState(chars, HOOK_RETRACT_START, all, me, v);
        v := SetState(v, me, HOOK_RETRACT_START);
      }
      if inWorld && t.playerHooking {
        CheckPlayers(chars, t, all, me, v);
        v := GrabPlayers(v, me, t, 0, 0.0);
      }
      if hookState == HOOK_FLYING {
        if t.hit.HitGround? {
          SetHookState(chars, HOOK_GRABBED, all, me, v);
          v := SetState(v, me, HOOK_GRABBED);
        } else if t.hit.HitNoHook? {
          SetHookState(chars, HOOK_RETRACT_START, all, me, v);
          v := SetState(v, me, HOOK_RETRACT_START);
        }
        if t.hit.HitTele? && inWorld && t.teleOut {
          SetHookedPlayer(chars, -1, all, me, v);
        }
      }
    }

    /** The branches of Tick on the hook state. */
    method DoMove(chars: seq<CharacterCore?>, t: Input, ghost all: seq<CharacterCore?>, ghost me: nat, ghost w: World)
      requires Here(chars, all, me, w)
      modifies all
      ensures Shows(|chars|, all, MoveHook(w, me, t))
    {
      hide SetHooked, Fly;
      if hookState == HOOK_IDLE {
        SetHookedPlayer(chars, -1, all, me, w);
      } else if HOOK_RETRACT_START <= hookState < HOOK_RETRACT_END {
        SetHookState(chars, hookState + 1, all, me, w);
      } else if hookState == HOOK_RETRACT_END {
        SetHookState(chars, HOOK_RETRACTED, all, me, w);
      } else if hookState == HOOK_FLYING {
        DoFly(chars, t, all, me, w);
      }
    }

    method DoRelease(chars: seq<CharacterCore?>, ghost all: seq<CharacterCore?>, ghost me: nat, ghost w: World)
      requires Here(chars, all, me, w)
      modifies all
      ensures Shows(|chars|, all, Release(w, me))
    {
      hide SetHooked;
      SetHookedPlayer(chars, -1, all, me, w);
      SetHookState(chars, HOOK_RETRACTED, all, me, SetHooked(w, me, -1));
    }

    /** A grabbing hook. */
    method DoHold(chars: seq<CharacterCore?>, t: Input, ghost all: seq<CharacterCore?>, ghost me: nat, ghost w: World)
      requires Here(chars, all, me, w)
      modifies all
      ensures Shows(|chars|, all, Hold(w, me, t))
    {
      hide SetHooked, Release, Shows;
      Sees(chars, all, me, w);
      ghost var v := w;
      if hookedPlayer != -1 && inWorld {
        if !(0 <= hookedPlayer < |chars| && chars[hookedPlayer] != null && id != -1 && t.keepsHook(hookedPlayer)) {
          DoRelease(chars, all, me, v);
          v := Release(v, me);
        }
      }
      Sees(chars, all, me, v);
      SetHookTick(chars, hookTick + 1, all, me, v);
      v := With(v, me, v[me].core.(hookTick := v[me].core.hookTick + 1));
      Sees(chars, all, me, v);
      if hookedPlayer != -1 && (hookTick > SERVER_TICK_SPEED + SERVER_TICK_SPEED / 5
                                || (inWorld && !(0 <= hookedPlayer < |chars| && chars[hookedPlayer] != null))) {
        DoRelease(chars, all, me, v);
      }
    }

    /** The hook part of Tick. */
    method DoTick(chars: seq<CharacterCore?>, t: Input, ghost all: seq<CharacterCore?>, ghost me: nat, ghost w: World)
      requires Here(chars, all, me, w)
      modifies all
      ensures Shows(|chars|, all, Tick(w, me, t))
    {
      hide HandleInput, MoveHook, Hold;
      DoInput(chars, t, all, me, w);
      DoMove(chars, t, all, me, HandleInput(w, me, t));
      if hookState == HOOK_GRABBED {
        DoHold(chars, t, all, me, MoveHook(HandleInput(w, me, t), me, t));
      }
    }
  }

  /** The characters in the state w says: the first n are the roster, where slot i is empty or holds
      the character with id i; the others are outside it and have id -1, or have no world. */
  ghost predicate Shows(n: nat, all: seq<CharacterCore?>, w: World)
    reads all
  {
    && n <= |all| == |w|
    && (forall i, j :: 0 <= i < j < |all| && all[i] == all[j] ==> all[i] == null)
    && forall i :: 0 <= i < |all| ==>
         if all[i] == null then w[i].Empty?
         else if i < n then all[i].id == i && all[i].inWorld && w[i] == Filled(all[i].View())
         else if all[i].inWorld then all[i].id == -1 && w[i] == Outside(all[i].View())
         else w[i] == Alone(all[i].View())
  }
}
