/**
 * How `process_night_actions` resolves one night: a first pass collects the
 * players shielded by a Heal or a Protect, a second pass kills, in table
 * order, the target of every Kill that is not shielded. The functions here
 * are the specification the imperative passes in `Manager` are proved
 * against.
 */
module Night {
  import opened Models

  /** The actions of one game recorded for one night, in table order. */
  function Tonight(acts: seq<Action>, gameId: nat, night: int): (r: seq<Action>)
    ensures forall a :: a in r <==> a in acts && a.gameId == gameId && a.nightNumber == night
    ensures |r| <= |acts|
  {
    if acts == [] then []
    else
      (if acts[0].gameId == gameId && acts[0].nightNumber == night then [acts[0]] else [])
      + Tonight(acts[1..], gameId, night)
  }

  predicate Shields(a: Action)
  {
    a.kind == Heal || a.kind == Protect
  }

  /** First pass: the ids of existing players (`id < n`) targeted by a Heal or a Protect. */
  function ProtectedIds(acts: seq<Action>, n: nat): set<nat>
  {
    set a | a in acts && Shields(a) && a.targetId < n :: a.targetId
  }

  lemma ProtectedIdsSnoc(acts: seq<Action>, a: Action, n: nat)
    ensures ProtectedIds(acts + [a], n)
         == ProtectedIds(acts, n) + (if Shields(a) && a.targetId < n then {a.targetId} else {})
  {
  }

  predicate Kills(a: Action, protected: set<nat>, n: nat)
  {
    a.kind == Kill && a.targetId < n && a.targetId !in protected
  }

  /**
   * Second pass: the target of every Kill whose target exists and is not
   * shielded, once per such Kill and in table order. Nothing checks whether
   * the target is already dead or belongs to the game.
   */
  function KillVictims(acts: seq<Action>, protected: set<nat>, n: nat): (v: seq<nat>)
    ensures forall k :: 0 <= k < |v| ==> v[k] < n && v[k] !in protected
    ensures |v| <= |acts|
  {
    if acts == [] then []
    else
      var a := acts[|acts| - 1];
      KillVictims(acts[..|acts| - 1], protected, n) + (if Kills(a, protected, n) then [a.targetId] else [])
  }

  lemma KillVictimsSnoc(acts: seq<Action>, a: Action, protected: set<nat>, n: nat)
    ensures KillVictims(acts + [a], protected, n)
         == KillVictims(acts, protected, n) + (if Kills(a, protected, n) then [a.targetId] else [])
  {
    assert (acts + [a])[..|acts|] == acts;
  }

  /** A player is among the victims exactly when some Kill in the list targets them and they are not shielded. */
  lemma {:induction false} KillVictimsMeaning(acts: seq<Action>, protected: set<nat>, n: nat, t: nat)
    ensures t in KillVictims(acts, protected, n)
       <==> t < n && t !in protected && exists i :: 0 <= i < |acts| && acts[i].kind == Kill && acts[i].targetId == t
  {
    if acts != [] {
      var init := acts[..|acts| - 1];
      var a := acts[|acts| - 1];
      KillVictimsMeaning(init, protected, n, t);
      assert acts == init + [a];
      if exists i :: 0 <= i < |acts| && acts[i].kind == Kill && acts[i].targetId == t {
        var i :| 0 <= i < |acts| && acts[i].kind == Kill && acts[i].targetId == t;
        if i < |init| {
          assert init[i] == acts[i];
        }
      }
      if exists i :: 0 <= i < |init| && init[i].kind == Kill && init[i].targetId == t {
        var i :| 0 <= i < |init| && init[i].kind == Kill && init[i].targetId == t;
        assert acts[i] == init[i];
      }
    }
  }

  /**
   * A player is a victim once per unshielded Kill that targets them: two
   * such Kills on the same target make it a victim twice.
   */
  lemma {:induction false} KillVictimsCount(acts: seq<Action>, protected: set<nat>, n: nat, t: nat)
    ensures multiset(KillVictims(acts, protected, n))[t] == |KillsOn(acts, protected, n, t)|
  {
    if acts != [] {
      var m := |acts| - 1;
      KillVictimsCount(acts[..m], protected, n, t);
      KillsOnSnoc(acts, protected, n, t);
    }
  }

  /** The positions of the Kills in `acts` that take `t`. */
  function KillsOn(acts: seq<Action>, protected: set<nat>, n: nat, t: nat): set<nat>
  {
    set i | 0 <= i < |acts| && Kills(acts[i], protected, n) && acts[i].targetId == t
  }

  lemma KillsOnSnoc(acts: seq<Action>, protected: set<nat>, n: nat, t: nat)
    requires acts != []
    ensures var m := |acts| - 1;
      |KillsOn(acts, protected, n, t)|
      == |KillsOn(acts[..m], protected, n, t)| + (if Kills(acts[m], protected, n) && acts[m].targetId == t then 1 else 0)
  {
    var m := |acts| - 1;
    var s0, s := KillsOn(acts[..m], protected, n, t), KillsOn(acts, protected, n, t);
    var tail := if Kills(acts[m], protected, n) && acts[m].targetId == t then {m} else {};
    forall i
      ensures i in s <==> i in s0 + tail
    {
      if 0 <= i < m {
        assert acts[..m][i] == acts[i];
        assert i in s <==> i in s0;
      } else if i == m {
        assert i in s <==> i in tail;
      }
    }
    assert s == s0 + tail;
    assert s0 !! tail;
  }

  /**
   * The night's outcome for one existing player: they die exactly when some
   * Kill targets them and no Heal or Protect does, whatever the order of the
   * actions.
   */
  lemma DiesTonight(acts: seq<Action>, n: nat, t: nat)
    requires t < n
    ensures t in KillVictims(acts, ProtectedIds(acts, n), n)
       <==> ((exists a :: a in acts && a.kind == Kill && a.targetId == t)
             && !(exists a :: a in acts && Shields(a) && a.targetId == t))
  {
    KillVictimsMeaning(acts, ProtectedIds(acts, n), n, t);
    if exists a :: a in acts && a.kind == Kill && a.targetId == t {
      var a :| a in acts && a.kind == Kill && a.targetId == t;
      var i :| 0 <= i < |acts| && acts[i] == a;
    }
  }

  /** The player table after the victims are marked dead: only `isAlive` of a victim changes. */
  function AfterKills(ps: seq<Player>, victims: seq<nat>): (r: seq<Player>)
    ensures |r| == |ps|
    ensures forall i :: 0 <= i < |ps| ==> r[i] == ps[i].(isAlive := ps[i].isAlive && i !in victims)
  {
    seq(|ps|, i requires 0 <= i < |ps| => if i in victims then ps[i].(isAlive := false) else ps[i])
  }

  lemma AfterKillsSnoc(ps: seq<Player>, victims: seq<nat>, t: nat)
    requires t < |ps|
    ensures AfterKills(ps, victims + [t]) == AfterKills(ps, victims)[t := AfterKills(ps, victims)[t].(isAlive := false)]
  {
  }
}
