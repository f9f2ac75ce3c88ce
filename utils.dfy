/**
 * The helper functions of the bot's utility module: filters over a player
 * list, the numbered player list shown in chat, and the stand-alone vote
 * counter.
 */
module Utils {
  import opened Wrappers
  import opened Models
  import opened Text
  import Votes

  /** `[p for p in players if p.is_alive]` */
  function GetAlivePlayers(ps: seq<Player>): (r: seq<Player>)
    ensures forall p :: p in r <==> p in ps && p.isAlive
    ensures |r| <= |ps|
  {
    if ps == [] then [] else (if ps[0].isAlive then [ps[0]] else []) + GetAlivePlayers(ps[1..])
  }

  /**
   * The filter keeps the original order: it distributes over concatenation
   * (and keeps a single player exactly when that player is alive).
   */
  lemma {:induction false} AlivePlayersOfConcat(a: seq<Player>, b: seq<Player>)
    ensures GetAlivePlayers(a + b) == GetAlivePlayers(a) + GetAlivePlayers(b)
  {
    if a == [] {
      assert a + b == b;
    } else {
      assert (a + b)[0] == a[0];
      assert (a + b)[1..] == a[1..] + b;
      AlivePlayersOfConcat(a[1..], b);
    }
  }

  /** `[p for p in players if p.current_role in [Role.MAFIA, Role.DON] and p.is_alive]` */
  function GetMafiaMembers(ps: seq<Player>): (r: seq<Player>)
    ensures forall p :: p in r <==> p in ps && p.isAlive && IsMafiaAligned(p.role)
    ensures |r| <= |ps|
  {
    if ps == [] then []
    else (if ps[0].isAlive && IsMafiaAligned(ps[0].role) then [ps[0]] else []) + GetMafiaMembers(ps[1..])
  }

  /**
   * The filter keeps the original order: it distributes over concatenation
   * (and keeps a single player exactly when that player is a living Mafia
   * or Don).
   */
  lemma {:induction false} MafiaMembersOfConcat(a: seq<Player>, b: seq<Player>)
    ensures GetMafiaMembers(a + b) == GetMafiaMembers(a) + GetMafiaMembers(b)
  {
    if a == [] {
      assert a + b == b;
    } else {
      assert (a + b)[0] == a[0];
      assert (a + b)[1..] == a[1..] + b;
      MafiaMembersOfConcat(a[1..], b);
    }
  }

  /**
   * The mafia members are the mafia members of the living players, so
   * never more than the living.
   */
  lemma {:induction false} MafiaMembersAmongAlive(ps: seq<Player>)
    ensures GetMafiaMembers(ps) == GetMafiaMembers(GetAlivePlayers(ps))
    ensures |GetMafiaMembers(ps)| <= |GetAlivePlayers(ps)|
  {
    if ps != [] {
      MafiaMembersAmongAlive(ps[1..]);
      var rest := GetAlivePlayers(ps[1..]);
      if ps[0].isAlive {
        var alive := [ps[0]] + rest;
        assert GetAlivePlayers(ps) == alive;
        assert alive[0] == ps[0] && alive[1..] == rest;
        assert GetMafiaMembers(alive)
            == (if IsMafiaAligned(ps[0].role) then [ps[0]] else []) + GetMafiaMembers(rest);
      } else {
        assert GetAlivePlayers(ps) == [] + rest;
        assert [] + rest == rest;
      }
    }
  }

  /** One line of the list: `"{i}. {username}"`, with `" ({role})"` only when roles are shown and the player has one. */
  function PlayerLine(number: nat, p: Player, showRoles: bool): string
  {
    IntToString(number) + ". " + p.username
      + (if showRoles && p.role.Some? then " (" + RoleValue(p.role.value) + ")" else "")
  }

  /** `"\n".join(...)` of the lines numbered from 1; the empty list gives the empty string. */
  function FormatPlayerList(ps: seq<Player>, showRoles: bool): (s: string)
    ensures s == "" <==> ps == []
  {
    Join(seq(|ps|, i requires 0 <= i < |ps| => PlayerLine(i + 1, ps[i], showRoles)), '\n')
  }

  lemma LineHasNoNewline(number: nat, p: Player, showRoles: bool)
    requires '\n' !in p.username
    ensures '\n' !in PlayerLine(number, p, showRoles)
  {
    var num := IntToString(number);
    assert '\n' !in num;
    if showRoles && p.role.Some? {
      var v := RoleValue(p.role.value);
      assert '\n' !in v by {
        match p.role.value
        case Civilian =>
        case Mafia =>
        case Don =>
        case Doctor =>
        case Commissioner =>
        case Lawyer =>
      }
    }
  }

  /**
   * The list has exactly one line per player, in order, the line of the
   * i-th player (counting from 1) being `PlayerLine(i, ...)`, as long as no
   * username itself holds a line break.
   */
  lemma FormatPlayerListLines(ps: seq<Player>, showRoles: bool)
    requires ps != []
    requires forall i :: 0 <= i < |ps| ==> '\n' !in ps[i].username
    ensures Split(FormatPlayerList(ps, showRoles), '\n')
         == seq(|ps|, i requires 0 <= i < |ps| => PlayerLine(i + 1, ps[i], showRoles))
  {
    var lines := seq(|ps|, i requires 0 <= i < |ps| => PlayerLine(i + 1, ps[i], showRoles));
    forall i | 0 <= i < |lines|
      ensures '\n' !in lines[i]
    {
      LineHasNoNewline(i + 1, ps[i], showRoles);
    }
    SplitJoin(lines, '\n');
  }

  /** `next(p for p in players if p.id == id)`: the position of the first player with that id, or `|players|`. */
  function FindById(players: seq<Player>, id: int): (k: nat)
    ensures k <= |players|
    ensures k < |players| ==> players[k].id == id
    ensures forall j :: 0 <= j < k ==> players[j].id != id
  {
    if players == [] then 0
    else if players[0].id == id then 0
    else 1 + FindById(players[1..], id)
  }

  /**
   * `calculate_votes`: every vote counts, whatever its target. With no votes
   * the result is no player and 0. Otherwise the elected target is the first
   * one with the most votes, `maxVotes` is its count, and the player is the
   * first in `players` with that id, or none when no player has it.
   */
  method CalculateVotes(votes: Votes.Book, players: seq<Player>)
    returns (voted: Option<Player>, maxVotes: nat, ghost elected: Option<int>)
    ensures elected.None? <==> Votes.Values(votes) == []
    ensures elected.None? ==> voted == None && maxVotes == 0
    ensures elected.Some? ==> Votes.IsFirstMax(Votes.Values(votes), elected.value)
    ensures elected.Some? ==> maxVotes == Votes.Count(Votes.Values(votes), elected.value)
    ensures elected.Some? ==> var k := FindById(players, elected.value);
      voted == if k < |players| then Some(players[k]) else None
  {
    var w, m := Votes.Tally(Votes.Values(votes));
    elected := w;
    if w.None? {
      return None, 0, elected;
    }
    var k := FindById(players, w.value);
    if k == |players| {
      return None, m, elected;
    }
    return Some(players[k]), m, elected;
  }
}
