/**
 * The queries the game manager runs against the player table, and the
 * end-of-game test `check_game_end`. The table is a sequence whose index is
 * the player's id, so the queries are functions of that sequence.
 */
module Roster {
  import opened Wrappers
  import opened Models
  import opened Utils
  import Votes

  /** The ids of the rows with `Player.game_id == g`, in table order. */
  function GamePlayerIds(ps: seq<Player>, g: nat): (ids: seq<nat>)
    ensures |ids| <= |ps|
    ensures forall k :: 0 <= k < |ids| ==> ids[k] < |ps| && ps[ids[k]].gameId == g
    ensures forall a, b :: 0 <= a < b < |ids| ==> ids[a] < ids[b]
  {
    if ps == [] then []
    else
      var n := |ps| - 1;
      GamePlayerIds(ps[..n], g) + (if ps[n].gameId == g then [n] else [])
  }

  /** The rows themselves, `game.players`. */
  function GamePlayers(ps: seq<Player>, g: nat): (r: seq<Player>)
    ensures |r| == |GamePlayerIds(ps, g)|
    ensures forall p :: p in r <==> p in ps && p.gameId == g
  {
    var ids := GamePlayerIds(ps, g);
    GamePlayerIdsComplete(ps, g);
    var r := seq(|ids|, k requires 0 <= k < |ids| => ps[ids[k]]);
    assert forall p :: p in ps && p.gameId == g ==> p in r by {
      forall p | p in ps && p.gameId == g
        ensures p in r
      {
        var i :| 0 <= i < |ps| && ps[i] == p;
        var k :| 0 <= k < |ids| && ids[k] == i;
        assert r[k] == p;
      }
    }
    r
  }

  /** Every row of game `g` is listed. */
  lemma {:induction false} GamePlayerIdsComplete(ps: seq<Player>, g: nat)
    ensures forall i :: 0 <= i < |ps| && ps[i].gameId == g ==> i in GamePlayerIds(ps, g)
  {
    if ps != [] {
      GamePlayerIdsComplete(ps[..|ps| - 1], g);
      forall i | 0 <= i < |ps| - 1
        ensures ps[..|ps| - 1][i] == ps[i]
      {
      }
    }
  }

  lemma GamePlayerIdsSnoc(ps: seq<Player>, p: Player, g: nat)
    ensures GamePlayerIds(ps + [p], g) == GamePlayerIds(ps, g) + (if p.gameId == g then [|ps|] else [])
  {
    assert (ps + [p])[..|ps|] == ps;
  }

  /** Replacing one row moves that row's id out of its old game's list and into its new game's list. */
  lemma {:induction false} GamePlayerIdsUpdate(ps: seq<Player>, k: nat, p: Player, g: nat)
    requires k < |ps|
    ensures |GamePlayerIds(ps[k := p], g)|
         == |GamePlayerIds(ps, g)| - (if ps[k].gameId == g then 1 else 0) + (if p.gameId == g then 1 else 0)
  {
    var n := |ps| - 1;
    var qs := ps[k := p];
    if k == n {
      assert qs[..n] == ps[..n];
    } else {
      assert qs[..n] == ps[..n][k := p];
      GamePlayerIdsUpdate(ps[..n], k, p, g);
    }
  }

  /** A game id no row carries yet has no players. */
  lemma {:induction false} NoPlayersInUnissuedGame(ps: seq<Player>, g: nat)
    requires forall i :: 0 <= i < |ps| ==> ps[i].gameId < g
    ensures GamePlayerIds(ps, g) == []
  {
    if ps != [] {
      NoPlayersInUnissuedGame(ps[..|ps| - 1], g);
    }
  }

  /** Two tables agree on every row's id, Telegram id and game. */
  predicate SameIdentity(ps: seq<Player>, qs: seq<Player>)
  {
    |ps| == |qs|
    && forall i :: 0 <= i < |ps| ==>
         qs[i].id == ps[i].id && qs[i].telegramId == ps[i].telegramId && qs[i].gameId == ps[i].gameId
  }

  /** Changes to roles, liveness or names leave every game's membership as it was. */
  lemma {:induction false} SameIdentityGamePlayerIds(ps: seq<Player>, qs: seq<Player>, g: nat)
    requires SameIdentity(ps, qs)
    ensures GamePlayerIds(qs, g) == GamePlayerIds(ps, g)
  {
    if ps != [] {
      var n := |ps| - 1;
      assert SameIdentity(ps[..n], qs[..n]);
      SameIdentityGamePlayerIds(ps[..n], qs[..n], g);
    }
  }

  /** `query(Player).filter(Player.telegram_id == tg).first()`: the first such row, or `|ps|` for none. */
  function FindByTelegram(ps: seq<Player>, tg: int): (k: nat)
    ensures k <= |ps|
    ensures k < |ps| ==> ps[k].telegramId == tg
    ensures forall j :: 0 <= j < k ==> ps[j].telegramId != tg
  {
    if ps == [] then 0
    else if ps[0].telegramId == tg then 0
    else 1 + FindByTelegram(ps[1..], tg)
  }

  predicate LivesIn(p: Player, g: nat, tg: int)
  {
    p.gameId == g && p.telegramId == tg && p.isAlive
  }

  /** The first living player of game `g` with Telegram id `tg`, the query the night and vote handlers run. */
  function FindLiving(ps: seq<Player>, g: nat, tg: int): (r: Option<nat>)
    ensures r.Some? ==> r.value < |ps| && LivesIn(ps[r.value], g, tg)
    ensures r.None? <==> forall i :: 0 <= i < |ps| ==> !LivesIn(ps[i], g, tg)
  {
    FindLivingFrom(ps, g, tg, 0)
  }

  function FindLivingFrom(ps: seq<Player>, g: nat, tg: int, i: nat): (r: Option<nat>)
    requires i <= |ps|
    ensures r.Some? ==> i <= r.value < |ps| && LivesIn(ps[r.value], g, tg)
    ensures r.None? <==> forall j :: i <= j < |ps| ==> !LivesIn(ps[j], g, tg)
    decreases |ps| - i
  {
    if i == |ps| then None
    else if LivesIn(ps[i], g, tg) then Some(i)
    else FindLivingFrom(ps, g, tg, i + 1)
  }

  datatype GameEnd = Continue | TownWins | MafiaWins

  /** The living players of game `g`. */
  function Living(ps: seq<Player>, g: nat): seq<Player>
  {
    GetAlivePlayers(GamePlayers(ps, g))
  }

  /** How many of them are Mafia or Don. */
  function MafiaAlive(ps: seq<Player>, g: nat): (m: nat)
    ensures m <= |Living(ps, g)|
  {
    |GetMafiaMembers(Living(ps, g))|
  }

  /**
   * `check_game_end`: the town wins once no Mafia or Don is alive, the mafia
   * wins once they are at least as many as the rest of the living, and the
   * game goes on otherwise, which needs at least three living players.
   */
  function GameEndOf(ps: seq<Player>, g: nat): (r: GameEnd)
    ensures var mafia, town := MafiaAlive(ps, g), |Living(ps, g)| - MafiaAlive(ps, g);
      && (r == TownWins <==> mafia == 0)
      && (r == MafiaWins <==> 0 < mafia && town <= mafia)
      && (r == Continue <==> 0 < mafia < town)
      && (r == Continue ==> |Living(ps, g)| >= 3)
  {
    var mafia := MafiaAlive(ps, g);
    var town := |Living(ps, g)| - mafia;
    if mafia == 0 then TownWins
    else if mafia >= town then MafiaWins
    else Continue
  }

  /** A game without living players, or without players at all, is a win for the town. */
  lemma EmptyGameIsTownWin(ps: seq<Player>, g: nat)
    requires forall i :: 0 <= i < |ps| && ps[i].gameId == g ==> !ps[i].isAlive
    ensures GameEndOf(ps, g) == TownWins
  {
  }

  /**
   * The votes of a vote book that `process_votes` counts, as player ids in
   * book order: a vote names a Telegram id, and counts for the living player
   * of the game with that id; a vote for anyone else is dropped.
   */
  function CountedTargets(book: Votes.Book, ps: seq<Player>, g: nat): (c: seq<nat>)
    ensures |c| <= |book|
    ensures forall k :: 0 <= k < |c| ==> c[k] < |ps| && ps[c[k]].gameId == g && ps[c[k]].isAlive
  {
    if book == [] then []
    else
      (match FindLiving(ps, g, book[0].1)
       case Some(i) => [i]
       case None => [])
      + CountedTargets(book[1..], ps, g)
  }

  /** The target a single vote counts for, if any. */
  function CountedTarget(vote: (nat, int), ps: seq<Player>, g: nat): seq<nat>
  {
    match FindLiving(ps, g, vote.1)
    case Some(i) => [i]
    case None => []
  }

  lemma {:induction false} CountedTargetsSnoc(book: Votes.Book, vote: (nat, int), ps: seq<Player>, g: nat)
    ensures CountedTargets(book + [vote], ps, g) == CountedTargets(book, ps, g) + CountedTarget(vote, ps, g)
  {
    if book == [] {
      assert [vote][1..] == [];
    } else {
      assert (book + [vote])[1..] == book[1..] + [vote];
      CountedTargetsSnoc(book[1..], vote, ps, g);
    }
  }

  /** The vote names `i`, a living player of the game. */
  predicate CountsFor(vote: (nat, int), ps: seq<Player>, g: nat, i: nat)
  {
    FindLiving(ps, g, vote.1) == Some(i)
  }

  /**
   * Every vote counts once: the number of times player `i` occurs among the
   * counted targets is the number of votes that name them as a living
   * player of the game.
   */
  lemma {:induction false} CountedTargetsCount(book: Votes.Book, ps: seq<Player>, g: nat, i: nat)
    ensures Votes.Count(CountedTargets(book, ps, g), i) == |VotesFor(book, ps, g, i)|
  {
    if book != [] {
      var n := |book| - 1;
      var init := book[..n];
      assert book == init + [book[n]];
      CountedTargetsSnoc(init, book[n], ps, g);
      CountedTargetsCount(init, ps, g, i);
      var last: seq<int> := CountedTarget(book[n], ps, g);
      assert multiset(last)[i] == if CountsFor(book[n], ps, g, i) then 1 else 0;
      VotesForSnoc(book, ps, g, i);
    }
  }

  /** The positions of the votes in `book` that name `i`, a living player of the game. */
  function VotesFor(book: Votes.Book, ps: seq<Player>, g: nat, i: nat): set<nat>
  {
    set k | 0 <= k < |book| && CountsFor(book[k], ps, g, i)
  }

  lemma VotesForSnoc(book: Votes.Book, ps: seq<Player>, g: nat, i: nat)
    requires book != []
    ensures var n := |book| - 1;
      |VotesFor(book, ps, g, i)| == |VotesFor(book[..n], ps, g, i)| + (if CountsFor(book[n], ps, g, i) then 1 else 0)
  {
    var n := |book| - 1;
    var s0, s := VotesFor(book[..n], ps, g, i), VotesFor(book, ps, g, i);
    var tail := if CountsFor(book[n], ps, g, i) then {n} else {};
    forall k
      ensures k in s <==> k in s0 + tail
    {
      if 0 <= k < n {
        assert book[..n][k] == book[k];
        assert k in s <==> k in s0;
      } else if k == n {
        assert k in s <==> k in tail;
      }
    }
    assert s == s0 + tail;
    assert s0 !! tail;
  }

  /** Every vote for a living player of the game is counted, and for that player. */
  lemma {:induction false} CountedTargetsComplete(book: Votes.Book, ps: seq<Player>, g: nat, k: nat)
    requires k < |book| && FindLiving(ps, g, book[k].1).Some?
    ensures FindLiving(ps, g, book[k].1).value in CountedTargets(book, ps, g)
  {
    if k > 0 {
      assert book[1..][k - 1] == book[k];
      CountedTargetsComplete(book[1..], ps, g, k - 1);
    }
  }
}
