/**
 * The two bot handlers that drive a lobby: `/start` opens one in the chat,
 * and the Join button adds the presser to it and starts the game once
 * `Quorum` players have joined. Messages are returned as values; sending
 * them, the inline keyboard and the exception handler are not modelled.
 */
module Bot {
  import opened Wrappers
  import opened Models
  import opened Deal
  import opened Roster
  import opened Prompts
  import opened Manager

  /** The lobby message `waiting_for_players`: how many have joined, out of how many. */
  datatype Lobby = WaitingForPlayers(joined: nat, needed: nat)

  /** What a press of the Join button ends in. */
  datatype JoinOutcome =
    | AlreadyStarted
    | StillWaiting(lobby: Lobby)
    | Started(roles: map<int, Role>, prompts: seq<Prompt>)

  /** `username or first_name`: a missing username is the empty string here. */
  function DisplayName(username: string, firstName: string): string
  {
    if username != [] then username else firstName
  }

  /** The chat has an active game that is still waiting for players. */
  predicate InLobby(gm: GameManager, chatId: int)
    reads gm
  {
    chatId in gm.activeGames && gm.activeGames[chatId] in gm.games
    && gm.games[gm.activeGames[chatId]].status == Waiting
  }

  /**
   * `start_command`: replaces the chat's game by a fresh, empty lobby and
   * answers with the lobby message for 0 of `Quorum` players.
   */
  method StartCommand(gm: GameManager, chatId: int) returns (gameId: nat, lobby: Lobby)
    requires gm.Valid() && gm.Open()
    modifies gm
    ensures gm.Valid() && gm.Open()
    ensures lobby == WaitingForPlayers(0, Quorum)
    ensures gm.activeGames == old(gm.activeGames)[chatId := gameId]
    ensures gameId in gm.games && gm.games[gameId] == NewGame(chatId) && gameId !in old(gm.games)
    ensures InLobby(gm, chatId) && GamePlayerIds(gm.players, gameId) == []
    ensures gm.games == WithoutChat(old(gm.games), chatId)[gameId := NewGame(chatId)]
    ensures gameId == old(gm.nextGameId) && gm.nextGameId == gameId + 1
    ensures gm.players == old(gm.players) && gm.actions == old(gm.actions) && gm.playerVotes == old(gm.playerVotes)
  {
    gameId := gm.CreateGame(chatId);
    lobby := WaitingForPlayers(0, Quorum);
  }

  /**
   * `join_callback`: outside a waiting lobby nothing changes. Otherwise the
   * presser joins the chat's game (`AddPlayer`, under `DisplayName`); the
   * join that brings the lobby to `Quorum` starts the game, and with exactly
   * four players the deal is Don, Doctor, Commissioner and one civilian;
   * any other join answers with the new head count.
   */
  method JoinCallback(gm: GameManager, chatId: int, userId: int, username: string, firstName: string)
    returns (outcome: JoinOutcome, ghost joined: seq<Player>, ghost dealt: seq<Role>)
    requires gm.Valid() && gm.Open()
    modifies gm
    ensures gm.Valid() && gm.Open()
    ensures outcome.AlreadyStarted? <==> !old(InLobby(gm, chatId))
    ensures outcome.AlreadyStarted? ==>
      gm.players == old(gm.players) && gm.games == old(gm.games) && gm.activeGames == old(gm.activeGames)
    ensures gm.actions == old(gm.actions) && gm.playerVotes == old(gm.playerVotes) && gm.nextGameId == old(gm.nextGameId)
    ensures !outcome.AlreadyStarted? ==>
      var g, k := old(gm.activeGames)[chatId], FindByTelegram(old(gm.players), userId);
      && gm.activeGames == old(gm.activeGames)
      && joined == AddedPlayer(old(gm.players), g, userId, DisplayName(username, firstName))
      && k < |joined| && joined[k].telegramId == userId && joined[k].gameId == g
    ensures outcome.StillWaiting? ==>
      var g := gm.activeGames[chatId];
      && gm.players == joined
      && outcome.lobby == WaitingForPlayers(|GamePlayerIds(gm.players, g)|, Quorum)
      && outcome.lobby.joined < Quorum
      && InLobby(gm, chatId) && gm.games == old(gm.games)
    ensures outcome.Started? ==>
      StartedFrom(old(gm.games), joined, gm.players, gm.games, gm.activeGames[chatId], dealt, outcome.roles, outcome.prompts)
  {
    if !InLobby(gm, chatId) {
      return AlreadyStarted, gm.players, [];
    }
    var g := gm.activeGames[chatId];
    ghost var ps0, gs0 := gm.players, gm.games;
    var k := gm.AddPlayer(g, userId, DisplayName(username, firstName));
    var count := |GamePlayerIds(gm.players, g)|;
    if count >= Quorum {
      JoinFillsOnlyThisLobby(gm.activeGames, gm.games, ps0, gm.players, chatId);
      var started, roles, prompts;
      joined := gm.players;
      started, roles, prompts, dealt := gm.StartGame(chatId);
      StartedFromJoin(gs0, joined, gm.players, gm.games, g, dealt, roles, prompts);
      outcome := Started(roles, prompts);
    } else {
      JoinKeepsLobbiesOpen(gm.activeGames, gm.games, ps0, gm.players, chatId);
      outcome := StillWaiting(WaitingForPlayers(count, Quorum));
      joined, dealt := gm.players, [];
    }
  }

  /**
   * Game `g` of `games0` started from the table `joined`: its four players
   * were dealt as `DealtFour` says, their membership is as it was, the game
   * alone moved to its first night as Active with the dealt Mafia members as
   * its chat, and `prompts` are the night prompts of its players.
   */
  ghost predicate StartedFrom(games0: map<nat, Game>, joined: seq<Player>, players: seq<Player>, games: map<nat, Game>,
                              g: nat, dealt: seq<Role>, roles: map<int, Role>, prompts: seq<Prompt>)
  {
    && g in games0 && NoDuplicates(games0[g].mafiaChat)
    && GamePlayerIds(players, g) == GamePlayerIds(joined, g)
    && DealtFour(joined, players, g, dealt, roles)
    && games == games0[g := NextNight(WithChat(WithStatus(games0[g], Active),
                                               ChatOf(games0[g].mafiaChat, GamePlayerIds(joined, g), dealt)))]
    && games[g].status == Active && games[g].phase == Some(Night)
    && games[g].nightCount == games0[g].nightCount + 1
    && prompts == NightPrompts(GamePlayers(players, g))
  }

  /** What `start_game` does to a lobby of `Quorum` players is `StartedFrom`. */
  lemma StartedFromJoin(games0: map<nat, Game>, joined: seq<Player>, players: seq<Player>, games: map<nat, Game>,
                        g: nat, dealt: seq<Role>, roles: map<int, Role>, prompts: seq<Prompt>)
    requires g in games0 && NoDuplicates(games0[g].mafiaChat)
    requires |GamePlayerIds(joined, g)| == Quorum
    requires multiset(dealt) == multiset(DealRoles(Quorum)) && Quorum <= |dealt|
    requires players == DealOf(joined, GamePlayerIds(joined, g), dealt)
    requires roles == RolesMap(joined, GamePlayerIds(joined, g), dealt)
    requires games == games0[g := NextNight(WithChat(WithStatus(games0[g], Active),
                                                     ChatOf(games0[g].mafiaChat, GamePlayerIds(joined, g), dealt)))]
    requires prompts == NightPrompts(GamePlayers(players, g))
    ensures StartedFrom(games0, joined, players, games, g, dealt, roles, prompts)
  {
    DealOfFour();
    SameIdentityGamePlayerIds(joined, players, g);
    StartedWithoutMafia(joined, players, g, dealt, roles);
  }

  /**
   * `after` is `joined` with the four players of game `g` dealt `dealt`, a
   * shuffle of Don, Doctor, Commissioner and Civilian, and `roles` is the
   * map they are sent: each of the four holds their card and is alive, and
   * none of them is plain Mafia.
   */
  ghost predicate DealtFour(joined: seq<Player>, after: seq<Player>, g: nat, dealt: seq<Role>, roles: map<int, Role>)
  {
    var ids := GamePlayerIds(joined, g);
    && |ids| == Quorum && |dealt| == Quorum
    && multiset(dealt) == multiset{Don, Doctor, Commissioner, Civilian}
    && after == DealOf(joined, ids, dealt)
    && roles == RolesMap(joined, ids, dealt)
    && (forall k :: 0 <= k < Quorum ==> after[ids[k]].role == Some(dealt[k]) && after[ids[k]].isAlive)
    && (forall i :: i in ids ==> after[i].role.Some? && after[i].role.value != Mafia)
  }

  /** Dealing a shuffle of the four-player deal to a full lobby is `DealtFour`. */
  lemma StartedWithoutMafia(joined: seq<Player>, after: seq<Player>, g: nat, dealt: seq<Role>, roles: map<int, Role>)
    requires |GamePlayerIds(joined, g)| == Quorum
    requires multiset(dealt) == multiset(DealRoles(Quorum)) && Quorum <= |dealt|
    requires DealRoles(Quorum) == [Don, Doctor, Commissioner, Civilian]
    requires after == DealOf(joined, GamePlayerIds(joined, g), dealt)
    requires roles == RolesMap(joined, GamePlayerIds(joined, g), dealt)
    ensures DealtFour(joined, after, g, dealt, roles)
  {
    var ids := GamePlayerIds(joined, g);
    assert multiset(dealt) == multiset{Don, Doctor, Commissioner, Civilian};
    assert |dealt| == |multiset(dealt)|;
    FourDealtNoMafia(joined, ids, dealt);
  }

  /** Each of four players dealt a shuffle of Don, Doctor, Commissioner and Civilian holds their card, is alive, and is not Mafia. */
  lemma FourDealtNoMafia(ps: seq<Player>, ids: seq<nat>, dealt: seq<Role>)
    requires forall k :: 0 <= k < |ids| ==> ids[k] < |ps|
    requires forall a, b :: 0 <= a < b < |ids| ==> ids[a] < ids[b]
    requires |ids| == Quorum && multiset(dealt) == multiset{Don, Doctor, Commissioner, Civilian}
    ensures var qs := DealOf(ps, ids, dealt);
      && (forall k :: 0 <= k < Quorum ==> qs[ids[k]].role == Some(dealt[k]) && qs[ids[k]].isAlive)
      && (forall i :: i in ids ==> qs[i].role.Some? && qs[i].role.value != Mafia)
  {
    DealOfMeaning(ps, ids, dealt);
    assert Mafia !in multiset(dealt);
    assert Mafia !in dealt;
    forall i | i in ids
      ensures DealOf(ps, ids, dealt)[i].role.Some? && DealOf(ps, ids, dealt)[i].role.value != Mafia
    {
      var k :| 0 <= k < |ids| && ids[k] == i;
    }
  }

  /**
   * A join grows only the lobby of `chat`, and by one player at most: every
   * other lobby stays below `Quorum`, and that one reaches at most `Quorum`.
   */
  lemma JoinFillsOnlyThisLobby(active: map<int, nat>, gs: map<nat, Game>, ps: seq<Player>, qs: seq<Player>, chat: int)
    requires ActiveWellFormed(active, gs) && chat in active
    requires forall c1, c2 :: c1 in active && c2 in active && c1 != c2 ==> active[c1] != active[c2]
    requires LobbiesOpen(active, gs, ps) && gs[active[chat]].status == Waiting
    requires |GamePlayerIds(qs, active[chat])| <= |GamePlayerIds(ps, active[chat])| + 1
    requires forall h :: h != active[chat] ==> |GamePlayerIds(qs, h)| <= |GamePlayerIds(ps, h)|
    ensures LobbiesOpenExcept(active, gs, qs, chat)
    ensures |GamePlayerIds(qs, active[chat])| <= Quorum
  {
    forall c | c in active && c != chat && gs[active[c]].status == Waiting
      ensures |GamePlayerIds(qs, active[c])| < Quorum
    {
      assert active[c] != active[chat];
    }
  }

  /** A join that leaves the lobby of `chat` short of `Quorum` keeps every lobby open. */
  lemma JoinKeepsLobbiesOpen(active: map<int, nat>, gs: map<nat, Game>, ps: seq<Player>, qs: seq<Player>, chat: int)
    requires ActiveWellFormed(active, gs) && chat in active
    requires forall c1, c2 :: c1 in active && c2 in active && c1 != c2 ==> active[c1] != active[c2]
    requires LobbiesOpen(active, gs, ps) && |GamePlayerIds(qs, active[chat])| < Quorum
    requires forall h :: h != active[chat] ==> |GamePlayerIds(qs, h)| <= |GamePlayerIds(ps, h)|
    ensures LobbiesOpen(active, gs, qs)
  {
    forall c | c in active && gs[active[c]].status == Waiting
      ensures |GamePlayerIds(qs, active[c])| < Quorum
    {
      if c != chat {
        assert active[c] != active[chat];
      }
    }
  }
}
