/**
 * `GameManager`: the bot's one stateful object. Its two dictionaries
 * (`active_games`, chat id to game; `player_votes`, game id to the vote book)
 * are fields here, and so are the database tables it queries and commits to
 * (games, players, actions), so every operation is a method that changes
 * the manager in place. Timers are not modelled: each phase transition is a
 * method that a timer, or anything else, may call at any time.
 */
module Manager {
  import opened Wrappers
  import opened Models
  import opened Text
  import opened Roles
  import opened Callbacks
  import opened Deal
  import opened Night
  import opened Roster
  import opened Prompts
  import Votes

  /** The number of players at which `join_callback` starts a lobby. */
  const Quorum: nat := 4

  /** The messages the manager posts to a chat. */
  datatype Announcement = PlayerKilled(name: string) | NoVotes | NightError

  /** The answers the callback handlers give to the button press. */
  datatype Reply = NotNightPhase | NotVotingPhase | PlayerNotFound | NoNightAction | ActionFailed | ActionSuccessful

  /** The keys of the message table `MESSAGES`. */
  const MessageKeys: set<string> := {
    "game_start", "night_phase", "day_phase", "voting_phase", "game_over",
    "role_mafia", "role_civilian", "role_doctor", "role_commissioner", "role_don", "role_lawyer",
    "mafia_kill", "doctor_heal", "commissioner_check", "lawyer_protect",
    "player_killed", "player_saved", "check_result_mafia", "check_result_civilian",
    "waiting_for_players", "not_enough_players", "player_joined", "player_left",
    "game_already_started", "error_joining",
    "mafia_action", "doctor_action", "commissioner_action", "lawyer_action", "don_action",
    "not_night_phase", "player_not_found", "no_night_action", "action_failed", "action_successful",
    "cannot_target_self", "cannot_target_dead"
  }

  /** The message key each answer is looked up under. */
  function ReplyKey(r: Reply): string
  {
    match r
    case NotNightPhase => "not_night_phase"
    case NotVotingPhase => "not_voting_phase"
    case PlayerNotFound => "player_not_found"
    case NoNightAction => "no_night_action"
    case ActionFailed => "action_failed"
    case ActionSuccessful => "action_successful"
  }

  /**
   * `query.answer(MESSAGES[key])` inside a handler whose catch-all answers
   * `action_failed`: an answer whose key is in the table is given as is; a
   * missing key raises `KeyError`, and the catch-all answers `ActionFailed`.
   */
  function Answer(keys: set<string>, r: Reply): (a: Reply)
    ensures a == r || a == ActionFailed
    ensures a == r <==> ReplyKey(r) in keys || r == ActionFailed
  {
    if ReplyKey(r) in keys then r else ActionFailed
  }

  /**
   * With the message table as it stands, the vote handler's answer outside
   * the voting phase is lost: its key is missing, so the presser is told
   * that the action failed. Every other answer is given as is.
   */
  lemma NotVotingPhaseKeyMissing()
    ensures "not_voting_phase" !in MessageKeys
    ensures Answer(MessageKeys, NotVotingPhase) == ActionFailed != NotVotingPhase
    ensures forall r :: r != NotVotingPhase ==> Answer(MessageKeys, r) == r
  {
    forall r | r != NotVotingPhase
      ensures ReplyKey(r) in MessageKeys
    {
    }
  }

  /** With the `not_voting_phase` key added to the table, every answer a handler gives reaches the presser. */
  lemma AnswersWithVotingKey()
    ensures forall r :: Answer(MessageKeys + {"not_voting_phase"}, r) == r
  {
    NotVotingPhaseKeyMissing();
  }

  /** Player ids are table positions, Telegram ids are unique, and every player's game id has been issued. */
  predicate PlayersWellFormed(ps: seq<Player>, next: nat)
  {
    (forall i :: 0 <= i < |ps| ==> ps[i].id == i && ps[i].gameId < next)
    && (forall i, j :: 0 <= i < j < |ps| ==> ps[i].telegramId != ps[j].telegramId)
  }

  /** Game ids have been issued, a chat holds at most one game, and mafia chats list each player once. */
  predicate GamesWellFormed(gs: map<nat, Game>, next: nat)
  {
    (forall g :: g in gs ==> g < next && NoDuplicates(gs[g].mafiaChat))
    && (forall g1, g2 :: g1 in gs && g2 in gs && g1 != g2 ==> gs[g1].chatId != gs[g2].chatId)
  }

  /** Every active chat names a stored game of that chat. */
  predicate ActiveWellFormed(active: map<int, nat>, gs: map<nat, Game>)
  {
    forall c :: c in active ==> active[c] in gs && gs[active[c]].chatId == c
  }

  predicate VotesWellFormed(books: map<nat, Votes.Book>, next: nat)
  {
    forall g :: g in books ==> g < next && Votes.ValidBook(books[g])
  }

  /** Storing a well-formed book for an issued game keeps the vote books well formed (a proof step of `HandleVote`). */
  lemma BookUpdateKeepsVotes(books: map<nat, Votes.Book>, next: nat, g: nat, b: Votes.Book)
    requires VotesWellFormed(books, next) && g < next && Votes.ValidBook(b)
    ensures VotesWellFormed(books[g := b], next)
  {
  }

  predicate ActionsWellFormed(acts: seq<Action>, next: nat)
  {
    forall i :: 0 <= i < |acts| ==> acts[i].gameId < next
  }

  /** Every lobby still waiting for players has fewer than `Quorum` of them. */
  predicate LobbiesOpen(active: map<int, nat>, gs: map<nat, Game>, ps: seq<Player>)
    requires ActiveWellFormed(active, gs)
  {
    forall c :: c in active && gs[active[c]].status == Waiting ==> |GamePlayerIds(ps, active[c])| < Quorum
  }

  /** Lobbies stay open while no chat is added, no game returns to Waiting and no player changes game. */
  lemma LobbiesKept(a1: map<int, nat>, gs1: map<nat, Game>, ps1: seq<Player>,
                    a2: map<int, nat>, gs2: map<nat, Game>, ps2: seq<Player>)
    requires ActiveWellFormed(a1, gs1) && ActiveWellFormed(a2, gs2) && LobbiesOpen(a1, gs1, ps1)
    requires forall c :: c in a2 ==> c in a1 && a2[c] == a1[c]
    requires forall c :: c in a2 && gs2[a2[c]].status == Waiting ==> gs1[a1[c]].status == Waiting
    requires SameIdentity(ps1, ps2)
    ensures LobbiesOpen(a2, gs2, ps2)
  {
    forall c | c in a2 && gs2[a2[c]].status == Waiting
      ensures |GamePlayerIds(ps2, a2[c])| < Quorum
    {
      SameIdentityGamePlayerIds(ps1, ps2, a2[c]);
    }
  }

  /** Rows that keep their id, game and Telegram id keep the players table well formed (a proof step for every update of `players`). */
  lemma SameIdentityKeepsPlayers(ps: seq<Player>, qs: seq<Player>, next: nat)
    requires PlayersWellFormed(ps, next) && SameIdentity(ps, qs)
    ensures PlayersWellFormed(qs, next)
  {
  }

  /**
   * Replacing one stored game by a row of the same chat whose mafia chat has
   * no repeats keeps the tables well formed, and keeps the lobbies open
   * unless the game is put back to Waiting.
   */
  lemma GameUpdateKeepsTables(gs: map<nat, Game>, active: map<int, nat>, ps: seq<Player>, next: nat, g: nat, game: Game)
    requires GamesWellFormed(gs, next) && ActiveWellFormed(active, gs)
    requires g in gs && game.chatId == gs[g].chatId && NoDuplicates(game.mafiaChat)
    ensures GamesWellFormed(gs[g := game], next) && ActiveWellFormed(active, gs[g := game])
    ensures LobbiesOpen(active, gs, ps) && (game.status == Waiting ==> gs[g].status == Waiting)
            ==> LobbiesOpen(active, gs[g := game], ps)
  {
    if LobbiesOpen(active, gs, ps) && (game.status == Waiting ==> gs[g].status == Waiting) {
      LobbiesKept(active, gs, ps, active, gs[g := game], ps);
    }
  }

  /** Every lobby but the one of chat `skip` has fewer than `Quorum` players. */
  predicate LobbiesOpenExcept(active: map<int, nat>, gs: map<nat, Game>, ps: seq<Player>, skip: int)
    requires ActiveWellFormed(active, gs)
  {
    forall c :: c in active && c != skip && gs[active[c]].status == Waiting ==> |GamePlayerIds(ps, active[c])| < Quorum
  }

  /** Taking the lobby of `chat` out of Waiting reopens the only lobby that may have been full. */
  lemma StartKeepsLobbies(active: map<int, nat>, gs: map<nat, Game>, ps: seq<Player>, next: nat, chat: int, game: Game)
    requires GamesWellFormed(gs, next) && ActiveWellFormed(active, gs) && LobbiesOpenExcept(active, gs, ps, chat)
    requires chat in active && game.chatId == chat && game.status != Waiting && NoDuplicates(game.mafiaChat)
    ensures ActiveWellFormed(active, gs[active[chat] := game]) && LobbiesOpen(active, gs[active[chat] := game], ps)
  {
    GameUpdateKeepsTables(gs, active, ps, next, active[chat], game);
    var gs2 := gs[active[chat] := game];
    forall c | c in active && gs2[active[c]].status == Waiting
      ensures |GamePlayerIds(ps, active[c])| < Quorum
    {
      if c != chat {
        assert active[c] != active[chat];
      }
    }
  }

  /** Dealing the roles of game `g` keeps every table well formed and every lobby open. */
  lemma DealKeepsTables(active: map<int, nat>, gs: map<nat, Game>, ps: seq<Player>, qs: seq<Player>, next: nat,
                        g: nat, chat: seq<nat>)
    requires GamesWellFormed(gs, next) && ActiveWellFormed(active, gs) && PlayersWellFormed(ps, next)
    requires g in gs && NoDuplicates(chat) && SameIdentity(ps, qs)
    ensures var gs' := gs[g := WithChat(gs[g], chat)];
      && GamesWellFormed(gs', next) && ActiveWellFormed(active, gs') && PlayersWellFormed(qs, next)
      && (LobbiesOpen(active, gs, ps) ==> LobbiesOpen(active, gs', qs))
  {
    var game := WithChat(gs[g], chat);
    GameUpdateKeepsTables(gs, active, ps, next, g, game);
    IdentityKeepsTables(active, gs[g := game], ps, qs, next);
  }

  lemma IdentityKeepsTables(active: map<int, nat>, gs: map<nat, Game>, ps: seq<Player>, qs: seq<Player>, next: nat)
    requires ActiveWellFormed(active, gs) && PlayersWellFormed(ps, next) && SameIdentity(ps, qs)
    ensures PlayersWellFormed(qs, next)
    ensures LobbiesOpen(active, gs, ps) ==> LobbiesOpen(active, gs, qs)
  {
    if LobbiesOpen(active, gs, ps) {
      LobbiesKept(active, gs, ps, active, gs, qs);
    }
  }

  /** Closing a chat's game keeps the lobbies of the other chats open. */
  lemma CloseKeepsLobbies(active: map<int, nat>, gs: map<nat, Game>, ps: seq<Player>, chat: int)
    requires ActiveWellFormed(active, gs)
    ensures ActiveWellFormed(active - {chat}, gs)
    ensures LobbiesOpen(active, gs, ps) ==> LobbiesOpen(active - {chat}, gs, ps)
  {
    if LobbiesOpen(active, gs, ps) {
      assert SameIdentity(ps, ps);
      LobbiesKept(active, gs, ps, active - {chat}, gs, ps);
    }
  }

  /** Two updates of one stored game leave only the second (a proof step of `StartGame`, which writes the game three times). */
  lemma UpdateTwice(m: map<nat, Game>, k: nat, a: Game, b: Game)
    ensures m[k := a][k := b] == m[k := b]
  {
  }

  /** `random.shuffle`: some permutation of `s`, which one is left open. */
  method Shuffle<T(==)>(s: seq<T>) returns (r: seq<T>)
    ensures multiset(r) == multiset(s) && |r| == |s|
  {
    r :| multiset(r) == multiset(s);
    PermutationLength(r, s);
  }

  /** A permutation has the length of what it permutes. */
  lemma PermutationLength<T>(a: seq<T>, b: seq<T>)
    requires multiset(a) == multiset(b)
    ensures |a| == |b|
  {
    assert |a| == |multiset(a)|;
  }

  /** The row of a game whose mafia chat is now `chat`. */
  function WithChat(game: Game, chat: seq<nat>): Game
  {
    game.(mafiaChat := chat)
  }

  /** The row of a game whose status is now `status`. */
  function WithStatus(game: Game, status: GameStatus): Game
  {
    game.(status := status)
  }

  /** The row of a game moved to `phase`. */
  function WithPhase(game: Game, phase: GamePhase): Game
  {
    game.(phase := Some(phase))
  }

  /** The row of a game entering its next night: phase Night, night counter up by one. */
  function NextNight(game: Game): Game
  {
    game.(phase := Some(Night), nightCount := game.nightCount + 1)
  }

  /** The row `create_game` stores: a lobby without phase, at night 0, with an empty mafia chat. */
  function NewGame(chatId: int): Game
  {
    Game(chatId, Waiting, None, 0, [])
  }

  /** The games table after `create_game` deletes the game of `chatId`, if there is one. */
  function WithoutChat(gs: map<nat, Game>, chatId: int): (r: map<nat, Game>)
    ensures forall g :: g in r <==> g in gs && gs[g].chatId != chatId
    ensures forall g :: g in r ==> r[g] == gs[g]
  {
    map g | g in gs && gs[g].chatId != chatId :: gs[g]
  }

  /** One "killed" message per victim, naming them. */
  function KillNotices(ps: seq<Player>, victims: seq<nat>): (r: seq<Announcement>)
    requires forall k :: 0 <= k < |victims| ==> victims[k] < |ps|
    ensures |r| == |victims|
  {
    seq(|victims|, k requires 0 <= k < |victims| => PlayerKilled(ps[victims[k]].username))
  }

  /** The vote book of game `g`, empty when none exists yet. */
  function BookOf(books: map<nat, Votes.Book>, g: nat): Votes.Book
  {
    if g in books then books[g] else []
  }

  lemma KillNoticesSnoc(ps: seq<Player>, victims: seq<nat>, t: nat)
    requires forall k :: 0 <= k < |victims| ==> victims[k] < |ps|
    requires t < |ps|
    ensures KillNotices(ps, victims + [t]) == KillNotices(ps, victims) + [PlayerKilled(ps[t].username)]
  {
  }

  /**
   * The outcome of `process_night_actions` for night `night` of game `g`:
   * `after` is `before` with the night's victims marked dead, and `deaths`
   * names each victim once per Kill that took them.
   */
  predicate NightResolved(before: seq<Player>, acts: seq<Action>, g: nat, night: int,
                          after: seq<Player>, deaths: seq<Announcement>)
  {
    var tonight := Tonight(acts, g, night);
    var victims := KillVictims(tonight, ProtectedIds(tonight, |before|), |before|);
    after == AfterKills(before, victims) && deaths == KillNotices(before, victims)
  }

  /**
   * What a resolved night means for one player: only their liveness may
   * change, and they are alive afterwards exactly when they were alive and
   * no Kill of that night of that game targeted them unless a Heal or a
   * Protect of that night also did.
   */
  lemma NightOutcome(before: seq<Player>, acts: seq<Action>, g: nat, night: int,
                     after: seq<Player>, deaths: seq<Announcement>, t: nat)
    requires NightResolved(before, acts, g, night, after, deaths) && t < |before|
    ensures |after| == |before| && after[t] == before[t].(isAlive := after[t].isAlive)
    ensures after[t].isAlive
        <==> before[t].isAlive
             && ((exists a :: a in acts && a.gameId == g && a.nightNumber == night && a.kind == Kill && a.targetId == t)
                 ==> exists a :: a in acts && a.gameId == g && a.nightNumber == night && Shields(a) && a.targetId == t)
  {
    var tonight := Tonight(acts, g, night);
    DiesTonight(tonight, |before|, t);
  }

  /**
   * The outcome of `process_votes` for game `g` on `book`: with no counted
   * vote nothing changes and "no votes" is announced; otherwise the elected
   * player (`Votes.IsFirstMax` of the counted votes) is marked dead and
   * announced.
   */
  predicate VotedOut(before: seq<Player>, book: Votes.Book, g: nat,
                     after: seq<Player>, results: seq<Announcement>, eliminated: Option<nat>)
  {
    var counted := CountedTargets(book, before, g);
    && (eliminated.None? <==> counted == [])
    && (eliminated.None? ==> after == before && results == [NoVotes])
    && (eliminated.Some? ==>
          && Votes.IsFirstMax(counted, eliminated.value) && eliminated.value < |before|
          && after == before[eliminated.value := before[eliminated.value].(isAlive := false)]
          && results == [PlayerKilled(before[eliminated.value].username)])
  }

  /** The player voted out was a living player of the game, and no other player got as many counted votes. */
  lemma VotedOutMeaning(before: seq<Player>, book: Votes.Book, g: nat,
                        after: seq<Player>, results: seq<Announcement>, e: nat, other: nat)
    requires VotedOut(before, book, g, after, results, Some(e))
    ensures e < |before| && before[e].gameId == g && before[e].isAlive && !after[e].isAlive
    ensures other != e ==>
      Votes.Count(CountedTargets(book, before, g), other) <= Votes.Count(CountedTargets(book, before, g), e)
  {
    var counted := CountedTargets(book, before, g);
    var k := Votes.FirstIndex(counted, e);
    if other != e && other in counted {
      var j :| 0 <= j < |counted| && counted[j] == other;
    }
  }

  /** The tally's winner is a counted player, and voting them out is the outcome `VotedOut` describes. */
  lemma TallyVotesOut(before: seq<Player>, book: Votes.Book, g: nat, w: int)
    requires Votes.IsFirstMax(CountedTargets(book, before, g), w)
    ensures 0 <= w < |before|
    ensures VotedOut(before, book, g, before[w := before[w].(isAlive := false)], [PlayerKilled(before[w].username)], Some(w))
  {
    var counted := CountedTargets(book, before, g);
    var k :| 0 <= k < |counted| && counted[k] == w;
  }

  /** The tables stay well formed when a chat's game is replaced by a new lobby under the next id. */
  lemma CreateKeepsTables(gs: map<nat, Game>, active: map<int, nat>, ps: seq<Player>, next: nat, chatId: int)
    requires GamesWellFormed(gs, next) && ActiveWellFormed(active, gs) && PlayersWellFormed(ps, next)
    ensures var gs2 := WithoutChat(gs, chatId)[next := NewGame(chatId)];
      && GamesWellFormed(gs2, next + 1) && ActiveWellFormed(active[chatId := next], gs2)
      && PlayersWellFormed(ps, next + 1) && GamePlayerIds(ps, next) == []
  {
    var gs2 := WithoutChat(gs, chatId)[next := NewGame(chatId)];
    var a2 := active[chatId := next];
    forall c | c in a2
      ensures a2[c] in gs2 && gs2[a2[c]].chatId == c
    {
      if c != chatId {
        assert active[c] in WithoutChat(gs, chatId);
      }
    }
    NoPlayersInUnissuedGame(ps, next);
  }

  /** The new lobby has no players, and every other lobby keeps its game and its players. */
  lemma CreateKeepsLobbies(gs: map<nat, Game>, active: map<int, nat>, ps: seq<Player>, next: nat, chatId: int)
    requires GamesWellFormed(gs, next) && ActiveWellFormed(active, gs) && PlayersWellFormed(ps, next)
    requires LobbiesOpen(active, gs, ps)
    ensures var gs2 := WithoutChat(gs, chatId)[next := NewGame(chatId)];
      ActiveWellFormed(active[chatId := next], gs2) && LobbiesOpen(active[chatId := next], gs2, ps)
  {
    CreateKeepsTables(gs, active, ps, next, chatId);
    var gs2 := WithoutChat(gs, chatId)[next := NewGame(chatId)];
    var a2 := active[chatId := next];
    forall c | c in a2 && gs2[a2[c]].status == Waiting
      ensures |GamePlayerIds(ps, a2[c])| < Quorum
    {
      if c != chatId {
        assert a2[c] == active[c] && gs2[a2[c]] == gs[active[c]];
      }
    }
  }

  /** `after` is `before` with the k-th player of `ids` dealt `dealt[k]`, revived and unrevealed; nobody else changes. */
  predicate Dealt(before: seq<Player>, after: seq<Player>, ids: seq<nat>, dealt: seq<Role>)
  {
    |after| == |before| && |ids| <= |dealt|
    && (forall k :: 0 <= k < |ids| && ids[k] < |before| ==>
          after[ids[k]] == before[ids[k]].(role := Some(dealt[k]), isAlive := true, isRevealed := false))
    && (forall i :: 0 <= i < |before| && i !in ids ==> after[i] == before[i])
  }

  /**
   * The player table after `add_player`: an unknown Telegram user gets a
   * new row at the end; a known one keeps their row, which is moved to game
   * `g`, renamed, revived, stripped of its role and unrevealed when it is in
   * another game, and left as it is when it is in `g` already. No other row
   * changes.
   */
  function AddedPlayer(ps: seq<Player>, g: nat, tg: int, name: string): (r: seq<Player>)
    ensures var k := FindByTelegram(ps, tg);
      && |r| == (if k == |ps| then |ps| + 1 else |ps|)
      && r[k].telegramId == tg && r[k].gameId == g
      && (k == |ps| ==> r[k] == Player(k, tg, name, g, None, true, false))
      && (k < |ps| && ps[k].gameId == g ==> r[k] == ps[k])
      && (k < |ps| && ps[k].gameId != g ==> r[k].username == name && r[k].role == None && r[k].isAlive && !r[k].isRevealed)
      && forall i :: 0 <= i < |ps| && i != k ==> r[i] == ps[i]
  {
    var k := FindByTelegram(ps, tg);
    if k == |ps| then ps + [Player(k, tg, name, g, None, true, false)]
    else if ps[k].gameId == g then ps
    else ps[k := ps[k].(gameId := g, username := name, role := None, isAlive := true, isRevealed := false)]
  }

  class GameManager {
    var activeGames: map<int, nat>
    var playerVotes: map<nat, Votes.Book>
    const roleHandlers: Registry
    var games: map<nat, Game>
    var nextGameId: nat
    var players: seq<Player>
    var actions: seq<Action>

    ghost predicate Valid()
      reads this
    {
      PlayersWellFormed(players, nextGameId)
      && GamesWellFormed(games, nextGameId)
      && ActiveWellFormed(activeGames, games)
      && VotesWellFormed(playerVotes, nextGameId)
      && ActionsWellFormed(actions, nextGameId)
    }

    ghost predicate Open()
      reads this
      requires Valid()
    {
      LobbiesOpen(activeGames, games, players)
    }

    /** Every lobby but the one of `chatId` is open: the state `join_callback` leaves when a join fills that lobby. */
    ghost predicate OpenExcept(chatId: int)
      reads this
      requires Valid()
    {
      LobbiesOpenExcept(activeGames, games, players, chatId)
    }

    /**
     * The actor and the target a night action in chat `chatId` by Telegram
     * user `fromUser` on `targetText` names, as table positions: both must
     * be living players of the chat's game, which must be at night, and
     * `targetText` must parse as an integer.
     */
    ghost function NightParties(chatId: int, fromUser: int, targetText: string): (r: Option<(nat, nat)>)
      reads this
      requires Valid()
      ensures r.Some? ==> r.value.0 < |players| && r.value.1 < |players|
    {
      if chatId !in activeGames || games[activeGames[chatId]].phase != Some(Night) then None
      else
        var g := activeGames[chatId];
        var actor, t := FindLiving(players, g, fromUser), ParseInt(targetText);
        if actor.None? || t.None? then None
        else
          var target := FindLiving(players, g, t.value);
          if target.None? then None else Some((actor.value, target.value))
    }

    /** Whether that night action is recorded: the actor's role acts at night, its handler accepts the target, and `kindText` names an action type. */
    ghost predicate NightAccepted(chatId: int, fromUser: int, kindText: string, targetText: string)
      reads this, roleHandlers.doctor
      requires Valid()
    {
      var parties := NightParties(chatId, fromUser, targetText);
      && parties.Some?
      && var role := players[parties.value.0].role;
      && role.Some? && role.value != Civilian
      && roleHandlers.Accepts(role.value, players[parties.value.0], players[parties.value.1], activeGames[chatId])
      && ActionTypeOf(kindText).Some?
    }

    /** The row recorded for an accepted night action: the chat's game, actor, target, action type and the game's night. */
    ghost function NightRecord(chatId: int, fromUser: int, kindText: string, targetText: string): Action
      reads this, roleHandlers.doctor
      requires Valid() && NightAccepted(chatId, fromUser, kindText, targetText)
    {
      var g := activeGames[chatId];
      var parties := NightParties(chatId, fromUser, targetText).value;
      Action(g, parties.0, parties.1, ActionTypeOf(kindText).value, games[g].nightCount, true)
    }

    /**
     * The answer to a night action, in the order the handler checks: not at
     * night; a target text that is no integer (`int()` raises, and the
     * `except` answers `action_failed`); no living actor or target; a role
     * without a night action; a handler that refuses or an unknown action
     * type (`ActionType()` raises); otherwise success.
     */
    ghost function NightReply(chatId: int, fromUser: int, kindText: string, targetText: string): Reply
      reads this, roleHandlers.doctor
      requires Valid()
    {
      if chatId !in activeGames || games[activeGames[chatId]].phase != Some(Night) then NotNightPhase
      else if ParseInt(targetText).None? then ActionFailed
      else
        var parties := NightParties(chatId, fromUser, targetText);
        if parties.None? then PlayerNotFound
        else if NightActionFor(players[parties.value.0].role).None? then NoNightAction
        else if NightAccepted(chatId, fromUser, kindText, targetText) then ActionSuccessful
        else ActionFailed
    }

    /** The game and the voter of a vote in chat `chatId` by Telegram user `fromUser`: a living player of the chat's game, which must be voting. */
    ghost function Voter(chatId: int, fromUser: int): (r: Option<(nat, nat)>)
      reads this
      requires Valid()
      ensures r.Some? ==> chatId in activeGames && r.value.0 == activeGames[chatId] && r.value.1 < |players|
    {
      if chatId !in activeGames || games[activeGames[chatId]].phase != Some(Voting) then None
      else
        var g := activeGames[chatId];
        var v := FindLiving(players, g, fromUser);
        if v.None? then None else Some((g, v.value))
    }

    /** `GameManager()` over tables that already hold `ps`, `gs` and `acts`. */
    constructor (handlers: Registry, ps: seq<Player>, gs: map<nat, Game>, acts: seq<Action>, next: nat)
      requires PlayersWellFormed(ps, next) && GamesWellFormed(gs, next) && ActionsWellFormed(acts, next)
      ensures Valid() && Open()
      ensures activeGames == map[] && playerVotes == map[] && roleHandlers == handlers
      ensures players == ps && games == gs && actions == acts && nextGameId == next
    {
      activeGames := map[];
      playerVotes := map[];
      roleHandlers := handlers;
      games := gs;
      nextGameId := next;
      players := ps;
      actions := acts;
    }

    /**
     * `create_game`: deletes the chat's stored game, if any, stores a new
     * lobby under a fresh id and makes it the chat's active game. The new
     * game has no players, no votes and no actions.
     */
    method CreateGame(chatId: int) returns (gameId: nat)
      requires Valid()
      modifies this
      ensures Valid()
      ensures gameId == old(nextGameId) && nextGameId == gameId + 1
      ensures games == WithoutChat(old(games), chatId)[gameId := NewGame(chatId)]
      ensures activeGames == old(activeGames)[chatId := gameId]
      ensures GamePlayerIds(players, gameId) == [] && gameId !in playerVotes
      ensures forall i :: 0 <= i < |actions| ==> actions[i].gameId != gameId
      ensures players == old(players) && actions == old(actions) && playerVotes == old(playerVotes)
      ensures old(Open()) ==> Open()
    {
      CreateKeepsTables(games, activeGames, players, nextGameId, chatId);
      if Open() {
        CreateKeepsLobbies(games, activeGames, players, nextGameId, chatId);
      }
      gameId := nextGameId;
      games := WithoutChat(games, chatId)[gameId := NewGame(chatId)];
      nextGameId := nextGameId + 1;
      activeGames := activeGames[chatId := gameId];
    }

    /**
     * `add_player`: a Telegram user seen before keeps their row; if it is in
     * another game it moves to this one, renamed, alive, without a role and
     * unrevealed, and if it is already in this game nothing changes, not
     * even the name. An unknown user gets a new row. Either way the game
     * gains at most one player and no other game gains any.
     */
    method AddPlayer(gameId: nat, telegramId: int, username: string) returns (pid: nat)
      requires Valid() && gameId < nextGameId
      modifies this
      ensures Valid()
      ensures pid == FindByTelegram(old(players), telegramId)
      ensures players == AddedPlayer(old(players), gameId, telegramId, username)
      ensures pid < |players| && players[pid].telegramId == telegramId && players[pid].gameId == gameId
      ensures |GamePlayerIds(players, gameId)| <= |GamePlayerIds(old(players), gameId)| + 1
      ensures forall h :: h != gameId ==> |GamePlayerIds(players, h)| <= |GamePlayerIds(old(players), h)|
      ensures games == old(games) && activeGames == old(activeGames) && nextGameId == old(nextGameId)
      ensures actions == old(actions) && playerVotes == old(playerVotes)
    {
      var k := FindByTelegram(players, telegramId);
      pid := k;
      if k == |players| {
        var p := Player(k, telegramId, username, gameId, None, true, false);
        forall h ensures GamePlayerIds(players + [p], h) == GamePlayerIds(players, h) + (if h == gameId then [k] else []) {
          GamePlayerIdsSnoc(players, p, h);
        }
        players := players + [p];
      } else if players[k].gameId != gameId {
        var p := players[k].(gameId := gameId, username := username, role := None, isAlive := true, isRevealed := false);
        forall h
          ensures |GamePlayerIds(players[k := p], h)|
               == |GamePlayerIds(players, h)| - (if players[k].gameId == h then 1 else 0) + (if h == gameId then 1 else 0)
        {
          GamePlayerIdsUpdate(players, k, p, h);
        }
        players := players[k := p];
      }
    }
  

    /**
     * `assign_roles`: deals `DealRoles` of the game's player count in an
     * arbitrary order (`random.shuffle`) and hands the deal out as
     * `DealToPlayers` describes. Returns the Telegram id to role map, and
     * the shuffled deal as a ghost.
     */
    method AssignRoles(gameId: nat) returns (rolesDict: map<int, Role>, ghost dealt: seq<Role>)
      requires Valid() && gameId in games
      modifies this
      ensures Valid()
      ensures var ids := GamePlayerIds(old(players), gameId);
        && multiset(dealt) == multiset(DealRoles(|ids|))
        && |ids| <= |dealt|
        && players == DealOf(old(players), ids, dealt)
        && games == old(games)[gameId := WithChat(old(games)[gameId], ChatOf(old(games)[gameId].mafiaChat, ids, dealt))]
        && rolesDict == RolesMap(old(players), ids, dealt)
      ensures activeGames == old(activeGames) && nextGameId == old(nextGameId)
      ensures actions == old(actions) && playerVotes == old(playerVotes)
      ensures old(Open()) ==> Open()
    {
      var ids := GamePlayerIds(players, gameId);
      var after, chat;
      after, chat, rolesDict, dealt := ShuffleAndDeal(players, ids, games[gameId].mafiaChat);
      DealKeepsTables(activeGames, games, players, after, nextGameId, gameId, chat);
      players, games := after, games[gameId := WithChat(games[gameId], chat)];
    }

    /**
     * `start_game`: the chat's lobby becomes Active, its players are dealt
     * their roles (`AssignRoles`; the roles map is what the players are sent
     * privately) and the first night begins (`StartNightPhase`). Nothing
     * happens in a chat without a game. Starting the one full lobby reopens
     * every lobby.
     */
    method StartGame(chatId: int) returns (started: bool, rolesDict: map<int, Role>, prompts: seq<Prompt>,
                                           ghost dealt: seq<Role>)
      requires Valid()
      modifies this
      ensures Valid()
      ensures started <==> chatId in old(activeGames)
      ensures !started ==> games == old(games) && players == old(players) && rolesDict == map[] && prompts == []
      ensures started ==>
        var g := old(activeGames)[chatId];
        var ids := GamePlayerIds(old(players), g);
        && multiset(dealt) == multiset(DealRoles(|ids|)) && |ids| <= |dealt|
        && players == DealOf(old(players), ids, dealt)
        && rolesDict == RolesMap(old(players), ids, dealt)
        && games == old(games)[g := NextNight(WithChat(WithStatus(old(games)[g], Active),
                                                       ChatOf(old(games)[g].mafiaChat, ids, dealt)))]
        && prompts == NightPrompts(GamePlayers(players, g))
      ensures activeGames == old(activeGames) && actions == old(actions)
      ensures playerVotes == old(playerVotes) && nextGameId == old(nextGameId)
      ensures old(OpenExcept(chatId)) ==> Open()
    {
      if chatId !in activeGames {
        return false, map[], [], [];
      }
      started := true;
      var g := activeGames[chatId];
      var game := WithStatus(games[g], Active);
      if OpenExcept(chatId) {
        StartKeepsLobbies(activeGames, games, players, nextGameId, chatId, game);
      }
      GameUpdateKeepsTables(games, activeGames, players, nextGameId, g, game);
      ghost var gs0, ids := games, GamePlayerIds(players, g);
      games := games[g := game];
      rolesDict, dealt := AssignRoles(g);
      ghost var chat := ChatOf(game.mafiaChat, ids, dealt);
      UpdateTwice(gs0, g, game, WithChat(game, chat));
      prompts := StartNightPhase(chatId);
      UpdateTwice(gs0, g, WithChat(game, chat), NextNight(WithChat(game, chat)));
    }

    /**
     * The part of `handle_night_action` after the callback data is taken
     * apart into an action type text and a target text. In order: the
     * chat's game must be at night; the target text must be an integer;
     * actor and target must be living players of the game; the actor's role
     * must have a night action; its handler must accept the target (which
     * may change the handler, `Registry.NightActionHandler`); the action
     * type text must name an action type. Only then is the action recorded.
     */
    method SubmitNightAction(chatId: int, fromUser: int, kindText: string, targetText: string) returns (reply: Reply)
      requires Valid()
      modifies this, roleHandlers.doctor, roleHandlers.commissioner, roleHandlers.lawyer
      ensures Valid()
      ensures players == old(players) && games == old(games) && activeGames == old(activeGames)
      ensures playerVotes == old(playerVotes) && nextGameId == old(nextGameId)
      ensures reply == NotNightPhase <==> chatId !in activeGames || games[activeGames[chatId]].phase != Some(Night)
      ensures reply == old(NightReply(chatId, fromUser, kindText, targetText))
      ensures reply == ActionSuccessful <==> old(NightAccepted(chatId, fromUser, kindText, targetText))
      ensures actions == if reply == ActionSuccessful then old(actions) + [old(NightRecord(chatId, fromUser, kindText, targetText))]
                         else old(actions)
      ensures old(NightParties(chatId, fromUser, targetText)).None? ==>
        unchanged(roleHandlers.doctor, roleHandlers.commissioner, roleHandlers.lawyer)
      ensures old(NightParties(chatId, fromUser, targetText)).Some? ==>
        var (actor, target) := old(NightParties(chatId, fromUser, targetText)).value;
        var role := players[actor].role;
        && (role.None? || role == Some(Civilian) ==>
              reply == NoNightAction && unchanged(roleHandlers.doctor, roleHandlers.commissioner, roleHandlers.lawyer))
        && (role == Some(Doctor) ==> roleHandlers.doctor.lastTarget == Some(target))
        && (role != Some(Doctor) ==> roleHandlers.doctor.lastTarget == old(roleHandlers.doctor.lastTarget))
        && (role == Some(Commissioner) ==>
              roleHandlers.commissioner.nightCount == old(roleHandlers.commissioner.nightCount) + 1)
        && (role != Some(Commissioner) ==>
              roleHandlers.commissioner.nightCount == old(roleHandlers.commissioner.nightCount))
        && (role == Some(Lawyer) && IsMafiaAligned(players[target].role) ==>
              roleHandlers.lawyer.protectedPlayer == Some(target))
        && (role != Some(Lawyer) || !IsMafiaAligned(players[target].role) ==>
              roleHandlers.lawyer.protectedPlayer == old(roleHandlers.lawyer.protectedPlayer))
      ensures old(Open()) ==> Open()
    {
      if chatId !in activeGames || games[activeGames[chatId]].phase != Some(Night) {
        return NotNightPhase;
      }
      var g := activeGames[chatId];
      var actor := FindLiving(players, g, fromUser);
      var t := ParseInt(targetText);
      if t.None? {
        return ActionFailed;
      }
      var target := FindLiving(players, g, t.value);
      if actor.None? || target.None? {
        return PlayerNotFound;
      }
      var p, q := players[actor.value], players[target.value];
      if NightActionFor(p.role).None? {
        return NoNightAction;
      }
      var ok := roleHandlers.NightActionHandler(p.role.value, p, q, g);
      if !ok {
        return ActionFailed;
      }
      var kind := ActionTypeOf(kindText);
      if kind.None? {
        return ActionFailed;
      }
      actions := actions + [Action(g, p.id, q.id, kind.value, games[g].nightCount, ok)];
      reply := ActionSuccessful;
    }

    /**
     * `handle_night_action`, with the callback data taken apart as the
     * button data is laid out, `night_action_{type}_{target}`
     * (`ParseNightDataIntended`; the source's own three-field unpacking is
     * `Callbacks.ParseNightData`). Data of any other shape fails and
     * changes nothing.
     */
    method HandleNightAction(chatId: int, fromUser: int, data: string) returns (reply: Reply)
      requires Valid()
      modifies this, roleHandlers.doctor, roleHandlers.commissioner, roleHandlers.lawyer
      ensures Valid()
      ensures players == old(players) && games == old(games) && activeGames == old(activeGames)
      ensures playerVotes == old(playerVotes) && nextGameId == old(nextGameId)
      ensures ParseNightDataIntended(data).None? ==>
        reply == ActionFailed && actions == old(actions)
        && unchanged(roleHandlers.doctor, roleHandlers.commissioner, roleHandlers.lawyer)
      ensures ParseNightDataIntended(data).Some? ==>
        var (kindText, targetText) := ParseNightDataIntended(data).value;
        && (reply == NotNightPhase <==> chatId !in activeGames || games[activeGames[chatId]].phase != Some(Night))
        && reply == old(NightReply(chatId, fromUser, kindText, targetText))
        && (reply == ActionSuccessful <==> old(NightAccepted(chatId, fromUser, kindText, targetText)))
        && actions == if reply == ActionSuccessful then old(actions) + [old(NightRecord(chatId, fromUser, kindText, targetText))]
                      else old(actions)
      ensures ParseNightDataIntended(data).Some? ==>
        var (kindText, targetText) := ParseNightDataIntended(data).value;
        old(NightParties(chatId, fromUser, targetText)).None? ==>
          unchanged(roleHandlers.doctor, roleHandlers.commissioner, roleHandlers.lawyer)
      ensures ParseNightDataIntended(data).Some? ==>
        var (kindText, targetText) := ParseNightDataIntended(data).value;
        old(NightParties(chatId, fromUser, targetText)).Some? ==>
        var (actor, target) := old(NightParties(chatId, fromUser, targetText)).value;
        var role := players[actor].role;
        && (role.None? || role == Some(Civilian) ==>
              reply == NoNightAction && unchanged(roleHandlers.doctor, roleHandlers.commissioner, roleHandlers.lawyer))
        && (role == Some(Doctor) ==> roleHandlers.doctor.lastTarget == Some(target))
        && (role != Some(Doctor) ==> roleHandlers.doctor.lastTarget == old(roleHandlers.doctor.lastTarget))
        && (role == Some(Commissioner) ==>
              roleHandlers.commissioner.nightCount == old(roleHandlers.commissioner.nightCount) + 1)
        && (role != Some(Commissioner) ==>
              roleHandlers.commissioner.nightCount == old(roleHandlers.commissioner.nightCount))
        && (role == Some(Lawyer) && IsMafiaAligned(players[target].role) ==>
              roleHandlers.lawyer.protectedPlayer == Some(target))
        && (role != Some(Lawyer) || !IsMafiaAligned(players[target].role) ==>
              roleHandlers.lawyer.protectedPlayer == old(roleHandlers.lawyer.protectedPlayer))
      ensures old(Open()) ==> Open()
    {
      var parsed := ParseNightDataIntended(data);
      if parsed.None? {
        return ActionFailed;
      }
      reply := SubmitNightAction(chatId, fromUser, parsed.value.0, parsed.value.1);
    }

    /**
     * `handle_vote`: the data must be `vote_{target}`, the chat's game must
     * be voting (otherwise the answer is `Answer(MessageKeys, NotVotingPhase)`,
     * which is `ActionFailed`) and the voter a living player of it. The game's vote book is
     * then created if missing and, if the target text is an integer, the
     * voter's vote is set to it, replacing any earlier vote of theirs.
     */
    method HandleVote(chatId: int, fromUser: int, data: string) returns (reply: Reply)
      requires Valid()
      modifies this
      ensures Valid()
      ensures players == old(players) && games == old(games) && activeGames == old(activeGames)
      ensures actions == old(actions) && nextGameId == old(nextGameId)
      ensures ParseVoteData(data).None? ==> reply == ActionFailed && playerVotes == old(playerVotes)
      ensures ParseVoteData(data).Some? ==>
        && (chatId !in activeGames || games[activeGames[chatId]].phase != Some(Voting) ==>
              reply == Answer(MessageKeys, NotVotingPhase) == ActionFailed)
        && (old(Voter(chatId, fromUser)).None? ==>
              playerVotes == old(playerVotes)
              && (chatId in activeGames && games[activeGames[chatId]].phase == Some(Voting) ==> reply == PlayerNotFound))
      ensures ParseVoteData(data).Some? && old(Voter(chatId, fromUser)).Some? ==>
        var (g, v) := old(Voter(chatId, fromUser)).value;
        var t := ParseInt(ParseVoteData(data).value);
        && reply == (if t.Some? then ActionSuccessful else ActionFailed)
        && playerVotes == old(playerVotes)[g := if t.Some? then Votes.Put(BookOf(old(playerVotes), g), v, t.value)
                                                else BookOf(old(playerVotes), g)]
      ensures old(Open()) ==> Open()
    {
      var text := ParseVoteData(data);
      if text.None? {
        return ActionFailed;
      }
      if chatId !in activeGames || games[activeGames[chatId]].phase != Some(Voting) {
        NotVotingPhaseKeyMissing();
        return Answer(MessageKeys, NotVotingPhase);
      }
      var g := activeGames[chatId];
      var voter := FindLiving(players, g, fromUser);
      if voter.None? {
        return PlayerNotFound;
      }
      var book := BookOf(playerVotes, g);
      var t := ParseInt(text.value);
      reply := ActionFailed;
      if t.Some? {
        Votes.PutSpec(book, voter.value, t.value);
        book := Votes.Put(book, voter.value, t.value);
        reply := ActionSuccessful;
      }
      BookUpdateKeepsVotes(playerVotes, nextGameId, g, book);
      playerVotes := playerVotes[g := book];
    }

    /**
     * `process_night_actions`: resolves the night the game is at from the
     * recorded actions, as `NightResolved` describes. An unknown game id
     * ends in the error message and changes nothing.
     */
    method ProcessNightActions(gameId: nat) returns (messages: seq<Announcement>)
      requires Valid()
      modifies this
      ensures Valid()
      ensures gameId !in games ==> players == old(players) && messages == [NightError]
      ensures gameId in games ==> NightResolved(old(players), actions, gameId, games[gameId].nightCount, players, messages)
      ensures games == old(games) && activeGames == old(activeGames) && nextGameId == old(nextGameId)
      ensures actions == old(actions) && playerVotes == old(playerVotes)
      ensures old(Open()) ==> Open()
    {
      if gameId !in games {
        return [NightError];
      }
      var tonight := Tonight(actions, gameId, games[gameId].nightCount);
      var protected := ShieldPass(tonight, |players|);
      var after;
      after, messages := KillPass(players, tonight, protected);
      IdentityKeepsTables(activeGames, games, players, after, nextGameId);
      players := after;
    }

    /**
     * `start_night_phase`: the chat's game moves to the next night, and
     * every living player whose role has a night action is sent one button
     * per other living player of the game.
     */
    method StartNightPhase(chatId: int) returns (prompts: seq<Prompt>)
      requires Valid()
      modifies this
      ensures Valid()
      ensures chatId !in old(activeGames) ==> games == old(games) && prompts == []
      ensures chatId in old(activeGames) ==>
        var g := old(activeGames)[chatId];
        && games == old(games)[g := NextNight(old(games)[g])]
        && prompts == NightPrompts(GamePlayers(players, g))
      ensures activeGames == old(activeGames) && players == old(players) && actions == old(actions)
      ensures playerVotes == old(playerVotes) && nextGameId == old(nextGameId)
      ensures old(Open()) ==> Open()
    {
      if chatId !in activeGames {
        return [];
      }
      var g := activeGames[chatId];
      var game := NextNight(games[g]);
      GameUpdateKeepsTables(games, activeGames, players, nextGameId, g, game);
      games := games[g := game];
      prompts := NightPrompts(GamePlayers(players, g));
    }

    /**
     * `start_day_phase`: the chat's game moves to Day, the night is
     * resolved, and the game is closed (taken out of `activeGames`, its
     * status left as it is) once `check_game_end` declares a winner.
     */
    method StartDayPhase(chatId: int) returns (deaths: seq<Announcement>, end: GameEnd)
      requires Valid()
      modifies this
      ensures Valid()
      ensures chatId !in old(activeGames) ==>
        games == old(games) && players == old(players) && activeGames == old(activeGames) && deaths == [] && end == Continue
      ensures chatId in old(activeGames) ==>
        var g := old(activeGames)[chatId];
        && games == old(games)[g := WithPhase(old(games)[g], Day)]
        && NightResolved(old(players), actions, g, games[g].nightCount, players, deaths)
        && end == GameEndOf(players, g)
        && activeGames == if end == Continue then old(activeGames) else old(activeGames) - {chatId}
      ensures actions == old(actions) && playerVotes == old(playerVotes) && nextGameId == old(nextGameId)
      ensures old(Open()) ==> Open()
    {
      if chatId !in activeGames {
        return [], Continue;
      }
      var g := activeGames[chatId];
      var game := WithPhase(games[g], Day);
      GameUpdateKeepsTables(games, activeGames, players, nextGameId, g, game);
      games := games[g := game];
      deaths := ProcessNightActions(g);
      end := CloseIfOver(chatId);
    }

    /**
     * `check_game_end` on the chat's game, followed, once it declares a
     * winner, by `del self.active_games[chat_id]`: the step that ends both
     * the day and the vote. The game's status is left as it is.
     */
    method CloseIfOver(chatId: int) returns (end: GameEnd)
      requires Valid() && chatId in activeGames
      modifies this
      ensures Valid()
      ensures end == GameEndOf(players, old(activeGames)[chatId])
      ensures activeGames == if end == Continue then old(activeGames) else old(activeGames) - {chatId}
      ensures games == old(games) && players == old(players) && actions == old(actions)
      ensures playerVotes == old(playerVotes) && nextGameId == old(nextGameId)
      ensures old(Open()) ==> Open()
    {
      end := GameEndOf(players, activeGames[chatId]);
      if end != Continue {
        CloseKeepsLobbies(activeGames, games, players, chatId);
        activeGames := activeGames - {chatId};
      }
    }

    /**
     * `start_voting_phase`: the chat's game moves to Voting and the chat is
     * sent one button per living player of the game. Votes of earlier
     * rounds are kept.
     */
    method StartVotingPhase(chatId: int) returns (buttons: seq<string>)
      requires Valid()
      modifies this
      ensures Valid()
      ensures chatId !in old(activeGames) ==> games == old(games) && buttons == []
      ensures chatId in old(activeGames) ==>
        var g := old(activeGames)[chatId];
        && games == old(games)[g := WithPhase(old(games)[g], Voting)]
        && buttons == VoteButtons(GamePlayers(players, g))
      ensures activeGames == old(activeGames) && players == old(players) && actions == old(actions)
      ensures playerVotes == old(playerVotes) && nextGameId == old(nextGameId)
      ensures old(Open()) ==> Open()
    {
      if chatId !in activeGames {
        return [];
      }
      var g := activeGames[chatId];
      var game := WithPhase(games[g], Voting);
      GameUpdateKeepsTables(games, activeGames, players, nextGameId, g, game);
      games := games[g := game];
      buttons := VoteButtons(GamePlayers(players, g));
    }

    /**
     * `process_votes`: counts the game's vote book against the living
     * players of the game and marks the elected player dead, as `VotedOut`
     * describes; the elected player is returned as a ghost.
     */
    method ProcessVotes(gameId: nat) returns (results: seq<Announcement>, ghost eliminated: Option<nat>)
      requires Valid()
      modifies this
      ensures Valid()
      ensures VotedOut(old(players), BookOf(playerVotes, gameId), gameId, players, results, eliminated)
      ensures games == old(games) && activeGames == old(activeGames) && nextGameId == old(nextGameId)
      ensures actions == old(actions) && playerVotes == old(playerVotes)
      ensures old(Open()) ==> Open()
    {
      var after;
      after, results, eliminated := Elect(players, BookOf(playerVotes, gameId), gameId);
      IdentityKeepsTables(activeGames, games, players, after, nextGameId);
      players := after;
    }

    /**
     * `process_voting_phase`: the votes are processed; a game with a winner
     * is closed, any other moves on to the next night.
     */
    method ProcessVotingPhase(chatId: int) returns (results: seq<Announcement>, end: GameEnd, prompts: seq<Prompt>,
                                                    ghost eliminated: Option<nat>)
      requires Valid()
      modifies this
      ensures Valid()
      ensures chatId !in old(activeGames) ==>
        && games == old(games) && players == old(players) && activeGames == old(activeGames)
        && results == [] && end == Continue && prompts == []
      ensures chatId in old(activeGames) ==>
        var g := old(activeGames)[chatId];
        && VotedOut(old(players), BookOf(playerVotes, g), g, players, results, eliminated)
        && end == GameEndOf(players, g)
        && (end != Continue ==> activeGames == old(activeGames) - {chatId} && games == old(games) && prompts == [])
        && (end == Continue ==>
              && activeGames == old(activeGames)
              && games == old(games)[g := NextNight(old(games)[g])]
              && prompts == NightPrompts(GamePlayers(players, g)))
      ensures actions == old(actions) && playerVotes == old(playerVotes) && nextGameId == old(nextGameId)
      ensures old(Open()) ==> Open()
    {
      if chatId !in activeGames {
        return [], Continue, [], None;
      }
      var g := activeGames[chatId];
      ghost var gs0 := games;
      results, eliminated := ProcessVotes(g);
      end := CloseIfOver(chatId);
      if end != Continue {
        prompts := [];
      } else {
        assert games == gs0 && activeGames[chatId] == g;
        prompts := StartNightPhase(chatId);
        assert games == gs0[g := NextNight(gs0[g])];
      }
    }
  }

  /** The player table after the players of `ids` are dealt `dealt` in order: revived, unrevealed, with their role. */
  function DealOf(ps: seq<Player>, ids: seq<nat>, dealt: seq<Role>): (r: seq<Player>)
    requires forall k :: 0 <= k < |ids| ==> ids[k] < |ps|
    requires |ids| <= |dealt|
    ensures SameIdentity(ps, r)
  {
    if ids == [] then ps
    else
      var n := |ids| - 1;
      var q := DealOf(ps, ids[..n], dealt);
      q[ids[n] := q[ids[n]].(role := Some(dealt[n]), isAlive := true, isRevealed := false)]
  }

  /** Each dealt player holds their role and is alive and unrevealed; every other row is untouched. */
  lemma {:induction false} DealOfMeaning(ps: seq<Player>, ids: seq<nat>, dealt: seq<Role>)
    requires forall k :: 0 <= k < |ids| ==> ids[k] < |ps|
    requires forall a, b :: 0 <= a < b < |ids| ==> ids[a] < ids[b]
    requires |ids| <= |dealt|
    ensures Dealt(ps, DealOf(ps, ids, dealt), ids, dealt)
  {
    if ids != [] {
      var n := |ids| - 1;
      DealOfMeaning(ps, ids[..n], dealt);
      assert ids[n] !in ids[..n];
      assert ids == ids[..n] + [ids[n]];
    }
  }

  /** The mafia chat after the players of `ids` are dealt `dealt`: each Mafia or Don not yet in it is appended. */
  function ChatOf(chat0: seq<nat>, ids: seq<nat>, dealt: seq<Role>): (r: seq<nat>)
    requires |ids| <= |dealt| && NoDuplicates(chat0)
    ensures NoDuplicates(r) && chat0 <= r
  {
    if ids == [] then chat0
    else
      var n := |ids| - 1;
      var c := ChatOf(chat0, ids[..n], dealt);
      if IsMafiaAligned(Some(dealt[n])) && ids[n] !in c then c + [ids[n]] else c
  }

  /** A player is in the chat afterwards iff they were before or were dealt Mafia or Don. */
  lemma {:induction false} ChatOfMeaning(chat0: seq<nat>, ids: seq<nat>, dealt: seq<Role>, p: nat)
    requires |ids| <= |dealt| && NoDuplicates(chat0)
    ensures p in ChatOf(chat0, ids, dealt)
       <==> p in chat0 || exists k :: 0 <= k < |ids| && ids[k] == p && IsMafiaAligned(Some(dealt[k]))
  {
    if ids != [] {
      var n := |ids| - 1;
      ChatOfMeaning(chat0, ids[..n], dealt, p);
      if exists k :: 0 <= k < |ids| && ids[k] == p && IsMafiaAligned(Some(dealt[k])) {
        var k :| 0 <= k < |ids| && ids[k] == p && IsMafiaAligned(Some(dealt[k]));
        if k < n {
          assert ids[..n][k] == p;
        }
      }
      if exists k :: 0 <= k < n && ids[..n][k] == p && IsMafiaAligned(Some(dealt[k])) {
        var k :| 0 <= k < n && ids[..n][k] == p && IsMafiaAligned(Some(dealt[k]));
        assert ids[k] == p;
      }
    }
  }

  /** `roles_dict`: Telegram id to dealt role, for the players of `ids` in order. */
  function RolesMap(ps: seq<Player>, ids: seq<nat>, dealt: seq<Role>): map<int, Role>
    requires forall k :: 0 <= k < |ids| ==> ids[k] < |ps|
    requires |ids| <= |dealt|
  {
    if ids == [] then map[]
    else
      var n := |ids| - 1;
      RolesMap(ps, ids[..n], dealt)[ps[ids[n]].telegramId := dealt[n]]
  }

  /** With unique Telegram ids, the map sends the k-th dealt player's Telegram id to their role. */
  lemma {:induction false} RolesMapSends(ps: seq<Player>, ids: seq<nat>, dealt: seq<Role>, k: nat)
    requires forall i, j :: 0 <= i < j < |ps| ==> ps[i].telegramId != ps[j].telegramId
    requires forall k :: 0 <= k < |ids| ==> ids[k] < |ps|
    requires forall a, b :: 0 <= a < b < |ids| ==> ids[a] < ids[b]
    requires |ids| <= |dealt| && k < |ids|
    ensures ps[ids[k]].telegramId in RolesMap(ps, ids, dealt)
    ensures RolesMap(ps, ids, dealt)[ps[ids[k]].telegramId] == dealt[k]
  {
    var n := |ids| - 1;
    if k < n {
      RolesMapSends(ps, ids[..n], dealt, k);
      assert ids[k] < ids[n];
    }
  }

  /** The map holds the Telegram ids of the dealt players and nothing else. */
  lemma {:induction false} RolesMapOnlyDealt(ps: seq<Player>, ids: seq<nat>, dealt: seq<Role>, tg: int)
    requires forall k :: 0 <= k < |ids| ==> ids[k] < |ps|
    requires |ids| <= |dealt|
    ensures tg in RolesMap(ps, ids, dealt) <==> exists k :: 0 <= k < |ids| && ps[ids[k]].telegramId == tg
  {
    if ids != [] {
      var n := |ids| - 1;
      var init := ids[..n];
      RolesMapOnlyDealt(ps, init, dealt, tg);
      if exists k :: 0 <= k < n && ps[init[k]].telegramId == tg {
        var k :| 0 <= k < n && ps[init[k]].telegramId == tg;
        assert ps[ids[k]].telegramId == tg;
      }
      if exists k :: 0 <= k < |ids| && ps[ids[k]].telegramId == tg {
        var k :| 0 <= k < |ids| && ps[ids[k]].telegramId == tg;
        if k < n {
          assert init[k] == ids[k];
        }
      }
    }
  }

  /**
   * The count of `process_votes` on one vote book: the votes for living
   * players of the game are tallied, and among the targets with the highest
   * count the one whose first counted vote comes earliest is marked dead.
   */
  method Elect(before: seq<Player>, book: Votes.Book, g: nat)
    returns (after: seq<Player>, results: seq<Announcement>, ghost eliminated: Option<nat>)
    ensures VotedOut(before, book, g, after, results, eliminated)
    ensures SameIdentity(before, after)
  {
    var counted := CountedTargets(book, before, g);
    var winner, maxVotes := Votes.Tally(counted);
    if winner.None? {
      return before, [NoVotes], None;
    }
    TallyVotesOut(before, book, g, winner.value);
    var victim: nat := winner.value;
    after := before[victim := before[victim].(isAlive := false)];
    results := [PlayerKilled(before[victim].username)];
    eliminated := Some(victim);
  }

  /** The first pass of `process_night_actions`: collects the shielded existing players. */
  method ShieldPass(tonight: seq<Action>, n: nat) returns (protected: set<nat>)
    ensures protected == ProtectedIds(tonight, n)
  {
    protected := {};
    for i := 0 to |tonight|
      invariant protected == ProtectedIds(tonight[..i], n)
    {
      var a := tonight[i];
      ProtectedIdsSnoc(tonight[..i], a, n);
      assert tonight[..i + 1] == tonight[..i] + [a];
      if (a.kind == Heal || a.kind == Protect) && a.targetId < n {
        protected := protected + {a.targetId};
      }
    }
    assert tonight[..|tonight|] == tonight;
  }

  /** The second pass: marks the target of each unshielded Kill dead, with a message each time. */
  method KillPass(before: seq<Player>, tonight: seq<Action>, protected: set<nat>)
    returns (after: seq<Player>, messages: seq<Announcement>)
    ensures after == AfterKills(before, KillVictims(tonight, protected, |before|))
    ensures messages == KillNotices(before, KillVictims(tonight, protected, |before|))
  {
    var n := |before|;
    after := before;
    messages := [];
    for i := 0 to |tonight|
      invariant after == AfterKills(before, KillVictims(tonight[..i], protected, n))
      invariant messages == KillNotices(before, KillVictims(tonight[..i], protected, n))
    {
      var a := tonight[i];
      KillStep(before, tonight, i, protected);
      if a.kind == Kill && a.targetId < |after| && a.targetId !in protected {
        var name := after[a.targetId].username;
        after := after[a.targetId := after[a.targetId].(isAlive := false)];
        messages := messages + [PlayerKilled(name)];
      }
    }
    assert tonight[..|tonight|] == tonight;
  }

  /** One step of the second pass: the next action adds its target to the victims exactly when it `Kills`. */
  lemma KillStep(before: seq<Player>, tonight: seq<Action>, i: nat, protected: set<nat>)
    requires i < |tonight|
    ensures var n, a, v := |before|, tonight[i], KillVictims(tonight[..i], protected, |before|);
      var v2 := KillVictims(tonight[..i + 1], protected, n);
      var after := AfterKills(before, v);
      && |after| == n
      && (Kills(a, protected, n) ==>
            && AfterKills(before, v2) == after[a.targetId := after[a.targetId].(isAlive := false)]
            && KillNotices(before, v2) == KillNotices(before, v) + [PlayerKilled(after[a.targetId].username)])
      && (!Kills(a, protected, n) ==> v2 == v)
  {
    var n, a, v := |before|, tonight[i], KillVictims(tonight[..i], protected, |before|);
    KillVictimsSnoc(tonight[..i], a, protected, n);
    assert tonight[..i + 1] == tonight[..i] + [a];
    if Kills(a, protected, n) {
      AfterKillsSnoc(before, v, a.targetId);
      KillNoticesSnoc(before, v, a.targetId);
    }
  }

  /**
   * The body of `assign_roles` on values: `DealRoles` of the player count,
   * shuffled, then handed out by `DealToPlayers`.
   */
  method ShuffleAndDeal(before: seq<Player>, ids: seq<nat>, chat0: seq<nat>)
    returns (after: seq<Player>, chat: seq<nat>, rolesDict: map<int, Role>, ghost dealt: seq<Role>)
    requires forall k :: 0 <= k < |ids| ==> ids[k] < |before|
    requires NoDuplicates(chat0)
    ensures multiset(dealt) == multiset(DealRoles(|ids|)) && |ids| <= |dealt|
    ensures after == DealOf(before, ids, dealt)
    ensures chat == ChatOf(chat0, ids, dealt)
    ensures rolesDict == RolesMap(before, ids, dealt)
  {
    var roles := DealRoles(|ids|);
    var shuffled := Shuffle(roles);
    dealt := shuffled;
    after, chat, rolesDict := DealToPlayers(before, ids, shuffled, chat0);
  }

  /**
   * The loop of `assign_roles` over `zip(players, roles)`: the k-th player
   * of `ids` gets `dealt[k]`, is revived and unrevealed, is entered in the
   * roles map under their Telegram id, and joins the mafia chat if the role
   * is Mafia or Don and they are not in it yet.
   */
  method DealToPlayers(before: seq<Player>, ids: seq<nat>, dealt: seq<Role>, chat0: seq<nat>)
    returns (after: seq<Player>, chat: seq<nat>, rolesDict: map<int, Role>)
    requires forall k :: 0 <= k < |ids| ==> ids[k] < |before|
    requires |ids| <= |dealt| && NoDuplicates(chat0)
    ensures after == DealOf(before, ids, dealt)
    ensures chat == ChatOf(chat0, ids, dealt)
    ensures rolesDict == RolesMap(before, ids, dealt)
  {
    after := before;
    chat := chat0;
    rolesDict := map[];
    for k := 0 to |ids|
      invariant after == DealOf(before, ids[..k], dealt)
      invariant chat == ChatOf(chat0, ids[..k], dealt)
      invariant rolesDict == RolesMap(before, ids[..k], dealt)
    {
      var pid := ids[k];
      var role := dealt[k];
      assert ids[..k + 1][..k] == ids[..k];
      var tg := after[pid].telegramId;
      after := after[pid := after[pid].(role := Some(role), isAlive := true, isRevealed := false)];
      rolesDict := rolesDict[tg := role];
      if IsMafiaAligned(Some(role)) && pid !in chat {
        chat := chat + [pid];
      }
    }
    assert ids[..|ids|] == ids;
  }
}
