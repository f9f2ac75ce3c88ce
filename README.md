# Mafia game sessions, in Dafny

This project models the session logic of a Telegram bot that runs the party
game Mafia in group chats, and proves properties of that model.

- **Lobby.** `/start` opens a lobby in a chat. Players press Join until four have joined, and then the game starts.
- **Deal.** Roles come from a fixed deal (Mafia, Don, Doctor, Commissioner, Lawyer, Civilian), shuffled.
- **Phases.** The game cycles Night → Day → Voting → Night.
  - At night, players with a night role press buttons naming a target. The role handlers accept or refuse each action. At dawn, Heals and Protects shield their targets and every other Kill target dies.
  - In the vote, only votes naming a living player of the game count, and the target with the highest count is voted out. Ties go to the target whose first counted vote came earliest in the vote book. Votes never expire: the book is never cleared, and a vote by a player who has since died still counts.
- **End.** After each night and each vote, the game ends with a town win when no Mafia or Don is alive. It ends with a mafia win when they are at least as many as everyone else alive.

The model has these modules:

- `Manager` (`manager.dfy`): the `GameManager` object as a class.
  - Its dictionaries (`activeGames`, `playerVotes`) are fields.
  - So are the database tables it reads and writes: `players` is a sequence indexed by player id, `games` is a map by game id, `actions` is a sequence, and `nextGameId` is the autoincrement counter.
  - Every operation is a method over those fields.
  - The two resolution loops of the night and the role-dealing loop are methods. They are proved against specification functions (`Night`, `DealOf`, `ChatOf`, `RolesMap`).
  - The class invariant `Valid()` says the tables are consistent. `Open()` says every lobby still waiting has fewer than four players.
- `Roles`: the role handlers.
  - Mafia and Don are predicates.
  - Doctor, Commissioner and Lawyer are classes whose fields change on every call.
  - `Registry` is the shared table of one handler per role.
- `Deal`: the role list before shuffling, built with Python's slice-assignment semantics.
- `Night`: the two passes of night resolution.
- `Votes`: vote books (insertion-ordered dictionaries) and the tally.
- `Roster`: the player-table queries, and `check_game_end`.
- `Prompts`: the night and vote keyboards.
- `Callbacks`: the button data and its parsing.
- `Text`: `split`, `join`, `str` and `int`.
- `Utils`: the helper module.
- `Bot`: the `/start` and Join handlers.
- `Models`, `Wrappers`: the records and `Option`.

## Model

| member | source | states |
|---|---|---|
| Models.ActionTypeOfValue | game_manager.py:224 | `ActionType(s)` gives a member exactly when `s` is that member's value |
| Text.IntRoundTrip | game_manager.py:202 | `int(str(n)) == n` for every integer `n` |
| Text.SplitJoin | utils.py:17 | splitting a `"\n".join` of separator-free parts gives back exactly those parts |
| Text.JoinSplit | game_manager.py:183 | joining the fields of `split(sep)` with `sep` gives back the string |
| Callbacks.NightData | game_manager.py:352 | every night button's data starts with `night_action_`, the pattern that routes it to the night handler (bot.py line 81) |
| Callbacks.NightDataNeverParses | game_manager.py:183 | the data of every night button (`night_action_{type}_{id}`) fails the handler's three-field unpacking |
| Callbacks.RoutedNightDataNamesNoAction | game_manager.py:183-224 | any data routed to the night handler either fails the unpacking, or yields `action` as the action type, which names no `ActionType` |
| Callbacks.NightDataRoundTrip | game_manager.py:352 | the four-field unpacking of a night button gives back its action value and its target, and both convert back |
| Callbacks.VoteDataRoundTrip | game_manager.py:241 | `vote_{id}` unpacks into two fields, and the second converts back to `id` |
| Deal.SliceAssign | game_manager.py:96-97 | `s[lo:hi] = t` keeps the part before `lo`, puts `t` at `lo`, keeps the part from `hi` on, and appends when `lo` is past the end |
| Deal.DealRoles | game_manager.py:92-100 | the deal holds `max(N, 3)` roles |
| Deal.DealShape | game_manager.py:93-100 | from 3 players on, the slot order is `max(1, N//3) - 1` Mafia, Don, Doctor, Commissioner, Lawyer iff N ≥ 8, then civilians |
| Deal.DealBelowThree | game_manager.py:95-97 | below 3 players the slice assignments grow the list to Don, Doctor, Commissioner |
| Deal.DealCounts | game_manager.py:92-100 | from 3 players on: N roles, exactly one Don, `max(1, N//3) - 1` Mafia, one Doctor, one Commissioner, one Lawyer iff N ≥ 8, civilians for the rest |
| Deal.DealOfFour | game_manager.py:92-100 | four players are dealt Don, Doctor, Commissioner, Civilian |
| Deal.NoMafiaBelowSix | game_manager.py:93-96 | below six players no plain Mafia, the only role with Kill, is dealt |
| Roles.LookupHandler | roles.py:65-71 | `ROLE_HANDLERS.get` has an entry for every role but Civilian; each entry is its own role's handler, with a night action and the vote right; Kill belongs to Mafia alone |
| Roles.DoctorRole.constructor | roles.py:29-32 | a new Doctor handler remembers no target |
| Roles.DoctorRole.NightActionHandler | roles.py:34-38 | fails, changing nothing, iff the target is the last one healed; otherwise succeeds and remembers the target |
| Roles.CommissionerRole.constructor | roles.py:41-44 | a new Commissioner handler has made no check |
| Roles.CommissionerRole.NightActionHandler | roles.py:46-48 | always succeeds and raises the counter by exactly one |
| Roles.LawyerRole.constructor | roles.py:54-57 | a new Lawyer handler shields nobody |
| Roles.LawyerRole.NightActionHandler | roles.py:59-63 | succeeds iff the target is Mafia or Don, and then remembers them; otherwise changes nothing |
| Roles.Registry.constructor | roles.py:65-71 | one fresh handler object per stateful role, each in its initial state |
| Roles.Registry.NightActionHandler | roles.py:17-63 | the result is the role's rule (Mafia always; Don iff the target is the Commissioner; Doctor, Commissioner, Lawyer as above); only the handler of the acting role changes |
| Roles.DoctorHealSequence | roles.py:34-38 | on a fresh handler, healing A then A fails the second time, and healing A, B, A succeeds each time |
| Roles.CommissionerUnlocksAfterThreeChecks | roles.py:46-51 | `can_kill` is false after two checks and true after three |
| Utils.GetAlivePlayers | utils.py:4-5 | exactly the living players, never more than were given |
| Utils.AlivePlayersOfConcat | utils.py:4-5 | the filter distributes over concatenation, so it keeps the original order |
| Utils.GetMafiaMembers | utils.py:7-8 | exactly the living Mafia and Don players |
| Utils.MafiaMembersOfConcat | utils.py:7-8 | the filter distributes over concatenation, so it keeps the table order |
| Utils.MafiaMembersAmongAlive | utils.py:7-8 | the mafia members are the mafia members of the living players, so never more than the living |
| Utils.FormatPlayerList | utils.py:10-17 | the text is empty iff the list is |
| Utils.FormatPlayerListLines | utils.py:10-17 | the text has one line per player, in order, the i-th reading `"{i}. {name}"`, plus `" ({role})"` only when roles are shown and the player has one |
| Utils.FindById | utils.py:31 | the first player with the id, or none when no player has it |
| Utils.CalculateVotes | utils.py:19-34 | every vote counts; no votes give no player and 0; otherwise the first target with the most votes is elected, the count is its count, and the player is the first with that id, or none |
| Votes.PutSpec | game_manager.py:265 | after a vote the voter maps to the new target, every other voter keeps their vote, and a new voter goes last |
| Votes.LastVoteCounts | game_manager.py:265 | a second vote by the same voter replaces the first and keeps the voter's place |
| Votes.Dedup | utils.py:20-22 | the count dictionary's keys are the distinct targets, once each, in order of first vote |
| Votes.CountVotes | utils.py:20-22 | the counting loop builds, for each distinct target in first-vote order, its number of votes |
| Votes.FirstArgMax | utils.py:28 | `max(..., key=...)` returns the first position holding the largest count |
| Votes.FirstMaxIsUnique | game_manager.py:294 | at most one target is the first with the largest count |
| Votes.Tally | game_manager.py:290-294 | no winner iff no votes; otherwise the winner is the first target with the largest count, and that count is returned |
| Roster.GamePlayerIds | game_manager.py:90 | the ids of the game's players, ascending |
| Roster.GamePlayerIdsComplete | game_manager.py:90 | every player of the game is listed |
| Roster.GamePlayers | game_manager.py:342 | `game.players` holds exactly the rows of the game |
| Roster.FindByTelegram | game_manager.py:57 | the first row with the Telegram id, or none |
| Roster.FindLiving | game_manager.py:194-198 | a living player of the game with the Telegram id, and none iff there is no such player |
| Roster.GameEndOf | game_manager.py:158-175 | town wins iff no Mafia or Don lives; mafia wins iff they are alive and at least as many as the other living players; otherwise the game goes on, and then at least three players live |
| Roster.EmptyGameIsTownWin | game_manager.py:170-171 | a game without living players is a win for the town |
| Roster.CountedTargets | game_manager.py:281-288 | only votes for living players of the game are counted |
| Roster.CountedTargetsComplete | game_manager.py:281-288 | every vote for a living player of the game is counted, for that player |
| Roster.CountedTargetsCount | game_manager.py:281-288 | every vote counts once: a player occurs among the counted targets exactly as often as book entries name them as a living player of the game, so `vote_counts[target.id]` is that number |
| Night.Tonight | game_manager.py:127-130 | only the actions of this game and this night are considered |
| Night.KillVictims | game_manager.py:142-146 | every victim exists and is not shielded |
| Night.KillVictimsMeaning | game_manager.py:142-146 | a player is a victim iff they exist, are not shielded, and some Kill targets them |
| Night.KillVictimsCount | game_manager.py:142-148 | a player is a victim once per unshielded Kill on them, so two Kills on one target give two deaths and two messages |
| Night.DiesTonight | game_manager.py:136-147 | an existing player dies iff some Kill targets them and no Heal or Protect does, whatever the order of the actions |
| Night.AfterKills | game_manager.py:147 | only victims change, and only their `is_alive` |
| Prompts.NightActionFor | game_manager.py:346-347 | a player gets a night keyboard iff they hold a role other than Civilian |
| Prompts.TargetsOf | game_manager.py:348 | the targets are exactly the living players other than the actor |
| Prompts.Actors | game_manager.py:342-347 | keyboards go exactly to the living players whose role has a night action |
| Prompts.NightPrompts | game_manager.py:342-362 | one keyboard per such player, in roster order |
| Prompts.NightButtonsRefused | game_manager.py:352 | every night button the game sends reaches the night handler and is refused by its unpacking |
| Prompts.NightButtonsIntended | game_manager.py:348-352 | under the four-field unpacking, each button names its role's action and a living target other than the actor |
| Prompts.VoteButtons | game_manager.py:409-416 | one vote button per living player |
| Prompts.VoteButtonsParse | game_manager.py:413 | every vote button parses back to the Telegram id of a living player |
| Manager.WithoutChat | game_manager.py:28-32 | the chat's earlier game is deleted and every other game is kept |
| Manager.Shuffle | game_manager.py:102 | `random.shuffle` yields some permutation |
| Manager.ShuffleAndDeal | game_manager.py:92-113 | the dealt list is a permutation of `DealRoles(N)`, and the players, the mafia chat and the roles map are as `DealOf`, `ChatOf` and `RolesMap` say |
| Manager.DealToPlayers | game_manager.py:104-113 | the loop over `zip(players, roles)` leaves the tables `DealOf`, `ChatOf` and `RolesMap` describe |
| Manager.DealOfMeaning | game_manager.py:105-108 | each dealt player holds their role and is alive and unrevealed; every other row is untouched |
| Manager.ChatOf | game_manager.py:111-113 | the mafia chat never holds a player twice and only grows |
| Manager.ChatOfMeaning | game_manager.py:111-113 | a player is in the mafia chat afterwards iff they were before or were dealt Mafia or Don |
| Manager.RolesMapSends | game_manager.py:109 | the roles map sends each dealt player's Telegram id to their role |
| Manager.RolesMapOnlyDealt | game_manager.py:109 | the roles map holds the Telegram ids of the dealt players and nothing else |
| Manager.ShieldPass | game_manager.py:136-140 | the first pass collects exactly the existing players targeted by a Heal or Protect |
| Manager.KillPass | game_manager.py:142-148 | the second pass marks dead, and announces once per Kill, exactly the victims `KillVictims` names |
| Manager.NightOutcome | game_manager.py:136-148 | after the night a player is alive iff they were alive and any Kill of that night on them is matched by a Heal or Protect; nothing else about them changes |
| Manager.Elect | game_manager.py:280-304 | the tally over the counted votes marks the winner dead, or changes nothing and announces no votes |
| Manager.TallyVotesOut | game_manager.py:293-304 | the tally's winner is a counted player, and voting them out is the vote's outcome |
| Manager.VotedOutMeaning | game_manager.py:290-301 | the player voted out was a living player of the game, is now dead, and nobody got more counted votes |
| Manager.GameManager.constructor | game_manager.py:16-19 | a fresh manager has no active games and no vote books |
| Manager.GameManager.NightParties | game_manager.py:188-208 | actor and target of a night action are rows of the player table |
| Manager.GameManager.Voter | game_manager.py:246-260 | a voter exists only in a chat whose game is voting, and is a row of the player table |
| Manager.GameManager.CreateGame | game_manager.py:22-46 | the chat's earlier game is deleted; a new lobby (Waiting, no phase, night 0, no players, no votes, no actions) is stored under a fresh id and becomes the chat's active game; all lobbies stay open |
| Manager.AddedPlayer | game_manager.py:52-79 | the table after a join: an unknown user is appended alive and unrevealed; a player of this game is left as is; a player of another game is moved here, renamed, revived, unrevealed and stripped of their role; no other row changes |
| Manager.GameManager.AddPlayer | game_manager.py:52-79 | the new table is `AddedPlayer` of the old one and the returned id is the user's row; only this game can grow, by one at most; games, chats, actions and votes are unchanged |
| Manager.GameManager.AssignRoles | game_manager.py:85-117 | the game's players are dealt a permutation of `DealRoles(N)` as `DealOf` says; the mafia chat grows as `ChatOf` says; the roles map is `RolesMap`; nothing else changes |
| Manager.GameManager.StartGame | game_manager.py:311-331 | a chat with a game has it set Active, dealt, and moved to its first night, and gets one night keyboard per actor; a chat without a game changes nothing; starting the one full lobby leaves every lobby open |
| Manager.GameManager.SubmitNightAction | game_manager.py:188-231 | not night iff no game or not at night; an action is recorded (with the game's night and a true result) iff it is night, actor and target are living players of the game, the actor's role acts at night, its handler accepts, and the type text names an action type; the answer is `NightReply`: `not_night_phase`, then `action_failed` for a non-integer target, `player_not_found` for a missing actor or target, `no_night_action`, and `action_failed` for a refusing handler or an unknown type; only the acting role's handler changes |
| Manager.GameManager.HandleNightAction | game_manager.py:180-235 | data not of the button's shape fails and changes nothing; otherwise, on its type and target fields, the same answer and effects as `SubmitNightAction`: the answer `NightReply` with each failure's own reply, `not_night_phase` exactly outside the night, success exactly when accepted, the action recorded only then, and each shared handler's new state |
| Manager.GameManager.HandleVote | game_manager.py:238-270 | a vote is recorded only in the voting phase from a living player of the game, replacing the voter's earlier vote; malformed data records nothing and answers `action_failed`; a missing voter answers `player_not_found`; a living voter's non-integer target records nothing and answers `action_failed`; outside the voting phase the answer is `action_failed`, because the `not_voting_phase` message is missing |
| Manager.Answer | game_manager.py:246-248 | a reply is sent as itself when its message key exists, and as `action_failed` otherwise, as the handler's `except` does |
| Manager.NotVotingPhaseKeyMissing | game_manager.py:248 | the message table lacks `not_voting_phase`, so that reply comes out as `action_failed`, while every other reply comes out as itself |
| Manager.AnswersWithVotingKey | game_manager.py:248 | with the `not_voting_phase` message added, every reply comes out as itself |
| Manager.GameManager.ProcessNightActions | game_manager.py:122-155 | the players after the night are `AfterKills` of that night's victims, with one death message per lethal Kill; an unknown game gives the error message and changes nothing |
| Manager.GameManager.StartNightPhase | game_manager.py:333-373 | the game's phase becomes Night and its night counter rises by exactly one; each living player whose role acts at night gets one button per other living player |
| Manager.GameManager.StartDayPhase | game_manager.py:375-401 | the phase becomes Day, the night is resolved, and the chat leaves `active_games` iff `check_game_end` declares a winner |
| Manager.GameManager.CloseIfOver | game_manager.py:385-390 | the outcome is `check_game_end`'s, and the chat leaves `active_games` iff it declares a winner |
| Manager.GameManager.StartVotingPhase | game_manager.py:403-431 | the phase becomes Voting, one button per living player is posted, and earlier votes are kept |
| Manager.GameManager.ProcessVotes | game_manager.py:272-309 | the vote's outcome is as `VotedOut` describes, and no other table changes |
| Manager.GameManager.ProcessVotingPhase | game_manager.py:433-452 | the votes are processed; a game with a winner leaves `active_games` and no night starts; otherwise the next night starts |
| Bot.StartCommand | bot.py:28-40 | the chat's game is replaced by a new, empty lobby under the next game id, shown as 0 of 4 players; the chat's earlier games are dropped, other games, players, actions and votes are unchanged |
| Bot.JoinCallback | bot.py:42-69 | actions, votes and the id counter never change; outside a waiting lobby nothing changes; otherwise the table after the join is `AddedPlayer` of the old one; the fourth join starts the game (`StartedFrom`): it alone moves to its first night as Active, with the dealt Mafia members as its chat, its membership is kept, and the table after the join is dealt (`DealtFour`: `DealOf`, `RolesMap`) a shuffle of Don, Doctor, Commissioner and a civilian, so each of the four holds one of those roles, is alive, and none is Mafia; any other join shows the count, below 4 |
| Bot.StartedFromJoin | game_manager.py:311-338 | what `start_game` does to a lobby of 4 is `StartedFrom`: the deal of `DealtFour`, the same members, the game alone made Active and moved to the night, its night count up by one, with its new mafia chat, and the night prompts of its players |
| Bot.StartedWithoutMafia | game_manager.py:102-109 | handing a shuffle of the four-player deal to a full lobby gives `DealtFour`: the new table and the roles map are `DealOf` and `RolesMap` of the joined table, and the four cards are exactly Don, Doctor, Commissioner and Civilian |
| Bot.FourDealtNoMafia | game_manager.py:105-108 | each of four players dealt a shuffle of Don, Doctor, Commissioner and Civilian holds their card and is alive, and none of them is plain Mafia |
| Bot.JoinFillsOnlyThisLobby | bot.py:55-59 | a join fills at most the one lobby it joins, to at most 4 players |
| Bot.JoinKeepsLobbiesOpen | bot.py:61-66 | a join that leaves its lobby below 4 keeps every lobby below 4 |

## Left out

- Telegram is not modelled. Messages, keyboards, `query.answer`, handler registration and the private role messages become returned values (`Announcement`, `Reply`, `Prompt`, button data, `Bot.Lobby`, `Bot.JoinOutcome`) or are dropped. The wording of messages is not modelled.
- The SQLAlchemy session is not modelled.
  - The in-memory game object and its database row are treated as one.
  - `game.players` is always read from the current player table.
  - Commits and refreshes are not modelled.
  - Row ids are table positions.
  - The tables a manager starts from are constructor parameters.
- The phase timers (`job_queue.run_once`) are not modelled. Each transition is a method anyone may call at any time.
- Logging is not modelled.
- The catch-all `except` branches are not modelled: their error strings and the failure of a send. Two exceptions change a handler's answer, and both are modelled: the night handler's unpacking, as a parse that can fail (`Callbacks.ParseNightData`), and the vote handler's lookup of the missing `not_voting_phase` message (`Manager.Answer`). The message table also lacks `game_start_failed`, used in `start_game`'s `except` (game_manager.py:331); that send is not modelled.
- Manager.GameManager.AddPlayer: requires the game id to have been issued. The source would store any id, and the database's foreign key decides.
- Manager.GameManager.AssignRoles: requires the game to exist. The source reads it without checking, and fails only when it deals a Mafia or a Don.
- Manager.GameManager.ProcessVotes: the "error counting votes" answer is not modelled. It cannot happen, because the elected id is always a living player of the game.
- Manager.GameManager.HandleNightAction: uses the four-field unpacking the buttons call for. With the source's three-field unpacking no button ever records an action (see Findings). `Manager.GameManager.SubmitNightAction` is everything after the unpacking, exactly as written.
- Text.ParseInt: accepts only an optional sign followed by ASCII digits. Python's `int()` also accepts surrounding whitespace, `_` between digits and non-ASCII Unicode decimal digits. Callback data the game made itself always comes from `str()`, but a client can send crafted data, and for such data the model answers `ActionFailed` where Python might parse a number.
- Bot.JoinCallback: the `error_joining` branch is not modelled, because `AddPlayer` cannot fail here.
- `CommissionerRole.can_kill` is modelled as `Roles.CommissionerRole.CanKill`. Nothing in the game reads it.
- The shuffle is "some permutation". Randomness and uniformity are not modelled.
- Where the documented design and the code differ, the model follows the code:
  - Votes are never cleared between rounds.
  - A Kill on an already dead player kills them again and announces it again.
  - A finished game keeps status Active and only leaves `active_games`.
  - The quorum is the hard-coded 4, and the mafia share is the hard-coded `max(1, N//3)`.
  - There is always a Don; there is a Lawyer from 8 players on; nothing else is dealt.
- Configuration, the texts of the localized message table and the database setup are not part of this model; of the message table only its set of keys is modelled (`Manager.MessageKeys`).

## Findings

| source | as written | input that shows it | evidently intended | confidence | as-written member | corrected member |
|---|---|---|---|---|---|---|
| game_manager.py:183 | `_, action_type, target_telegram_id = query.data.split('_')` unpacks three fields, but the night buttons carry `night_action_{type}_{id}`, four fields (game_manager.py:352) | `night_action_heal_42`: `split('_')` gives 4 fields, so the unpacking raises `ValueError` and the action is never recorded | `_, _, action_type, target_telegram_id = ...`, recovering `heal` and `42` | high, not executed | Callbacks.NightDataNeverParses | Callbacks.NightDataRoundTrip |
| game_manager.py:248 | `query.answer(MESSAGES['not_voting_phase'])`, but messages.py has no such key, so the `KeyError` is caught and answered with `action_failed` (game_manager.py:268-270) | `vote_42` pressed in a chat whose game is at night: the answer is `action_failed` | answer `not_voting_phase`, with that message added to the table | high, not executed | Manager.NotVotingPhaseKeyMissing | Manager.AnswersWithVotingKey |

`Manager.GameManager.HandleVote` keeps the second row's behaviour as written: it answers `Answer(MessageKeys, NotVotingPhase)`, which is `action_failed`. With the key added to `MessageKeys`, `Manager.AnswersWithVotingKey` shows the same call answers `not_voting_phase`.
