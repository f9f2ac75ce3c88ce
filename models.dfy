/**
 * The enumerations and plain fields of the bot's records: `Role`,
 * `ActionType`, `GameStatus`, `GamePhase`, and the columns of `Player`,
 * `Game` and `Action` that the game logic reads or writes.
 */
module Models {
  import opened Wrappers

  datatype Role = Civilian | Mafia | Don | Doctor | Commissioner | Lawyer

  /** `Role.value` */
  function RoleValue(r: Role): string
  {
    match r
    case Civilian => "civilian"
    case Mafia => "mafia"
    case Don => "don"
    case Doctor => "doctor"
    case Commissioner => "commissioner"
    case Lawyer => "lawyer"
  }

  datatype ActionType = Kill | Heal | Check | Protect | Vote

  /** `ActionType.value` */
  function ActionValue(a: ActionType): string
  {
    match a
    case Kill => "kill"
    case Heal => "heal"
    case Check => "check"
    case Protect => "protect"
    case Vote => "vote"
  }

  /** `ActionType(s)`: the member whose value is `s`, `None` where Python raises `ValueError`. */
  function ActionTypeOf(s: string): Option<ActionType>
  {
    if s == "kill" then Some(Kill)
    else if s == "heal" then Some(Heal)
    else if s == "check" then Some(Check)
    else if s == "protect" then Some(Protect)
    else if s == "vote" then Some(Vote)
    else None
  }

  /** Looking a value up gives exactly the member that carries it. */
  lemma ActionTypeOfValue(s: string, a: ActionType)
    ensures ActionTypeOf(s) == Some(a) <==> s == ActionValue(a)
  {
    match a
    case Kill =>
    case Heal =>
    case Check =>
    case Protect =>
    case Vote =>
  }

  datatype GameStatus = Waiting | Active | Finished

  datatype GamePhase = Night | Day | Voting

  /**
   * A row of the players table. `id` is the database key, `telegramId` the
   * user's stable external identity (unique), `gameId` the game the player
   * currently belongs to.
   */
  datatype Player = Player(
    id: nat,
    telegramId: int,
    username: string,
    gameId: nat,
    role: Option<Role>,
    isAlive: bool,
    isRevealed: bool)

  /** A row of the games table; the players relationship is the players whose `gameId` is this game's. */
  datatype Game = Game(
    chatId: int,
    status: GameStatus,
    phase: Option<GamePhase>,
    nightCount: int,
    mafiaChat: seq<nat>)

  /** A recorded night action. */
  datatype Action = Action(
    gameId: nat,
    playerId: nat,
    targetId: nat,
    kind: ActionType,
    nightNumber: int,
    result: bool)

  /** `role in [Role.MAFIA, Role.DON]` */
  predicate IsMafiaAligned(r: Option<Role>)
  {
    r == Some(Mafia) || r == Some(Don)
  }

  predicate NoDuplicates<T(==)>(s: seq<T>)
  {
    forall i, j :: 0 <= i < j < |s| ==> s[i] != s[j]
  }
}
