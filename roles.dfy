/**
 * The role handlers. Each handler names the night action its role may take
 * and decides whether one submitted action succeeds. The Mafia and Don
 * handlers are pure predicates; the Doctor, Commissioner and Lawyer handlers
 * are objects whose fields change on every call. The registry holds exactly
 * one instance of each, shared by every player and every game.
 */
module Roles {
  import opened Wrappers
  import opened Models

  /** The attributes every handler carries: its role, its night action (none in the base class) and its vote right. */
  datatype Handler = Handler(role: Role, nightAction: Option<ActionType>, canVote: bool)

  /** `RoleHandler.__init__`: no night action, may vote. */
  function BaseHandler(role: Role): Handler
  {
    Handler(role, None, true)
  }

  /** The night action each concrete handler class sets in its constructor. */
  function NightActionOf(role: Role): Option<ActionType>
  {
    match role
    case Mafia => Some(Kill)
    case Don => Some(Check)
    case Doctor => Some(Heal)
    case Commissioner => Some(Check)
    case Lawyer => Some(Protect)
    case Civilian => None
  }

  /**
   * `ROLE_HANDLERS.get(role)`: the table has an entry for every role but
   * Civilian, and every entry is the handler of its own role, with a night
   * action and the vote right inherited from the base class.
   */
  function LookupHandler(role: Option<Role>): (h: Option<Handler>)
    ensures h.Some? <==> role.Some? && role.value != Civilian
    ensures h.Some? ==> h.value.role == role.value && h.value.nightAction.Some? && h.value.canVote
    ensures h.Some? ==> (h.value.nightAction == Some(Kill) <==> role == Some(Mafia))
  {
    match role
    case None => None
    case Some(Civilian) => None
    case Some(r) => Some(BaseHandler(r).(nightAction := NightActionOf(r)))
  }

  /** `MafiaRole.night_action_handler`: a kill always succeeds here; protections are weighed at dawn. */
  predicate MafiaNightAction(actor: Player, target: Player, gameId: nat)
  {
    true
  }

  /** `DonRole.night_action_handler`: the Don's check succeeds on the Commissioner only. */
  predicate DonNightAction(actor: Player, target: Player, gameId: nat)
  {
    target.role == Some(Commissioner)
  }

  /** The Doctor's handler remembers the last player it healed, across all games. */
  class DoctorRole {
    var lastTarget: Option<nat>

    constructor ()
      ensures lastTarget == None
    {
      lastTarget := None;
    }

    /** A heal is accepted unless its target is the player healed last. */
    predicate Accepts(actor: Player, target: Player, gameId: nat)
      reads this
    {
      lastTarget != Some(target.id)
    }

    /** Healing the same player twice in a row fails and changes nothing; any other heal succeeds and is remembered. */
    method NightActionHandler(actor: Player, target: Player, gameId: nat) returns (ok: bool)
      modifies this
      ensures ok <==> old(Accepts(actor, target, gameId))
      ensures ok ==> lastTarget == Some(target.id)
      ensures !ok ==> lastTarget == old(lastTarget)
    {
      if lastTarget == Some(target.id) {
        return false;
      }
      lastTarget := Some(target.id);
      return true;
    }
  }

  /** The Commissioner's handler counts the checks made, across all games. */
  class CommissionerRole {
    var nightCount: nat

    constructor ()
      ensures nightCount == 0
    {
      nightCount := 0;
    }

    /** Every check is accepted. */
    predicate Accepts(actor: Player, target: Player, gameId: nat)
    {
      true
    }

    /** Every check succeeds and raises the counter by one. */
    method NightActionHandler(actor: Player, target: Player, gameId: nat) returns (ok: bool)
      modifies this
      ensures ok && Accepts(actor, target, gameId)
      ensures nightCount == old(nightCount) + 1
    {
      nightCount := nightCount + 1;
      return true;
    }

    /** `can_kill`: unlocked by the third check. Nothing in the game flow reads it. */
    predicate CanKill()
      reads this
    {
      nightCount >= 3
    }
  }

  /** The Lawyer's handler remembers the last mafia-aligned player it shielded, across all games. */
  class LawyerRole {
    var protectedPlayer: Option<nat>

    constructor ()
      ensures protectedPlayer == None
    {
      protectedPlayer := None;
    }

    /** A shield is accepted only on a Mafia or a Don. */
    predicate Accepts(actor: Player, target: Player, gameId: nat)
    {
      IsMafiaAligned(target.role)
    }

    /** Shielding succeeds, and is remembered, only on a Mafia or Don; otherwise nothing changes. */
    method NightActionHandler(actor: Player, target: Player, gameId: nat) returns (ok: bool)
      modifies this
      ensures ok <==> Accepts(actor, target, gameId)
      ensures ok ==> protectedPlayer == Some(target.id)
      ensures !ok ==> protectedPlayer == old(protectedPlayer)
    {
      if !IsMafiaAligned(target.role) {
        return false;
      }
      protectedPlayer := Some(target.id);
      return true;
    }
  }

  /** `ROLE_HANDLERS`: one handler object per role, built once and shared. */
  class Registry {
    const doctor: DoctorRole
    const commissioner: CommissionerRole
    const lawyer: LawyerRole

    constructor ()
      ensures fresh(doctor) && fresh(commissioner) && fresh(lawyer)
      ensures doctor.lastTarget == None && commissioner.nightCount == 0 && lawyer.protectedPlayer == None
    {
      doctor := new DoctorRole();
      commissioner := new CommissionerRole();
      lawyer := new LawyerRole();
    }

    /** Whether the handler of `role` accepts the action now; only the Doctor's verdict depends on handler state. */
    predicate Accepts(role: Role, actor: Player, target: Player, gameId: nat)
      reads doctor
    {
      match role
      case Civilian => false
      case Mafia => MafiaNightAction(actor, target, gameId)
      case Don => DonNightAction(actor, target, gameId)
      case Doctor => doctor.Accepts(actor, target, gameId)
      case Commissioner => commissioner.Accepts(actor, target, gameId)
      case Lawyer => lawyer.Accepts(actor, target, gameId)
    }

    /**
     * `role_handler.night_action_handler(player, target, game_id)` for the
     * handler of `role`. The outcome never depends on the actor or the game;
     * only the handler of `role` may change, and only its own field.
     */
    method NightActionHandler(role: Role, actor: Player, target: Player, gameId: nat) returns (ok: bool)
      requires role != Civilian
      modifies doctor, commissioner, lawyer
      ensures ok == old(Accepts(role, actor, target, gameId))
      ensures role == Doctor ==> doctor.lastTarget == Some(target.id)
      ensures role == Commissioner ==> commissioner.nightCount == old(commissioner.nightCount) + 1
      ensures role == Lawyer && ok ==> lawyer.protectedPlayer == Some(target.id)
      ensures role != Doctor ==> doctor.lastTarget == old(doctor.lastTarget)
      ensures role != Commissioner ==> commissioner.nightCount == old(commissioner.nightCount)
      ensures role != Lawyer || !ok ==> lawyer.protectedPlayer == old(lawyer.protectedPlayer)
    {
      match role
      case Mafia => ok := MafiaNightAction(actor, target, gameId);
      case Don => ok := DonNightAction(actor, target, gameId);
      case Doctor => ok := doctor.NightActionHandler(actor, target, gameId);
      case Commissioner => ok := commissioner.NightActionHandler(actor, target, gameId);
      case Lawyer => ok := lawyer.NightActionHandler(actor, target, gameId);
    }
  }

  /**
   * The Doctor rule on one fresh handler: healing A, then A again, fails the
   * second time; healing A, B, A succeeds every time.
   */
  method DoctorHealSequence(actor: Player, a: Player, b: Player, gameId: nat)
    returns (first: bool, again: bool, other: bool, back: bool)
    requires a.id != b.id
    ensures first && !again && other && back
  {
    var doctor := new DoctorRole();
    first := doctor.NightActionHandler(actor, a, gameId);
    again := doctor.NightActionHandler(actor, a, gameId);
    other := doctor.NightActionHandler(actor, b, gameId);
    back := doctor.NightActionHandler(actor, a, gameId);
  }

  /** The Commissioner's counter unlocks `can_kill` on the third check and not before. */
  method CommissionerUnlocksAfterThreeChecks(actor: Player, target: Player, gameId: nat)
    returns (afterTwo: bool, afterThree: bool)
    ensures !afterTwo && afterThree
  {
    var commissioner := new CommissionerRole();
    var ok := commissioner.NightActionHandler(actor, target, gameId);
    ok := commissioner.NightActionHandler(actor, target, gameId);
    afterTwo := commissioner.CanKill();
    ok := commissioner.NightActionHandler(actor, target, gameId);
    afterThree := commissioner.CanKill();
  }
}
