/**
 * The inline keyboards the phase transitions send: the night-action buttons
 * `start_night_phase` sends each living player whose role has a night
 * action, and the vote buttons `start_voting_phase` posts to the chat. A
 * button is its callback data; the label is left out.
 */
module Prompts {
  import opened Wrappers
  import opened Models
  import opened Text
  import opened Roles
  import opened Callbacks
  import opened Utils

  /** A private message with one button per callback-data string. */
  datatype Prompt = Prompt(recipient: int, buttons: seq<string>)

  /** The night action the role handler table gives `role`, if any. */
  function NightActionFor(role: Option<Role>): (a: Option<ActionType>)
    ensures a.Some? <==> role.Some? && role.value != Civilian
  {
    var h := LookupHandler(role);
    if h.Some? then h.value.nightAction else None
  }

  /** The players `p` may target at night: the living players of the game other than `p` itself, in roster order. */
  function TargetsOf(roster: seq<Player>, p: Player): (r: seq<Player>)
    ensures forall q :: q in r <==> q in roster && q.isAlive && q.telegramId != p.telegramId
    ensures |r| <= |roster|
  {
    if roster == [] then []
    else
      (if roster[0].isAlive && roster[0].telegramId != p.telegramId then [roster[0]] else [])
      + TargetsOf(roster[1..], p)
  }

  /** The players who are sent a night keyboard: alive, and holding a role with a night action. */
  function Actors(roster: seq<Player>): (r: seq<Player>)
    ensures forall p :: p in r <==> p in roster && p.isAlive && NightActionFor(p.role).Some?
  {
    if roster == [] then []
    else
      (if roster[0].isAlive && NightActionFor(roster[0].role).Some? then [roster[0]] else [])
      + Actors(roster[1..])
  }

  function NightButtons(roster: seq<Player>, p: Player, a: ActionType): (bs: seq<string>)
    ensures |bs| == |TargetsOf(roster, p)|
  {
    var ts := TargetsOf(roster, p);
    seq(|ts|, j requires 0 <= j < |ts| => NightData(a, ts[j].telegramId))
  }

  /** The night keyboards of one night, one per actor in roster order. */
  function NightPrompts(roster: seq<Player>): (r: seq<Prompt>)
    ensures |r| == |Actors(roster)|
    ensures forall k :: 0 <= k < |r| ==> r[k].recipient == Actors(roster)[k].telegramId
  {
    var actors := Actors(roster);
    seq(|actors|, k requires 0 <= k < |actors| =>
      Prompt(actors[k].telegramId, NightButtons(roster, actors[k], NightActionFor(actors[k].role).value)))
  }

  /**
   * Every night button is routed to the night-action handler (its data
   * starts with `night_action_`) and is refused by that handler's
   * three-field unpacking.
   */
  lemma NightButtonsRefused(roster: seq<Player>)
    ensures forall k, j :: 0 <= k < |NightPrompts(roster)| && 0 <= j < |NightPrompts(roster)[k].buttons| ==>
      "night_action_" <= NightPrompts(roster)[k].buttons[j] && ParseNightData(NightPrompts(roster)[k].buttons[j]) == None
  {
    var r := NightPrompts(roster);
    forall k, j | 0 <= k < |r| && 0 <= j < |r[k].buttons|
      ensures "night_action_" <= r[k].buttons[j] && ParseNightData(r[k].buttons[j]) == None
    {
      NightButtonRefused(roster, k, j);
    }
  }

  /** One night button: the data of the k-th actor's j-th target, which the unpacking refuses. */
  lemma NightButtonRefused(roster: seq<Player>, k: nat, j: nat)
    requires k < |NightPrompts(roster)| && j < |NightPrompts(roster)[k].buttons|
    ensures "night_action_" <= NightPrompts(roster)[k].buttons[j]
    ensures ParseNightData(NightPrompts(roster)[k].buttons[j]) == None
  {
    var p := Actors(roster)[k];
    var a := NightActionFor(p.role).value;
    var t := TargetsOf(roster, p)[j].telegramId;
    assert NightPrompts(roster)[k].buttons == NightButtons(roster, p, a);
    var data := NightData(a, t);
    assert NightPrompts(roster)[k].buttons[j] == data;
    NightDataNeverParses(a, t);
  }

  /** With the intended four-field unpacking each button names its role's action and its target. */
  lemma NightButtonsIntended(roster: seq<Player>, k: nat, j: nat)
    requires k < |NightPrompts(roster)| && j < |NightPrompts(roster)[k].buttons|
    ensures var p := Actors(roster)[k];
            var t := TargetsOf(roster, p)[j];
            var parsed := ParseNightDataIntended(NightPrompts(roster)[k].buttons[j]);
      && parsed.Some?
      && ActionTypeOf(parsed.value.0) == NightActionFor(p.role)
      && ParseInt(parsed.value.1) == Some(t.telegramId)
      && t.isAlive && t.telegramId != p.telegramId
  {
    var p := Actors(roster)[k];
    var t := TargetsOf(roster, p)[j];
    assert t in TargetsOf(roster, p);
    NightDataRoundTrip(NightActionFor(p.role).value, t.telegramId);
  }

  /** The vote keyboard: one button per living player of the game. */
  function VoteButtons(roster: seq<Player>): (bs: seq<string>)
    ensures |bs| == |GetAlivePlayers(roster)|
  {
    var alive := GetAlivePlayers(roster);
    seq(|alive|, j requires 0 <= j < |alive| => VoteData(alive[j].telegramId))
  }

  /** Every vote button parses, in the vote handler, back to the Telegram id of a living player. */
  lemma VoteButtonsParse(roster: seq<Player>, j: nat)
    requires j < |VoteButtons(roster)|
    ensures var p := GetAlivePlayers(roster)[j];
            var parsed := ParseVoteData(VoteButtons(roster)[j]);
      && parsed.Some? && ParseInt(parsed.value) == Some(p.telegramId)
      && p in roster && p.isAlive
  {
    var p := GetAlivePlayers(roster)[j];
    assert p in GetAlivePlayers(roster);
    VoteDataRoundTrip(p.telegramId);
  }
}
