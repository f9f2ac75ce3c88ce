/**
 * The callback data carried by the inline buttons the game manager sends,
 * and the way its handlers take that data apart with `data.split('_')`.
 * Night buttons carry four `_`-separated fields but the night handler
 * unpacks exactly three, so no night button the game sends can ever be
 * parsed; vote buttons carry two fields and the vote handler unpacks two.
 */
module Callbacks {
  import opened Wrappers
  import opened Models
  import opened Text

  /** The data of the button offering `target` to a player whose role acts with `action`: `night_action_{value}_{id}`. */
  function NightData(action: ActionType, target: int): (data: string)
    ensures "night_action_" <= data
  {
    "night_action_" + ActionValue(action) + "_" + IntToString(target)
  }

  /** The data of the button offering `target` in the vote: `vote_{id}`. */
  function VoteData(target: int): string
  {
    "vote_" + IntToString(target)
  }

  /**
   * The night handler's unpacking `_, action_type, target_telegram_id =
   * data.split('_')`: the second and third field when there are exactly
   * three, `None` where Python raises `ValueError`.
   */
  function ParseNightData(data: string): Option<(string, string)>
  {
    var parts := Split(data, '_');
    if |parts| == 3 then Some((parts[1], parts[2])) else None
  }

  /** The intended unpacking of the same data, `_, _, action_type, target_telegram_id = data.split('_')`. */
  function ParseNightDataIntended(data: string): Option<(string, string)>
  {
    var parts := Split(data, '_');
    if |parts| == 4 then Some((parts[2], parts[3])) else None
  }

  /** The vote handler's unpacking `_, target_telegram_id = data.split('_')`. */
  function ParseVoteData(data: string): Option<string>
  {
    var parts := Split(data, '_');
    if |parts| == 2 then Some(parts[1]) else None
  }

  lemma NoUnderscoreInValue(a: ActionType)
    ensures '_' !in ActionValue(a)
  {
    match a
    case Kill =>
    case Heal =>
    case Check =>
    case Protect =>
    case Vote =>
  }

  lemma NoUnderscoreInInt(n: int)
    ensures '_' !in IntToString(n)
  {
    var s := IntToString(n);
    assert forall i :: 0 <= i < |s| ==> s[i] != '_';
  }

  /** Data that starts like every night button splits into `night`, `action` and the fields of the rest. */
  lemma SplitNightPrefix(rest: string)
    ensures Split("night_action_" + rest, '_') == ["night", "action"] + Split(rest, '_')
  {
    assert "night_action_" + rest == "night" + ['_'] + ("action" + ['_'] + rest);
    SplitAfterField("night", '_', "action" + ['_'] + rest);
    SplitAfterField("action", '_', rest);
  }

  /** The four fields of a night button. */
  lemma SplitNightData(a: ActionType, t: int)
    ensures Split(NightData(a, t), '_') == ["night", "action", ActionValue(a), IntToString(t)]
  {
    var v, n := ActionValue(a), IntToString(t);
    NoUnderscoreInValue(a);
    NoUnderscoreInInt(t);
    assert NightData(a, t) == "night_action_" + (v + ['_'] + n);
    SplitNightPrefix(v + ['_'] + n);
    SplitAfterField(v, '_', n);
    SplitWithoutSep(n, '_');
  }

  /** No night button the game sends survives the night handler's unpacking. */
  lemma NightDataNeverParses(a: ActionType, t: int)
    ensures ParseNightData(NightData(a, t)) == None
  {
    SplitNightData(a, t);
  }

  /**
   * Whatever data reaches the night handler (its route admits only data
   * starting with `night_action_`), either the unpacking fails or the field
   * taken as the action type is `action`, which names no action type.
   */
  lemma RoutedNightDataNamesNoAction(data: string)
    requires "night_action_" <= data
    ensures ParseNightData(data).Some? ==> ActionTypeOf(ParseNightData(data).value.0) == None
  {
    var rest := data[|"night_action_"|..];
    assert data == "night_action_" + rest;
    SplitNightPrefix(rest);
  }

  /** The intended unpacking gives back the action type and the target of every night button. */
  lemma NightDataRoundTrip(a: ActionType, t: int)
    ensures ParseNightDataIntended(NightData(a, t)) == Some((ActionValue(a), IntToString(t)))
    ensures ActionTypeOf(ActionValue(a)) == Some(a)
    ensures ParseInt(IntToString(t)) == Some(t)
  {
    SplitNightData(a, t);
    ActionTypeOfValue(ActionValue(a), a);
    IntRoundTrip(t);
  }

  /** The vote handler gives back the target of every vote button. */
  lemma VoteDataRoundTrip(t: int)
    ensures ParseVoteData(VoteData(t)) == Some(IntToString(t))
    ensures ParseInt(IntToString(t)) == Some(t)
  {
    NoUnderscoreInInt(t);
    assert VoteData(t) == "vote" + ['_'] + IntToString(t);
    SplitAfterField("vote", '_', IntToString(t));
    SplitWithoutSep(IntToString(t), '_');
    IntRoundTrip(t);
  }
}
