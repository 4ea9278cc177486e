/**
 * The game snapshot returned by the game server's view-game query, already
 * parsed, and the resolution of the player who has to move next
 * (terramonitor.py, `get_player_name` and the first-match scan over
 * `action_required` in `main`).
 */
module Game {
  import opened Optional

  /** The `type` of an action item: the scan only distinguishes `full` and `faction`. */
  datatype ActionType = FullMove | FactionPick | OtherAction

  /** One entry of `action_required`; `faction` and `player` may be JSON null. */
  datatype ActionItem = ActionItem(kind: ActionType, faction: Option<string>, player: Option<string>)

  /**
   * A parsed server response: the `error` list, `metadata.aborted` and
   * `metadata.finished` (integers, nonzero meaning true), the ordered
   * `action_required` list and the faction-to-username map.
   */
  datatype Snapshot = Snapshot(
    errors: seq<string>,
    aborted: int,
    finished: int,
    actionRequired: seq<ActionItem>,
    factions: map<string, string>)

  /** Username of the player holding `faction`; None for a null or unknown faction. */
  function PlayerName(snap: Snapshot, faction: Option<string>): (r: Option<string>)
    ensures r.Some? <==> faction.Some? && faction.value in snap.factions
    ensures r.Some? ==> r.value == snap.factions[faction.value]
  {
    match faction
    case None => None
    case Some(f) => if f in snap.factions then Some(snap.factions[f]) else None
  }

  /** An item that stops the scan: a full move or a faction pick. */
  predicate Decisive(item: ActionItem) {
    item.kind == FullMove || item.kind == FactionPick
  }

  /** Index of the first decisive item, if there is one. */
  function FirstDecisive(items: seq<ActionItem>): (r: Option<nat>)
    ensures r.Some? ==> r.value < |items| && Decisive(items[r.value])
    ensures r.Some? ==> forall j :: 0 <= j < r.value ==> !Decisive(items[j])
    ensures r.None? ==> forall j :: 0 <= j < |items| ==> !Decisive(items[j])
  {
    if items == [] then None
    else if Decisive(items[0]) then Some(0)
    else match FirstDecisive(items[1..])
      case None => None
      case Some(k) => Some(k + 1)
  }

  /** The mover a decisive item names: the faction's user for `full`, the item's player for `faction`. */
  function ItemMover(snap: Snapshot, item: ActionItem): Option<string>
    requires Decisive(item)
  {
    if item.kind == FullMove then PlayerName(snap, item.faction) else item.player
  }

  /** The mover named by the first item's faction, used when no item is decisive. */
  function DefaultMover(snap: Snapshot): Option<string>
    requires |snap.actionRequired| > 0
  {
    PlayerName(snap, snap.actionRequired[0].faction)
  }

  /** Who has to move: the first decisive item in list order wins, otherwise the default. */
  function Mover(snap: Snapshot): (r: Option<string>)
    requires |snap.actionRequired| > 0
    ensures r.Some? ==>
      || r.value in snap.factions.Values
      || exists i :: 0 <= i < |snap.actionRequired| && snap.actionRequired[i].kind == FactionPick && snap.actionRequired[i].player == r
  {
    match FirstDecisive(snap.actionRequired)
    case Some(k) => ItemMover(snap, snap.actionRequired[k])
    case None => DefaultMover(snap)
  }

  /** The scan of `main`, with the loop and the early `break` of the source. */
  method ResolveMover(snap: Snapshot) returns (player: Option<string>)
    requires |snap.actionRequired| > 0
    ensures player == Mover(snap)
  {
    var items := snap.actionRequired;
    var faction := items[0].faction;
    player := None;
    if faction.Some? {
      player := PlayerName(snap, faction);
    }
    var i := 0;
    while i < |items|
      invariant 0 <= i <= |items|
      invariant forall j :: 0 <= j < i ==> !Decisive(items[j])
      invariant player == DefaultMover(snap)
    {
      var item := items[i];
      if item.kind == FullMove {
        player := PlayerName(snap, item.faction);
        break;
      } else if item.kind == FactionPick {
        player := item.player;
        break;
      }
      i := i + 1;
    }
  }

  /** Exactly the item that is decisive with no decisive item before it decides the mover. */
  lemma FirstMatchWins(snap: Snapshot, k: nat)
    requires k < |snap.actionRequired| && Decisive(snap.actionRequired[k])
    requires forall j :: 0 <= j < k ==> !Decisive(snap.actionRequired[j])
    ensures Mover(snap) == ItemMover(snap, snap.actionRequired[k])
  {
  }

  /** With no full or faction item, the mover is the first item's faction's user (None if null or unknown). */
  lemma NoMatchUsesFirstFaction(snap: Snapshot)
    requires |snap.actionRequired| > 0
    requires forall j :: 0 <= j < |snap.actionRequired| ==> !Decisive(snap.actionRequired[j])
    ensures Mover(snap) == PlayerName(snap, snap.actionRequired[0].faction)
    ensures snap.actionRequired[0].faction.None? ==> Mover(snap).None?
  {
  }

  /** Appending items after a decisive one leaves the first decisive index where it was. */
  lemma {:induction false} FirstDecisiveIgnoresTail(items: seq<ActionItem>, extra: seq<ActionItem>)
    requires FirstDecisive(items).Some?
    ensures FirstDecisive(items + extra) == FirstDecisive(items)
  {
    assert items != [];
    assert (items + extra)[0] == items[0];
    if !Decisive(items[0]) {
      assert (items + extra)[1..] == items[1..] + extra;
      FirstDecisiveIgnoresTail(items[1..], extra);
    }
  }

  /** Once some item is decisive, whatever follows it in the list does not matter. */
  lemma LaterItemsIgnored(snap: Snapshot, extra: seq<ActionItem>)
    requires |snap.actionRequired| > 0 && FirstDecisive(snap.actionRequired).Some?
    ensures Mover(snap.(actionRequired := snap.actionRequired + extra)) == Mover(snap)
  {
    var items := snap.actionRequired;
    FirstDecisiveIgnoresTail(items, extra);
    var k := FirstDecisive(items).value;
    assert (items + extra)[k] == items[k];
  }

  /** A faction pick listed before a full move wins: [faction X, full A] resolves to X. */
  lemma FactionPickBeforeFullMove(snap: Snapshot, x: string, a: string)
    requires snap.actionRequired == [ActionItem(FactionPick, None, Some(x)), ActionItem(FullMove, Some(a), None)]
    ensures Mover(snap) == Some(x)
  {
  }

  /** A single full move resolves through the factions map: faction A of user Bob gives Bob. */
  lemma FullMoveLooksUpUsername(snap: Snapshot)
    requires snap.actionRequired == [ActionItem(FullMove, Some("A"), None)]
    requires snap.factions == map["A" := "Bob"]
    ensures Mover(snap) == Some("Bob")
  {
  }
}
