# terramonitor, modelled in Dafny

terramonitor watches one Terra Mystica game on the snellman.net game server.
Every five seconds it rereads its configuration, fetches the game, and compares
the answer with four loop variables. These are `previous_game`,
`previous_player`, `previous_move_time` and `previous_notified_over`. It posts a
chat message when the game ends, and another when a different player has to
move.

This project models one pass of that loop and the messages it sends:

- `optional.dfy` (`Optional`): `Option`, standing for Python's `None` / JSON `null`.
- `game.dfy` (`Game`): the parsed server answer (`Snapshot`, `ActionItem`).
  It also holds `get_player_name` (`PlayerName`) and the first-match scan over
  `action_required`. That scan appears twice: as a specification (`Mover`, via
  `FirstDecisive`) and as the source's loop with its `break`s (`ResolveMover`).
- `notify.dfy` (`Notify`): the notices the loop decides to send (`Notice`) and
  the `echo` text of `notify_to_move` and `notify_game_over`. It also has a
  reader (`Parse`) that takes an echo text back apart. The round trip
  `EchoParses` proves that every text carries exactly its notice's fields. In
  particular, the "took … mins" clause appears exactly when there is a
  previous player.
- `monitor.dfy` (`TerraMonitor`): the loop variables as a value
  (`MonitorState`). `Step` specifies one cycle and `Run` specifies a finite
  sequence of cycles. The lemmas state what a cycle and a run promise. The
  class `Monitor` holds the same four variables as mutable fields. Its `Cycle`
  method is the loop body, with the source's early exits, proved equal to
  `Step`. Its `Loop` method repeats `Cycle` over a finite list of polls.

The time of a cycle is an integer parameter `now`, in seconds. A cycle's
notifications are returned values, not network posts.

A remembered player always comes with a remembered time. The invariant
`Consistent` / `Monitor.Valid` states this, and every cycle preserves it.
`notify_to_move` depends on it: when a previous player is shown, it divides the
elapsed time by 60, which would fail on a missing time. Every notice the model
sends is therefore `WellFormed`, so its text can be produced.

## Model

| member | source | states |
|---|---|---|
| Game.PlayerName | terramonitor.py:107-113 | the username is present exactly when the faction is non-null and a key of the factions map, and it is that key's username |
| Game.Mover | terramonitor.py:74-88 | the resolved mover, when there is one, is a username from the factions map or the `player` of a `faction` item in the list |
| Game.FirstDecisive | terramonitor.py:79-88 | the index found holds a `full` or `faction` item and no earlier item is one; None means no item is one |
| Game.ResolveMover | terramonitor.py:74-88 | the scan with its `break`s returns the specified mover `Mover`: the first `full`/`faction` item wins, otherwise the first item's faction's user |
| Game.FirstMatchWins | terramonitor.py:79-88 | the `full` or `faction` item with no such item before it decides the mover: a `full` item gives its faction's user, a `faction` item its `player` |
| Game.NoMatchUsesFirstFaction | terramonitor.py:74-77 | with no `full` or `faction` item the mover is the first item's faction's username, and None when that faction is null |
| Game.LaterItemsIgnored | terramonitor.py:79-88 | items after the first `full`/`faction` item never change the mover |
| Game.FactionPickBeforeFullMove | terramonitor.py:79-88 | [faction pick by X, full move of A] resolves to X: list order, not type, decides |
| Game.FullMoveLooksUpUsername | terramonitor.py:80-81 | a single full move of faction A, with A held by Bob, resolves to Bob |
| Notify.Show | terramonitor.py:119 | a mover is written as its name, and a missing one as the word `None`, as Python's `format` does |
| Notify.ToMoveEcho | terramonitor.py:117-124 | the text opens with the game name; with no previous player "next turn" follows it directly, otherwise the previous player's "took <minutes>" clause does; it closes with the next mover |
| Notify.GameOverEcho | terramonitor.py:131-133 | the text is the game name between "game, <b>" and "</b>, finished", and nothing else |
| Notify.ParseFirstMove | terramonitor.py:117-120 | for a game name and mover with no `<` in them: with no previous player the text carries the game name and the next mover (`None` when there is none) and no elapsed-time clause |
| Notify.ParseLaterMove | terramonitor.py:121-124 | for names and minutes with no `<` in them: with a previous player the text carries the game name, the previous player, the rendered minutes and the next mover |
| Notify.ParseGameOver | terramonitor.py:131-133 | for a game name with no `<` in it: the game-over text carries the game name and nothing else |
| Notify.EchoParses | terramonitor.py:115-133 | for names and minutes with no `<` in them: every notice's text reads back as exactly its fields; the "took" clause is there exactly when a previous player is |
| Notify.KindsNeverCollide | terramonitor.py:117-133 | a to-move text never equals a game-over text |
| TerraMonitor.Enter | terramonitor.py:32-37 | the configured game is recorded; on the same game nothing changes, on a new one player and move time become None and the flag False |
| TerraMonitor.Elapsed | terramonitor.py:93-95 | the elapsed time is present exactly when a previous move time is, and it is `now` minus that time |
| TerraMonitor.Step | terramonitor.py:32-102 | one cycle records the configured game, sends at most one notice, always for the configured game, and keeps "player remembered ⇒ time remembered" |
| TerraMonitor.Run | terramonitor.py:18-102 | a run sends at most one notice per cycle and ends on the game configured in its last poll; no polls change nothing |
| TerraMonitor.NewGameForgetsPast | terramonitor.py:32-37 | every cycle records the configured game; on a new game name the cycle behaves as from the initial state, whatever was remembered |
| TerraMonitor.SkippedCycleStillResets | terramonitor.py:32-72 | the reset precedes the snapshot checks: an error or no-action cycle on a new game still leaves the fresh state and sends nothing |
| TerraMonitor.ErrorSkipsCycle | terramonitor.py:46-49 | a non-empty error list sends nothing and leaves player, move time and flag as they were after the reset |
| TerraMonitor.GameOverSentOnce | terramonitor.py:51-65 | an aborted or finished game sends the game-over notice only if the flag was down, raises the flag, and keeps player and move time |
| TerraMonitor.NoActionSkipsCycle | terramonitor.py:70-72 | a live game with an empty `action_required` sends nothing and changes nothing |
| TerraMonitor.SameMoverIsSilent | terramonitor.py:90-102 | a mover equal to the remembered one (None included) sends nothing and changes nothing |
| TerraMonitor.NewMoverIsAnnounced | terramonitor.py:90-99 | a different mover sends one to-move notice for the configured game, with the new and old movers and `now - previous_move_time` (absent when unset), then remembers the mover and `now` |
| TerraMonitor.StepKeepsConsistent | terramonitor.py:92-99 | each cycle sends at most one notice, keeps "player remembered ⇒ time remembered", and sends only notices whose text can be produced |
| TerraMonitor.MoveTimeFollowsMover | terramonitor.py:92-99 | the remembered move time changes only when the mover changes, becomes `now`, and a to-move notice is sent |
| TerraMonitor.GameOverAtMostOnce | terramonitor.py:51-65 | over any run of cycles on one game at most one game-over notice is sent, and none once the flag is up |
| TerraMonitor.SteadyMoverIsSilent | terramonitor.py:90-102 | cycles that keep seeing the remembered mover send nothing and leave the whole state, move time included, unchanged |
| TerraMonitor.RunKeepsConsistent | terramonitor.py:18-102 | along any run the state stays consistent and every notice sent can be turned into text |
| TerraMonitor.StepChained | terramonitor.py:90-99 | a cycle's to-move notice hands over from the remembered mover to the newly remembered one |
| TerraMonitor.AnnouncementsChain | terramonitor.py:90-99 | along a run on one game, each to-move notice names as previous player the mover announced before it, always a different one, and the remembered player is the last one announced |
| TerraMonitor.FinishedTwiceAnnouncedOnce | terramonitor.py:59-65 | two polls that both see a finished game send exactly one game-over notice |
| TerraMonitor.SwitchingBackAnnouncesAgain | terramonitor.py:32-37 | polls of finished games A, B, A send three game-over notices: switching away and back clears the flag |
| TerraMonitor.Monitor.constructor | terramonitor.py:13-16 | the loop variables start as None, None, None, False |
| TerraMonitor.Monitor.Cycle | terramonitor.py:32-102 | the loop body, updating the four fields in place, leaves the state and sends the notices that `Step` specifies, and keeps the invariant |
| TerraMonitor.Monitor.Loop | terramonitor.py:18-102 | repeating the loop body over a finite list of polls gives the state and notices that `Run` specifies |

## Left out

- HTTP traffic: the GET to the game server and the POSTs of both notifiers are network calls. A notice is returned as a value. Its target (`url + chatid`), its headers and the unverified-TLS setting are not modelled.
- Reading `terramonitor.json` and all JSON parsing are file I/O and a library parser. The configured game name and the `Snapshot` are inputs, already parsed. The source has no exception handlers here, so a malformed file or answer (a missing key included) ends the process. The model has no such path and no recovery path. A failure to read the configuration or the game therefore ends the process rather than skipping the cycle.
- `time.sleep`, `time.time()` and the endless `while True` are left out. Time is the integer parameter `now`, and `Run`/`Monitor.Loop` cover finite sequences of cycles only.
- `Notify.Echo`: the `{:.2f}` formatting of `move_time_diff/60` is floating point, so it is an abstract `render` parameter. The example "125.4 s shows as 2.09" is therefore not stated.
- `Notify.EchoParses`: the round trip is stated only for names and rendered times that contain no `<`. A name with markup in it can make two different notices produce the same text.
- `Notify.ParseFirstMove`: stated only for a game name and a mover that contain no `<`, for the same reason.
- `Notify.ParseLaterMove`: stated only for names and rendered minutes that contain no `<`, for the same reason.
- `Notify.ParseGameOver`: stated only for a game name that contains no `<`, for the same reason.
- `TerraMonitor.GameOverAtMostOnce`: the flag that stops a second game-over notice is cleared by every change of the configured game (terramonitor.py:32-37). So "at most once per game per process" holds only for a run on one game. Switching to another game and back announces a finished game again, as `SwitchingBackAnnouncesAgain` shows. The model follows the code here.
- Game.ActionItem: an action `type` other than `full` or `faction` is one value, `OtherAction`. The scan treats every such type the same way.
- Game.Snapshot: a username in the factions map is taken to be a string, not JSON `null`.
- Logging is a side effect with no behaviour to verify. The log line that tells an aborted game from a finished one is its only visible difference, so `Step` treats the two cases together.
