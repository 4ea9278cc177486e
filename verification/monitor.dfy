/**
 * One poll cycle of the monitor loop in `main` (terramonitor.py): the four
 * `previous_*` loop variables, the reset on a change of game, the skips, the
 * game-over notice sent once, and the to-move notice sent on a change of
 * mover. `Step` states a cycle as a function of the remembered state;
 * `Monitor.Cycle` is the loop body itself, updating the variables in place.
 */
module TerraMonitor {
  import opened Optional
  import opened Game
  import opened Notify

  /** The loop variables `previous_game`, `previous_player`, `previous_move_time`, `previous_notified_over`. */
  datatype MonitorState = MonitorState(
    previousGame: Option<string>,
    previousPlayer: Option<string>,
    previousMoveTime: Option<int>,
    previousNotifiedOver: bool)

  /** The values the loop variables start with. */
  const Start := MonitorState(None, None, None, false)

  /** A remembered player always comes with the time the change to it was seen. */
  predicate Consistent(s: MonitorState) {
    s.previousPlayer.Some? ==> s.previousMoveTime.Some?
  }

  /** The state the rest of the cycle sees: a new game name forgets everything else. */
  function Enter(s: MonitorState, game: string): (r: MonitorState)
    ensures r.previousGame == Some(game)
    ensures s.previousGame == Some(game) ==> r == s
    ensures s.previousGame != Some(game) ==> r.previousPlayer.None? && r.previousMoveTime.None? && !r.previousNotifiedOver
  {
    if s.previousGame != Some(game) then MonitorState(Some(game), None, None, false) else s
  }

  /** Seconds since the last change of mover, if one was seen since the reset. */
  function Elapsed(since: Option<int>, now: int): (r: Option<int>)
    ensures r.Some? <==> since.Some?
    ensures r.Some? ==> since.value + r.value == now
  {
    match since
    case Some(t) => Some(now - t)
    case None => None
  }

  /** What a cycle leaves behind: the new state and the notices it sent, in order. */
  datatype Outcome = Outcome(state: MonitorState, sent: seq<Notice>)

  /** A live game: neither aborted nor finished. */
  predicate Live(snap: Snapshot) {
    snap.aborted == 0 && snap.finished == 0
  }

  /** One cycle for configured game `game`, server answer `snap`, at time `now`. */
  function Step(s: MonitorState, game: string, snap: Snapshot, now: int): (r: Outcome)
    ensures r.state.previousGame == Some(game)
    ensures |r.sent| <= 1
    ensures forall i :: 0 <= i < |r.sent| ==> r.sent[i].game == game
    ensures Consistent(s) ==> Consistent(r.state)
  {
    var t := Enter(s, game);
    if |snap.errors| != 0 then Outcome(t, [])
    else if !Live(snap) then
      if t.previousNotifiedOver then Outcome(t, [])
      else Outcome(t.(previousNotifiedOver := true), [GameOver(game)])
    else if |snap.actionRequired| == 0 then Outcome(t, [])
    else
      var mover := Mover(snap);
      if mover == t.previousPlayer then Outcome(t, [])
      else
        Outcome(t.(previousPlayer := mover, previousMoveTime := Some(now)),
                [ToMove(game, mover, t.previousPlayer, Elapsed(t.previousMoveTime, now))])
  }

  // ---------------------------------------------------------------------------
  // One cycle.

  /** Every cycle records the configured game; on a new game nothing remembered matters. */
  lemma NewGameForgetsPast(s: MonitorState, game: string, snap: Snapshot, now: int)
    ensures Step(s, game, snap, now).state.previousGame == Some(game)
    ensures s.previousGame != Some(game) ==> Step(s, game, snap, now) == Step(Start, game, snap, now)
  {
  }

  /** The reset comes before the snapshot is looked at, so skipped cycles reset too. */
  lemma SkippedCycleStillResets(s: MonitorState, game: string, snap: Snapshot, now: int)
    requires s.previousGame != Some(game)
    requires |snap.errors| != 0 || (Live(snap) && |snap.actionRequired| == 0)
    ensures Step(s, game, snap, now) == Outcome(MonitorState(Some(game), None, None, false), [])
  {
  }

  /** A server error ends the cycle: nothing sent, player, time and flag as after the reset. */
  lemma ErrorSkipsCycle(s: MonitorState, game: string, snap: Snapshot, now: int)
    requires |snap.errors| != 0
    ensures Step(s, game, snap, now) == Outcome(Enter(s, game), [])
    ensures s.previousGame == Some(game) ==> Step(s, game, snap, now).state == s
  {
  }

  /** An aborted or finished game is announced only while the flag is down, and raises it. */
  lemma GameOverSentOnce(s: MonitorState, game: string, snap: Snapshot, now: int)
    requires |snap.errors| == 0 && !Live(snap)
    ensures var o := Step(s, game, snap, now);
      && o.state == Enter(s, game).(previousNotifiedOver := true)
      && o.sent == if Enter(s, game).previousNotifiedOver then [] else [GameOver(game)]
  {
  }

  /** A live game with nothing to do changes nothing. */
  lemma NoActionSkipsCycle(s: MonitorState, game: string, snap: Snapshot, now: int)
    requires |snap.errors| == 0 && Live(snap) && |snap.actionRequired| == 0
    ensures Step(s, game, snap, now) == Outcome(Enter(s, game), [])
  {
  }

  /** The same mover as before (None included) means no notice and no change. */
  lemma SameMoverIsSilent(s: MonitorState, game: string, snap: Snapshot, now: int)
    requires |snap.errors| == 0 && Live(snap) && |snap.actionRequired| > 0
    requires Mover(snap) == Enter(s, game).previousPlayer
    ensures Step(s, game, snap, now) == Outcome(Enter(s, game), [])
  {
  }

  /**
   * A new mover is announced once, with the old one and the seconds since the
   * last change (absent right after a reset), and becomes the remembered one.
   */
  lemma NewMoverIsAnnounced(s: MonitorState, game: string, snap: Snapshot, now: int)
    requires |snap.errors| == 0 && Live(snap) && |snap.actionRequired| > 0
    requires Mover(snap) != Enter(s, game).previousPlayer
    ensures var t, o := Enter(s, game), Step(s, game, snap, now);
      && |o.sent| == 1 && o.sent[0].ToMove?
      && o.sent[0].game == game
      && o.sent[0].player == Mover(snap) && o.sent[0].previous == t.previousPlayer
      && (o.sent[0].elapsed.Some? <==> t.previousMoveTime.Some?)
      && (t.previousMoveTime.Some? ==> o.sent[0].elapsed.value == now - t.previousMoveTime.value)
      && o.state == MonitorState(Some(game), Mover(snap), Some(now), t.previousNotifiedOver)
  {
  }

  /**
   * Every cycle sends at most one notice, keeps the state consistent, and
   * sends only notices whose text can be produced.
   */
  lemma StepKeepsConsistent(s: MonitorState, game: string, snap: Snapshot, now: int)
    requires Consistent(s)
    ensures var o := Step(s, game, snap, now);
      && Consistent(o.state)
      && |o.sent| <= 1
      && forall i :: 0 <= i < |o.sent| ==> WellFormed(o.sent[i])
  {
  }

  /** The time of the last move changes only together with the mover, and is announced. */
  lemma MoveTimeFollowsMover(s: MonitorState, game: string, snap: Snapshot, now: int)
    requires Step(s, game, snap, now).state.previousMoveTime != Enter(s, game).previousMoveTime
    ensures var o := Step(s, game, snap, now);
      && o.state.previousPlayer != Enter(s, game).previousPlayer
      && o.state.previousMoveTime == Some(now)
      && |o.sent| == 1 && o.sent[0].ToMove?
  {
  }

  // ---------------------------------------------------------------------------
  // A finite run of cycles.

  /** One pass of the loop: the configured game, the server's answer and the clock. */
  datatype Poll = Poll(game: string, snap: Snapshot, now: int)

  /** The cycles in order, from state `s`, with all their notices. */
  function Run(s: MonitorState, polls: seq<Poll>): (r: Outcome)
    ensures |r.sent| <= |polls|
    ensures polls != [] ==> r.state.previousGame == Some(polls[|polls| - 1].game)
    ensures polls == [] ==> r == Outcome(s, [])
    decreases |polls|
  {
    if polls == [] then Outcome(s, [])
    else
      var first := Step(s, polls[0].game, polls[0].snap, polls[0].now);
      var rest := Run(first.state, polls[1..]);
      Outcome(rest.state, first.sent + rest.sent)
  }

  /** All polls configure the same game. */
  predicate OneGame(polls: seq<Poll>, game: string) {
    forall i :: 0 <= i < |polls| ==> polls[i].game == game
  }

  /** The number of game-over notices. */
  function GameOvers(ns: seq<Notice>): nat {
    if ns == [] then 0 else (if ns[0].GameOver? then 1 else 0) + GameOvers(ns[1..])
  }

  /** Counting game-over notices distributes over concatenation. */
  lemma {:induction false} GameOversAppend(a: seq<Notice>, b: seq<Notice>)
    ensures GameOvers(a + b) == GameOvers(a) + GameOvers(b)
  {
    if a == [] {
      assert a + b == b;
    } else {
      assert (a + b)[1..] == a[1..] + b;
      GameOversAppend(a[1..], b);
    }
  }

  /**
   * However many cycles see the game aborted or finished, one game is
   * announced as over at most once, and not at all once the flag is up.
   */
  lemma {:induction false} GameOverAtMostOnce(s: MonitorState, polls: seq<Poll>, game: string)
    requires OneGame(polls, game)
    ensures GameOvers(Run(s, polls).sent) <= if Enter(s, game).previousNotifiedOver then 0 else 1
    decreases |polls|
  {
    if polls != [] {
      var p := polls[0];
      var first := Step(s, p.game, p.snap, p.now);
      assert OneGame(polls[1..], game);
      GameOverAtMostOnce(first.state, polls[1..], game);
      GameOversAppend(first.sent, Run(first.state, polls[1..]).sent);
      assert Enter(first.state, game) == first.state;
      assert GameOvers(first.sent) == 1 ==> first.state.previousNotifiedOver;
      assert Enter(s, game).previousNotifiedOver ==> first.state.previousNotifiedOver && GameOvers(first.sent) == 0;
    }
  }

  /** Every snapshot names the remembered mover: nothing sent, state unchanged. */
  predicate Steady(s: MonitorState, polls: seq<Poll>) {
    s.previousGame.Some? &&
    forall i :: 0 <= i < |polls| ==>
      && polls[i].game == s.previousGame.value
      && Live(polls[i].snap)
      && (|polls[i].snap.actionRequired| > 0 ==> Mover(polls[i].snap) == s.previousPlayer)
  }

  /** Cycles that keep seeing the same mover send nothing and leave the time of the last move alone. */
  lemma {:induction false} SteadyMoverIsSilent(s: MonitorState, polls: seq<Poll>)
    requires Steady(s, polls)
    ensures Run(s, polls) == Outcome(s, [])
  {
    if polls != [] {
      var p := polls[0];
      assert Step(s, p.game, p.snap, p.now) == Outcome(s, []);
      assert Steady(s, polls[1..]);
      SteadyMoverIsSilent(s, polls[1..]);
    }
  }

  /** The state stays consistent along a run, so every notice sent has a text. */
  lemma {:induction false} RunKeepsConsistent(s: MonitorState, polls: seq<Poll>)
    requires Consistent(s)
    ensures Consistent(Run(s, polls).state)
    ensures forall i :: 0 <= i < |Run(s, polls).sent| ==> WellFormed(Run(s, polls).sent[i])
    decreases |polls|
  {
    if polls != [] {
      var p := polls[0];
      var first := Step(s, p.game, p.snap, p.now);
      StepKeepsConsistent(s, p.game, p.snap, p.now);
      RunKeepsConsistent(first.state, polls[1..]);
      var rest := Run(first.state, polls[1..]).sent;
      assert Run(s, polls).sent == first.sent + rest;
      forall i | 0 <= i < |Run(s, polls).sent|
        ensures WellFormed(Run(s, polls).sent[i])
      {
        if i >= |first.sent| {
          assert Run(s, polls).sent[i] == rest[i - |first.sent|];
        }
      }
    }
  }

  /**
   * The to-move notices of one game form a chain: each names as previous
   * player the mover announced before it (or `last` for the first one), and
   * always a different mover.
   */
  predicate Chained(last: Option<string>, ns: seq<Notice>)
    decreases |ns|
  {
    ns == [] ||
    match ns[0]
    case GameOver(_) => Chained(last, ns[1..])
    case ToMove(_, player, previous, _) => previous == last && player != previous && Chained(player, ns[1..])
  }

  /** The last mover announced in `ns`, or `last` if none is. */
  function LastMover(last: Option<string>, ns: seq<Notice>): Option<string>
    decreases |ns|
  {
    if ns == [] then last
    else LastMover(if ns[0].ToMove? then ns[0].player else last, ns[1..])
  }

  /** Two chains, the second starting where the first ends, make one chain. */
  lemma {:induction false} ChainedAppend(last: Option<string>, a: seq<Notice>, b: seq<Notice>)
    requires Chained(last, a) && Chained(LastMover(last, a), b)
    ensures Chained(last, a + b)
    ensures LastMover(last, a + b) == LastMover(LastMover(last, a), b)
    decreases |a|
  {
    if a == [] {
      assert a + b == b;
    } else {
      assert (a + b)[0] == a[0];
      assert (a + b)[1..] == a[1..] + b;
      ChainedAppend(if a[0].ToMove? then a[0].player else last, a[1..], b);
    }
  }

  /** The notice of one cycle hands over from the remembered mover to the new remembered one. */
  lemma StepChained(s: MonitorState, game: string, snap: Snapshot, now: int)
    ensures var o := Step(s, game, snap, now);
      && Chained(Enter(s, game).previousPlayer, o.sent)
      && LastMover(Enter(s, game).previousPlayer, o.sent) == o.state.previousPlayer
  {
    var o := Step(s, game, snap, now);
    var last := Enter(s, game).previousPlayer;
    if o.sent == [] {
      assert o.state.previousPlayer == last;
    } else {
      var n := o.sent[0];
      assert o.sent == [n] && o.sent[1..] == [];
      if n.ToMove? {
        assert n.previous == last && n.player == o.state.previousPlayer && n.player != last;
        assert LastMover(last, o.sent) == LastMover(n.player, []);
      } else {
        assert o.state.previousPlayer == last;
        assert LastMover(last, o.sent) == LastMover(last, []);
      }
    }
  }

  /**
   * Along a run on one game, each to-move notice hands over from the mover
   * announced just before it, and the remembered player is the last one
   * announced.
   */
  lemma {:induction false} AnnouncementsChain(s: MonitorState, polls: seq<Poll>, game: string)
    requires OneGame(polls, game)
    ensures Chained(Enter(s, game).previousPlayer, Run(s, polls).sent)
    ensures polls != [] ==> Run(s, polls).state.previousPlayer == LastMover(Enter(s, game).previousPlayer, Run(s, polls).sent)
    decreases |polls|
  {
    if polls != [] {
      var p := polls[0];
      var first := Step(s, p.game, p.snap, p.now);
      var last := Enter(s, game).previousPlayer;
      StepChained(s, game, p.snap, p.now);
      assert OneGame(polls[1..], game);
      assert Enter(first.state, game) == first.state;
      AnnouncementsChain(first.state, polls[1..], game);
      var rest := Run(first.state, polls[1..]);
      assert LastMover(first.state.previousPlayer, rest.sent) == rest.state.previousPlayer by {
        if polls[1..] == [] {
          assert rest.sent == [];
        }
      }
      ChainedAppend(last, first.sent, rest.sent);
    }
  }

  /** A run is its first cycles followed by one more. */
  lemma {:induction false} RunSnoc(s: MonitorState, polls: seq<Poll>, p: Poll)
    ensures var before := Run(s, polls);
      var last := Step(before.state, p.game, p.snap, p.now);
      Run(s, polls + [p]) == Outcome(last.state, before.sent + last.sent)
    decreases |polls|
  {
    if polls == [] {
      assert polls + [p] == [p];
    } else {
      var first := Step(s, polls[0].game, polls[0].snap, polls[0].now);
      assert (polls + [p])[0] == polls[0];
      assert (polls + [p])[1..] == polls[1..] + [p];
      RunSnoc(first.state, polls[1..], p);
      var before := Run(s, polls);
      var last := Step(before.state, p.game, p.snap, p.now);
      assert first.sent + (Run(first.state, polls[1..]).sent + last.sent)
          == (first.sent + Run(first.state, polls[1..]).sent) + last.sent;
    }
  }

  /** A game that is finished from the first poll on is announced exactly once over two polls. */
  lemma FinishedTwiceAnnouncedOnce(game: string, snap: Snapshot, now1: int, now2: int)
    requires |snap.errors| == 0 && snap.finished != 0
    ensures Run(Start, [Poll(game, snap, now1), Poll(game, snap, now2)]).sent == [GameOver(game)]
  {
    var polls := [Poll(game, snap, now1), Poll(game, snap, now2)];
    var first := Step(Start, game, snap, now1);
    assert first == Outcome(MonitorState(Some(game), None, None, true), [GameOver(game)]);
    var second := Step(first.state, game, snap, now2);
    assert second == Outcome(first.state, []);
    assert polls[1..] == [Poll(game, snap, now2)];
    assert polls[1..][1..] == [];
    assert Run(first.state, polls[1..]) == Outcome(first.state, []);
  }

  /**
   * The flag is per configured game, not per game for the whole process:
   * switching to another game and back clears it, so a finished game is
   * announced again.
   */
  lemma SwitchingBackAnnouncesAgain(a: string, b: string, snap: Snapshot, now1: int, now2: int, now3: int)
    requires a != b && |snap.errors| == 0 && snap.finished != 0
    ensures Run(Start, [Poll(a, snap, now1), Poll(b, snap, now2), Poll(a, snap, now3)]).sent
         == [GameOver(a), GameOver(b), GameOver(a)]
  {
    var polls := [Poll(a, snap, now1), Poll(b, snap, now2), Poll(a, snap, now3)];
    var s1 := MonitorState(Some(a), None, None, true);
    var s2 := MonitorState(Some(b), None, None, true);
    assert Step(Start, a, snap, now1) == Outcome(s1, [GameOver(a)]);
    assert Step(s1, b, snap, now2) == Outcome(s2, [GameOver(b)]);
    assert Step(s2, a, snap, now3) == Outcome(s1, [GameOver(a)]);
    assert polls[1..] == [Poll(b, snap, now2), Poll(a, snap, now3)];
    assert polls[1..][1..] == [Poll(a, snap, now3)];
    assert Run(s2, polls[1..][1..]) == Outcome(s1, [GameOver(a)]) by {
      assert polls[1..][1..][1..] == [];
    }
  }

  // ---------------------------------------------------------------------------
  // The loop variables, updated in place.

  class Monitor {
    var previousGame: Option<string>
    var previousPlayer: Option<string>
    var previousMoveTime: Option<int>
    var previousNotifiedOver: bool

    /** The loop variables as one value. */
    function State(): MonitorState
      reads this
    {
      MonitorState(previousGame, previousPlayer, previousMoveTime, previousNotifiedOver)
    }

    /** The invariant of the loop variables. */
    predicate Valid()
      reads this
    {
      Consistent(State())
    }

    /** The variables as `main` sets them before its loop. */
    constructor ()
      ensures Valid() && State() == Start
    {
      previousGame := None;
      previousPlayer := None;
      previousMoveTime := None;
      previousNotifiedOver := false;
    }

    /** The body of the `while True` loop, after the configuration and the snapshot are read. */
    method Cycle(game: string, snap: Snapshot, now: int) returns (sent: seq<Notice>)
      requires Valid()
      modifies this
      ensures Valid()
      ensures Outcome(State(), sent) == Step(old(State()), game, snap, now)
      ensures |sent| <= 1 && forall i :: 0 <= i < |sent| ==> WellFormed(sent[i])
    {
      StepKeepsConsistent(State(), game, snap, now);
      if previousGame != Some(game) {
        previousGame := Some(game);
        previousPlayer := None;
        previousMoveTime := None;
        previousNotifiedOver := false;
      }
      sent := [];
      if |snap.errors| != 0 {
        return;
      }
      if snap.aborted != 0 {
        if !previousNotifiedOver {
          sent := [GameOver(game)];
          previousNotifiedOver := true;
        }
        return;
      }
      if snap.finished != 0 {
        if !previousNotifiedOver {
          sent := [GameOver(game)];
          previousNotifiedOver := true;
        }
        return;
      }
      if |snap.actionRequired| == 0 {
        return;
      }
      var player := ResolveMover(snap);
      if previousPlayer != player {
        var moveTime := now;
        var moveTimeDiff: Option<int> := None;
        if previousMoveTime.Some? {
          moveTimeDiff := Some(moveTime - previousMoveTime.value);
        }
        sent := [ToMove(game, player, previousPlayer, moveTimeDiff)];
        previousPlayer := player;
        previousMoveTime := Some(moveTime);
      }
    }

    /** The loop run over a finite sequence of polls. */
    method Loop(polls: seq<Poll>) returns (sent: seq<Notice>)
      requires Valid()
      modifies this
      ensures Valid()
      ensures Outcome(State(), sent) == Run(old(State()), polls)
    {
      sent := [];
      for i := 0 to |polls|
        invariant Valid()
        invariant Outcome(State(), sent) == Run(old(State()), polls[..i])
      {
        RunSnoc(old(State()), polls[..i], polls[i]);
        assert polls[..i + 1] == polls[..i] + [polls[i]];
        var more := Cycle(polls[i].game, polls[i].snap, polls[i].now);
        sent := sent + more;
      }
      assert polls[..|polls|] == polls;
    }
  }
}
