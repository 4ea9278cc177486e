/**
 * The two chat notifications of the monitor and the `echo` text each one
 * carries (terramonitor.py, `notify_to_move` and `notify_game_over`).
 *
 * Besides the text itself, this module holds a reader for those texts
 * (`Parse`), the partner that shows a message says exactly what it was
 * built from: whether the elapsed-time clause is there, and whose names.
 */
module Notify {
  import opened Optional

  /**
   * A notification the monitor decides to send. `elapsed` is the number of
   * seconds since the previous change of mover, absent after a reset.
   */
  datatype Notice =
    | ToMove(game: string, player: Option<string>, previous: Option<string>, elapsed: Option<int>)
    | GameOver(game: string)

  /**
   * What the text of `notify_to_move` needs: when the previous player is
   * shown, the elapsed time is divided by 60, which fails on a missing time.
   */
  predicate WellFormed(n: Notice) {
    n.ToMove? && n.previous.Some? ==> n.elapsed.Some?
  }

  /** A value as Python's `format` writes it: `None` is written as the word None. */
  function Show(p: Option<string>): (r: string)
    ensures p.Some? ==> r == p.value
    ensures p.None? ==> r == "None"
  {
    match p
    case Some(s) => s
    case None => "None"
  }

  /** The echo text of `notify_to_move`; `minutes` is the rendered elapsed time. */
  function ToMoveEcho(game: string, player: Option<string>, previous: Option<string>, minutes: string): (r: string)
    ensures "game: <b>" + game <= r
    ensures previous.None? ==> "game: <b>" + game + "</b><br/>next turn: <b>" <= r
    ensures previous.Some? ==> "game: <b>" + game + "</b><br/><b>" + previous.value + "</b> took " + minutes <= r
    ensures |r| >= |Show(player)| + 4 && r[|r| - |Show(player)| - 4..] == Show(player) + "</b>"
  {
    if previous.None? then
      "game: <b>" + (game + ("</b><br/>next turn: <b>" + (Show(player) + "</b>")))
    else
      "game: <b>" + (game + ("</b><br/><b>" + (previous.value + ("</b> took "
      + ((minutes + " mins to move") + ("<br/>next turn: <b>" + (Show(player) + "</b>")))))))
  }

  /** The echo text of `notify_game_over`. */
  function GameOverEcho(game: string): (r: string)
    ensures "game, <b>" + game <= r
    ensures |r| == |game| + 23 && r[|r| - 14..] == "</b>, finished"
  {
    "game, <b>" + (game + "</b>, finished")
  }
  /**
   * The echo text sent for a notice. `render` stands for the two-decimal
   * formatting of the elapsed seconds as minutes, which is not modelled.
   */
  function Echo(n: Notice, render: int -> string): string
    requires WellFormed(n)
  {
    match n
    case ToMove(game, player, previous, elapsed) =>
      ToMoveEcho(game, player, previous, if previous.Some? then render(elapsed.value) else "")
    case GameOver(game) => GameOverEcho(game)
  }

  // ---------------------------------------------------------------------------
  // Reading an echo text back.

  /** A text free of '<', so that it cannot be mistaken for markup. */
  predicate Plain(s: string) {
    '<' !in s
  }

  /** The longest prefix of `s` that holds no '<'. */
  function PlainPrefix(s: string): (r: string)
    ensures Plain(r) && r <= s
    ensures |r| < |s| ==> s[|r|] == '<'
  {
    if s == [] || s[0] == '<' then [] else [s[0]] + PlainPrefix(s[1..])
  }

  /** A plain text followed by markup (or by nothing) is read back whole. */
  lemma {:induction false} PlainPrefixOf(x: string, y: string)
    requires Plain(x) && (y == [] || y[0] == '<')
    ensures PlainPrefix(x + y) == x
  {
    if x == [] {
      assert x + y == y;
    } else {
      assert (x + y)[0] == x[0];
      assert (x + y)[1..] == x[1..] + y;
      PlainPrefixOf(x[1..], y);
      assert [x[0]] + x[1..] == x;
    }
  }

  /**
   * Reads a plain field up to the markup `tag` that must follow it; gives
   * the field and what comes after the tag.
   */
  function ReadField(s: string, tag: string): Option<(string, string)> {
    var field := PlainPrefix(s);
    var rest := s[|field|..];
    if tag <= rest then Some((field, rest[|tag|..])) else None
  }

  /** A plain field followed by its tag is read back, with what follows the tag. */
  lemma ReadFieldOf(x: string, tag: string, z: string)
    requires Plain(x) && |tag| > 0 && tag[0] == '<'
    ensures ReadField(x + (tag + z), tag) == Some((x, z))
  {
    PlainPrefixOf(x, tag + z);
    assert (x + (tag + z))[|x|..] == tag + z;
    assert (tag + z)[|tag|..] == z;
  }

  /** The fields of an echo text, as they are written in it. */
  datatype Took = Took(player: string, minutes: string)
  datatype Text =
    | ToMoveText(game: string, took: Option<Took>, next: string)
    | GameOverText(game: string)

  /** Reads the fields back from an echo text; None for any other text. */
  function Parse(s: string): Option<Text> {
    if "game, <b>" <= s then
      match ReadField(s[9..], "</b>, finished")
      case Some((game, rest)) => if rest == [] then Some(GameOverText(game)) else None
      case None => None
    else if "game: <b>" <= s then
      ParseToMove(s[9..])
    else
      None
  }

  /** A to-move text after its opening "game: <b>". */
  function ParseToMove(s: string): Option<Text> {
    match ReadField(s, "</b><br/>next turn: <b>")
    case Some((game, rest)) =>
      (match ParseNext(rest)
       case Some(next) => Some(ToMoveText(game, None, next))
       case None => None)
    case None =>
      match ReadField(s, "</b><br/><b>")
      case Some((game, rest)) =>
        (match ParseTook(rest)
         case Some((took, next)) => Some(ToMoveText(game, Some(took), next))
         case None => None)
      case None => None
  }

  /** The "took ... mins to move" clause and the next mover after it. */
  function ParseTook(s: string): Option<(Took, string)> {
    match ReadField(s, "</b> took ")
    case Some((previous, rest)) =>
      (match ReadField(rest, "<br/>next turn: <b>")
       case Some((clause, rest')) =>
         if |clause| >= 13 && clause[|clause| - 13..] == " mins to move" then
           (match ParseNext(rest')
            case Some(next) => Some((Took(previous, clause[..|clause| - 13]), next))
            case None => None)
         else None
       case None => None)
    case None => None
  }

  /** The next mover's name, closing the text. */
  function ParseNext(s: string): Option<string> {
    match ReadField(s, "</b>")
    case Some((next, rest)) => if rest == [] then Some(next) else None
    case None => None
  }

  /** The fields a notice puts into its text. */
  function Fields(n: Notice, render: int -> string): Text
    requires WellFormed(n)
  {
    match n
    case ToMove(game, player, previous, elapsed) =>
      ToMoveText(game, if previous.Some? then Some(Took(previous.value, render(elapsed.value))) else None, Show(player))
    case GameOver(game) => GameOverText(game)
  }

  /** Names, and the rendered time, that hold no markup. */
  predicate PlainFields(n: Notice, render: int -> string)
    requires WellFormed(n)
  {
    match n
    case ToMove(game, player, previous, elapsed) =>
      Plain(game) && Plain(Show(player))
      && (previous.Some? ==> Plain(previous.value) && Plain(render(elapsed.value)))
    case GameOver(game) => Plain(game)
  }

  /** The closing mover's name is read back. */
  lemma ParseNextOf(next: string)
    requires Plain(next)
    ensures ParseNext(next + "</b>") == Some(next)
  {
    ReadFieldOf(next, "</b>", []);
    assert next + ("</b>" + []) == next + "</b>";
  }

  /** A first-move text reads back with no "took" clause. */
  lemma ParseFirstMove(game: string, next: Option<string>)
    requires Plain(game) && Plain(Show(next))
    ensures Parse(ToMoveEcho(game, next, None, "")) == Some(ToMoveText(game, None, Show(next)))
  {
    var p := Show(next);
    var rest := p + "</b>";
    var s := ToMoveEcho(game, next, None, "");
    assert !("game, <b>" <= s) by { assert s[4] == ':'; }
    assert s[9..] == game + ("</b><br/>next turn: <b>" + rest);
    ReadFieldOf(game, "</b><br/>next turn: <b>", rest);
    ParseNextOf(p);
  }

  /** The "took" clause and the next mover are read back. */
  lemma ParseTookOf(previous: string, minutes: string, next: string)
    requires Plain(previous) && Plain(minutes) && Plain(next)
    ensures ParseTook(previous + ("</b> took " + ((minutes + " mins to move") + ("<br/>next turn: <b>" + (next + "</b>")))))
         == Some((Took(previous, minutes), next))
  {
    var clause := minutes + " mins to move";
    var r3 := next + "</b>";
    ReadFieldOf(previous, "</b> took ", clause + ("<br/>next turn: <b>" + r3));
    assert Plain(clause);
    ReadFieldOf(clause, "<br/>next turn: <b>", r3);
    assert clause[|clause| - 13..] == " mins to move";
    assert clause[..|clause| - 13] == minutes;
    ParseNextOf(next);
  }

  /** A text with a "took" clause is not mistaken for a first-move text. */
  lemma LaterIsNotFirst(game: string, rest: string)
    requires Plain(game)
    ensures ReadField(game + ("</b><br/><b>" + rest), "</b><br/>next turn: <b>").None?
  {
    var after := "</b><br/><b>" + rest;
    PlainPrefixOf(game, after);
    assert (game + after)[|game|..] == after;
    assert !("</b><br/>next turn: <b>" <= after) by { assert after[9] == '<'; }
  }

  /** After the game name, a "took" clause makes a to-move text with that clause. */
  lemma ParseToMoveOfLater(game: string, rest: string, took: Took, next: string)
    requires Plain(game) && ParseTook(rest) == Some((took, next))
    ensures ParseToMove(game + ("</b><br/><b>" + rest)) == Some(ToMoveText(game, Some(took), next))
  {
    LaterIsNotFirst(game, rest);
    ReadFieldOf(game, "</b><br/><b>", rest);
  }

  /** A later text reads back with the previous mover and the rendered time. */
  lemma ParseLaterMove(game: string, next: Option<string>, previous: string, minutes: string)
    requires Plain(game) && Plain(Show(next)) && Plain(previous) && Plain(minutes)
    ensures Parse(ToMoveEcho(game, next, Some(previous), minutes))
         == Some(ToMoveText(game, Some(Took(previous, minutes)), Show(next)))
  {
    var rest := previous + ("</b> took " + ((minutes + " mins to move") + ("<br/>next turn: <b>" + (Show(next) + "</b>"))));
    var s := ToMoveEcho(game, next, Some(previous), minutes);
    assert !("game, <b>" <= s) by { assert s[4] == ':'; }
    assert s[9..] == game + ("</b><br/><b>" + rest);
    ParseTookOf(previous, minutes, Show(next));
    ParseToMoveOfLater(game, rest, Took(previous, minutes), Show(next));
  }

  /** A game-over text reads back as the game name alone. */
  lemma ParseGameOver(game: string)
    requires Plain(game)
    ensures Parse(GameOverEcho(game)) == Some(GameOverText(game))
  {
    ReadFieldOf(game, "</b>, finished", []);
    assert GameOverEcho(game)[9..] == game + ("</b>, finished" + []);
  }

  /**
   * The echo text of every notice reads back as exactly the fields it was
   * built from: in particular, the elapsed-time clause is there exactly when
   * a previous player is, and a game-over text carries the game name alone.
   */
  lemma EchoParses(n: Notice, render: int -> string)
    requires WellFormed(n) && PlainFields(n, render)
    ensures Parse(Echo(n, render)) == Some(Fields(n, render))
  {
    match n
    case ToMove(game, player, previous, elapsed) =>
      if previous.None? {
        ParseFirstMove(game, player);
      } else {
        ParseLaterMove(game, player, previous.value, render(elapsed.value));
      }
    case GameOver(game) =>
      ParseGameOver(game);
  }

  /** A to-move text and a game-over text are never the same text. */
  lemma KindsNeverCollide(game: string, player: Option<string>, previous: Option<string>, minutes: string, over: string)
    ensures ToMoveEcho(game, player, previous, minutes) != GameOverEcho(over)
  {
    assert ToMoveEcho(game, player, previous, minutes)[4] == ':';
    assert GameOverEcho(over)[4] == ',';
  }
}
