/** The game loop of the Windows build: the callbacks that keep level, lines
    and score, the pause switch and one pass of `game_run` (timer, key,
    redraw).  The engine's callbacks arrive as its event list; the key read
    from the keyboard is an input, and the screen output of the console UI is
    reduced to what is printed (engine callbacks, the pause screen and the
    side-panel numbers). */
module Host {
  import opened Bits
  import Board
  import Shapes
  import Engine

  /* ---- Level, lines and score ---- */

  /** The static `level` (uint8_t), `lines` and `score` (uint16_t). */
  datatype Info = Info(level: uint8, lines: uint16, score: uint16)

  /** Their values at program start. */
  const StartInfo := Info(1, 0, 0)

  /** Lines per level. */
  const LinesPerLevel := 25

  /** The level belongs to the line count: `lines / 25 + 1`, truncated to
      the eight bits of `level`. */
  predicate Consistent(s: Info)
  {
    s.level == LevelFor(s.lines)
  }

  function LevelFor(lines: uint16): uint8
  {
    (lines / LinesPerLevel + 1) % 0x100
  }

  /** Points for clearing `line` rows with one brick. */
  function Points(line: int): (p: nat)
    ensures p > 0 <==> 1 <= line <= 4
  {
    if line == 1 then 10
    else if line == 2 then 25
    else if line == 3 then 45
    else if line == 4 then 80
    else 0
  }

  /** `get_remove_line_num`: the count is added to `lines` and the points to
      `score` (both wrap at 16 bits), and the level is recomputed. */
  function RemoveLines(s: Info, line: uint8): (r: Info)
    ensures r.lines == (s.lines + line) % 0x1_0000
    ensures r.score == (s.score + Points(line)) % 0x1_0000
    ensures Consistent(r)
  {
    var lines := (s.lines + line) % 0x1_0000;
    var score := if line == 1 then (s.score + 10) % 0x1_0000
                 else if line == 2 then (s.score + 25) % 0x1_0000
                 else if line == 3 then (s.score + 45) % 0x1_0000
                 else if line == 4 then (s.score + 80) % 0x1_0000
                 else s.score;
    Info(LevelFor(lines), lines, score)
  }

  /** A report of no lines (sent by every frozen brick) changes neither
      lines nor score, and leaves a consistent level as it was. */
  lemma NoLinesNoChange(s: Info)
    requires Consistent(s)
    ensures RemoveLines(s, 0) == s
  {
    var r := RemoveLines(s, 0);
    assert r.lines == s.lines && r.score == s.score;
    assert r.level == LevelFor(s.lines);
  }

  /** Clearing rows together pays more than clearing them one at a time. */
  lemma ClearingTogetherPays(n: int)
    requires 2 <= n <= 4
    ensures Points(n) > n * Points(1)
  {
  }

  /** While the count neither wraps nor reaches 6375 lines (where the level
      would pass 255), the level never decreases and grows by at most the
      number of 25-line steps crossed. */
  lemma LevelNeverDecreases(s: Info, line: uint8)
    requires Consistent(s) && s.lines + line < 6375
    ensures s.level <= RemoveLines(s, line).level <= s.level + line / LinesPerLevel + 1
  {
    var r := RemoveLines(s, line);
    assert r.lines == s.lines + line;
    BelowWrap(s);
    BelowWrap(r);
    StepsCrossed(s.lines, line);
  }

  /** Below 6375 lines the level is exactly `lines / 25 + 1`. */
  lemma BelowWrap(s: Info)
    requires Consistent(s) && s.lines < 6375
    ensures s.level == s.lines / LinesPerLevel + 1
  {
  }

  /** Adding `d` to a count crosses at most `d / 25 + 1` multiples of 25. */
  lemma StepsCrossed(a: nat, d: nat)
    ensures a / 25 <= (a + d) / 25 <= a / 25 + d / 25 + 1
  {
    var q, r := a / 25, a % 25;
    var q', r' := d / 25, d % 25;
    assert a + d == 25 * (q + q') + (r + r');
    assert 0 <= r + r' < 50;
    if r + r' < 25 {
      assert (a + d) / 25 == q + q';
    } else {
      assert a + d == 25 * (q + q' + 1) + (r + r' - 25);
      assert (a + d) / 25 == q + q' + 1;
    }
  }

  /** At 6375 lines the eight-bit level wraps to 0. */
  lemma LevelWraps()
    ensures RemoveLines(Info(255, 6374, 0), 1).level == 0
  {
  }

  /** The sum of the line counts reported in an event list. */
  function LinesReported(events: seq<Engine.Event>): int
  {
    if events == [] then 0
    else LinesReported(events[..|events| - 1]) +
         (if events[|events| - 1].LinesRemoved? then events[|events| - 1].line else 0)
  }

  /** The callbacks `get_remove_line_num` receives during an engine call, in
      order; the count is passed as a `uint8_t`. */
  function Absorb(s: Info, events: seq<Engine.Event>): (r: Info)
  {
    if events == [] then s
    else
      var s' := Absorb(s, events[..|events| - 1]);
      var e := events[|events| - 1];
      if e.LinesRemoved? then RemoveLines(s', e.line % 0x100) else s'
  }

  /** Absorbing the callbacks adds every reported line to `lines` (modulo
      2^16, the counts being below 256) and keeps the level consistent. */
  lemma {:induction false} AbsorbCounts(s: Info, events: seq<Engine.Event>)
    requires Consistent(s)
    requires forall i | 0 <= i < |events| :: events[i].LinesRemoved? ==> 0 <= events[i].line < 0x100
    ensures Absorb(s, events).lines == (s.lines + LinesReported(events)) % 0x1_0000
    ensures Consistent(Absorb(s, events))
  {
    if events != [] {
      var init := events[..|events| - 1];
      AbsorbCounts(s, init);
      var e := events[|events| - 1];
      if e.LinesRemoved? {
        assert e.line % 0x100 == e.line;
        ModAdd(s.lines + LinesReported(init), e.line);
      }
    }
  }

  lemma ModAdd(a: int, b: int)
    ensures (a % 0x1_0000 + b) % 0x1_0000 == (a + b) % 0x1_0000
  {
  }

  /* ---- The timer ---- */

  /** One tick of the timer: `time_count` counts 50 ms ticks while the game
      runs; the brick is pushed down and the count reset once it reaches
      `12 - level`, an `int` comparison that a level of 12 or more always
      passes, paused or not. */
  function Timer(paused: bool, count: uint16, level: uint8): (r: (bool, uint16))
    ensures r.0 ==> r.1 == 0
    ensures !r.0 ==> r.1 == (if paused then count else (count + 1) % 0x1_0000)
    ensures level >= 12 ==> r.0
  {
    var count' := if paused then count else (count + 1) % 0x1_0000;
    if count' >= 12 - level then (true, 0) else (false, count')
  }

  /** Running at level 1..11 from a reset timer, the brick drops on exactly
      every (12 - level)-th tick. */
  lemma TimerPeriod(level: uint8, k: uint16)
    requires 1 <= level < 12 && k < 12 - level
    ensures k + 1 < 12 - level ==> Timer(false, k, level) == (false, k + 1)
    ensures k + 1 == 12 - level ==> Timer(false, k, level) == (true, 0)
  {
  }

  /** While paused below level 12 the timer stands still. */
  lemma PausedTimerStands(level: uint8, count: uint16)
    requires level < 12 && count < 12 - level
    ensures Timer(true, count, level) == (false, count)
  {
  }

  /* ---- The game loop ---- */

  /** A key `jkGetKey` returns: the five the game reacts to and any other. */
  datatype Key = Up | Down | Left | Right | Space | Enter | Unbound(code: uint16)

  /** What one pass of `game_run` finds on the keyboard (`kbhit`). */
  datatype Input = NoKey | Pressed(key: Key)

  /** What the loop sends to the screen: an engine callback, the pause
      screen, or the three side-panel numbers (`game_info_update`). */
  datatype Output = Callback(event: Engine.Event) | PauseScreen | InfoUpdate(info: Info)

  /** The static variables of the Windows `main.c`, with the engine's. */
  datatype Game = Game(engine: Engine.State, info: Info, paused: bool, timeCount: uint16, refresh: bool)

  predicate Valid(g: Game)
  {
    Engine.Valid(g.engine) && Consistent(g.info)
  }

  function Callbacks(events: seq<Engine.Event>): (out: seq<Output>)
    ensures |out| == |events|
    ensures forall i | 0 <= i < |events| :: out[i] == Callback(events[i])
  {
    if events == [] then [] else [Callback(events[0])] + Callbacks(events[1..])
  }

  /** `tetris_move` with the callbacks absorbed into the host's counters. */
  method Step(g: Game, dir: Engine.Direction, rand: nat -> uint8) returns (g': Game, moved: bool, out: seq<Output>)
    requires Valid(g)
    ensures Valid(g') && g'.paused == g.paused && g'.timeCount == g.timeCount && g'.refresh == g.refresh
    ensures g'.engine.backup == g.engine.backup
    ensures g.engine.gameOver ==> g'.engine.gameOver
    ensures moved ==> g'.engine.curr == Engine.Committed(Engine.Candidate(g.engine.curr, dir), dir) &&
                      g'.engine.next == g.engine.next && g'.engine.draws == g.engine.draws &&
                      g'.info == g.info && out == []
    ensures !moved && dir != Engine.Down ==> g' == g && out == []
    ensures !moved && dir == Engine.Down ==>
              g'.engine.curr == g.engine.next && g'.engine.draws == g.engine.draws + 1 &&
              g'.info == RemoveLines(g.info, Board.CountFull(g.engine.rows) % 0x100) &&
              out == [Callback(Engine.LinesRemoved(Board.CountFull(g.engine.rows))),
                      Callback(Engine.Preview(Shapes.PreviewTable[g'.engine.next.kind]))]
  {
    var e, events;
    e, moved, events := Engine.Move(g.engine, dir, rand);
    var info := Absorb(g.info, events);
    if !moved && dir == Engine.Down {
      var first := [events[0]];
      assert events[..|events| - 1] == first && first[..0] == [];
      assert Absorb(g.info, first) == RemoveLines(g.info, events[0].line % 0x100);
      assert info == Absorb(g.info, first);
    }
    g' := g.(engine := e, info := info);
    out := Callbacks(events);
  }

  /** The space key: `while (tetris_move(dire_down));`.  Each successful step
      lowers the brick by a row, so the loop ends when the brick freezes: the
      next brick is then falling and the lines of the landing are counted. */
  method HardDrop(g: Game, rand: nat -> uint8) returns (g': Game, out: seq<Output>)
    requires Valid(g)
    ensures Valid(g') && g'.paused == g.paused && g'.timeCount == g.timeCount && g'.refresh == g.refresh
    ensures g'.engine.backup == g.engine.backup
    ensures g.engine.gameOver ==> g'.engine.gameOver
    ensures g'.engine.curr == g.engine.next && g'.engine.draws == g.engine.draws + 1
    ensures |out| == 2 && out[0].Callback? && out[0].event.LinesRemoved? &&
            out[1].Callback? && out[1].event.Preview?
  {
    g' := g;
    out := [];
    var moved := true;
    while moved
      invariant Valid(g') && g'.paused == g.paused && g'.timeCount == g.timeCount && g'.refresh == g.refresh
      invariant g'.engine.backup == g.engine.backup
      invariant g.engine.gameOver ==> g'.engine.gameOver
      invariant moved ==> g'.engine.next == g.engine.next && g'.engine.draws == g.engine.draws && out == []
      invariant !moved ==> |out| == 2 && out[0].Callback? && out[0].event.LinesRemoved? &&
                           out[1].Callback? && out[1].event.Preview?
      invariant !moved ==> g'.engine.curr == g.engine.next && g'.engine.draws == g.engine.draws + 1
      decreases moved, Board.Height - g'.engine.curr.y
    {
      Engine.AboveFloor(g'.engine);
      var step;
      g', moved, step := Step(g', Engine.Down, rand);
      out := out + step;
    }
  }

  /** `game_pause`: the flag flips; entering the pause prints the pause
      screen, leaving it redraws all 200 cells of the board. */
  method Pause(g: Game) returns (g': Game, out: seq<Output>)
    requires Valid(g)
    ensures g' == g.(paused := !g.paused)
    ensures !g.paused ==> out == [PauseScreen]
    ensures g.paused ==> |out| == Board.Height * Board.Width
    ensures g.paused ==>
              forall y, x | 0 <= y < Board.Height && 0 <= x < Board.Width ::
                out[y * Board.Width + x] == Callback(Engine.Draw(x, y, Board.Cell(g.engine.rows, x, y)))
  {
    g' := g.(paused := !g.paused);
    if g'.paused {
      out := [PauseScreen];
    } else {
      var events := Engine.SyncAll(g.engine);
      out := Callbacks(events);
    }
  }

  /** The `switch` on the key. */
  method Dispatch(g: Game, key: Key, rand: nat -> uint8) returns (g': Game, out: seq<Output>)
    requires Valid(g)
    ensures Valid(g') && g'.timeCount == g.timeCount && g'.refresh == g.refresh
    ensures g'.paused == (g.paused != (key == Enter))
    ensures g.engine.gameOver ==> g'.engine.gameOver
    ensures key.Unbound? ==> g' == g && out == []
  {
    var moved;
    match key {
      case Up => g', moved, out := Step(g, Engine.Rotate, rand);
      case Down => g', moved, out := Step(g, Engine.Down, rand);
      case Left => g', moved, out := Step(g, Engine.Left, rand);
      case Right => g', moved, out := Step(g, Engine.Right, rand);
      case Space => g', out := HardDrop(g, rand);
      case Enter => g', out := Pause(g);
      case Unbound(_) => g' := g; out := [];
    }
  }

  /** A key that arrives while paused and is not Enter. */
  predicate Dropped(g: Game, input: Input)
  {
    g.paused && input.Pressed? && input.key != Enter
  }

  /** One pass of `game_run`.  The timer ticks (not while paused) and may
      push the brick down; a key is then read.  While paused every key but
      Enter is dropped, and the pass ends there without the redraw, leaving
      the refresh request for a later pass.  Otherwise the key is handled,
      and a pending refresh syncs the board and prints the side panel. */
  method Run(g: Game, input: Input, rand: nat -> uint8) returns (g': Game, out: seq<Output>)
    requires Valid(g)
    ensures Valid(g')
    ensures g'.paused == (g.paused != (input == Pressed(Enter)))
    ensures g.engine.gameOver ==> g'.engine.gameOver
    ensures g'.timeCount == Timer(g.paused, g.timeCount, g.info.level).1
    ensures var fire := Timer(g.paused, g.timeCount, g.info.level).0;
            Dropped(g, input) ==>
              g'.refresh == (g.refresh || fire) &&
              (!fire ==> g'.engine == g.engine && g'.info == g.info && out == [])
    ensures !Dropped(g, input) ==> !g'.refresh
    ensures var fire := Timer(g.paused, g.timeCount, g.info.level).0;
            !Dropped(g, input) && (fire || input.Pressed? || g.refresh) ==>
              g'.engine.backup == g'.engine.rows && |out| > 0 && out[|out| - 1] == InfoUpdate(g'.info)
    ensures var fire := Timer(g.paused, g.timeCount, g.info.level).0;
            !fire && input == NoKey && !g.refresh ==>
              g' == g.(timeCount := g'.timeCount) && out == []
  {
    var (fire, count) := Timer(g.paused, g.timeCount, g.info.level);
    g' := g.(timeCount := count);
    out := [];
    if fire {
      g' := g'.(refresh := true);
      var moved, step;
      g', moved, step := Step(g', Engine.Down, rand);
      out := out + step;
    }
    if input.Pressed? {
      if Dropped(g, input) {
        return;
      }
      var step;
      g', step := Dispatch(g', input.key, rand);
      out := out + step;
      g' := g'.(refresh := true);
    }
    if g'.refresh {
      var e, redraw := Engine.Sync(g'.engine);
      g' := g'.(engine := e, refresh := false);
      out := out + Callbacks(redraw) + [InfoUpdate(g'.info)];
    }
  }

  /** `main`: the engine starts on an empty board (the backup map is a
      zero-initialised static), the counters take their initial values and
      the game starts paused, with the pause screen shown. */
  method Start(rand: nat -> uint8) returns (g: Game, out: seq<Output>)
    ensures Valid(g) && g.paused && !g.engine.gameOver && !g.refresh
    ensures g.info == StartInfo && g.timeCount == 0 && g.engine.draws == 2
    ensures g.engine.backup == Board.EmptyMap()
    ensures |out| == 2 + Board.Height * Board.Width && out[0] == Callback(Engine.Preview(Shapes.PreviewTable[g.engine.next.kind]))
    ensures out[|out| - 1] == PauseScreen
  {
    var e, events := Engine.Init(Board.EmptyMap(), rand, 0);
    var pauseScreen;
    g, pauseScreen := Pause(Game(e, StartInfo, false, 0, false));
    out := Callbacks(events) + pauseScreen;
  }

  /** The loop of `main`: one pass of `game_run` per input until the game is
      over.  The passes run are the first `passes` inputs; the loop stops
      early only on game over, and a game once over stays over. */
  method Play(g: Game, inputs: seq<Input>, rand: nat -> uint8) returns (g': Game, out: seq<Output>, passes: nat)
    requires Valid(g)
    ensures Valid(g') && passes <= |inputs|
    ensures passes < |inputs| ==> g'.engine.gameOver
    ensures g.engine.gameOver ==> passes == 0 && g' == g && out == []
  {
    g' := g;
    out := [];
    passes := 0;
    while passes < |inputs| && !g'.engine.gameOver
      invariant Valid(g') && passes <= |inputs|
      invariant g.engine.gameOver ==> passes == 0 && g' == g && out == []
    {
      var step;
      g', step := Run(g', inputs[passes], rand);
      out := out + step;
      passes := passes + 1;
    }
  }
}
