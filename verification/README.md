# Tetris engine and MSP430 terminal front end, modelled in Dafny

This project models the portable Tetris engine of `src/Tetris.c` and the
platform code around it:

- the serial ring buffer, key decoder, terminal emitters and screen layer of
  the MSP430 LaunchPad build;
- the game loop of the Windows build: scoring, levels, the pause switch and
  the timer and key dispatch.

Everything is modelled functionally. Each piece of static state becomes a
datatype, and each C function becomes a Dafny function or method from the old
state to the new one. The engine's four callbacks become a returned list of
events: cell draws, preview values and line counts. The random number, the
timer tick and the key read are inputs.

The modules follow the source:

- `Bits` (`bits.dfy`): fixed-width integer ranges and `GET_BIT` on 16-bit words
- `Shapes` (`shapes.dfy`): `brick_table`, `rotate_mask`, `preview_brick_table`, `brick_start_y` and facts about them
- `Board` (`board.dfy`): the 20×10 map of 16-bit rows, `draw_brick`, `clear_brick`, `is_conflict`, `line_clear_check`
- `Engine` (`engine.dfy`): `create_new_brick`, `tetris_init`, `tetris_move`, `tetris_sync`, `tetris_sync_all`
- `RingBuffer` (`fifo.dfy`): `fifo_t` with free-running 32-bit counters, refined to a byte queue
- `KeyDecoder` (`key.dfy`): the three-state `key_get` machine over the serial input
- `Term` (`term.dfy`): the ECMA-48 emitters of `term.c`, plus an independent reader of control functions
- `Ui` (`ui.dfy`): `wtoa`, the padded side panel, `ui_draw_box` and `ui_print_preview`
- `Host` (`host.dfy`): `get_remove_line_num`, `game_pause`, `game_run` and the loop of `main` in the Windows build

Notes on the model:

- **`tetris_move`.** It returns true when the brick moved, which is what the
  code does. A direction outside the enumeration leaves the brick where it is
  and also returns true.
- **Rotation.** A rotation is tested with the probe shape from `rotate_mask`,
  then committed with the display shape from `brick_table`.
  - Every display shape lies inside its probe except Z at rotation 2.
  - For Z at rotation 2, `ZRotationTwoOverlaps` gives a concrete board. On it
    the probe is free, but the committed shape covers a frozen cell.
  - The model keeps the source's tables.
  - `ZRotationTwoErasesFrozenCell` states the consequence in the engine. Once
    that shape is drawn over a frozen cell, the `clear_brick` at the start of
    the next move erases the cell, so a frozen block disappears from the map.
  - Even so, the brick always stays between the walls and above the floor
    (`CommittedFits`), because each probe's extents enclose its display shape.
- **Terminal output.** Every byte string the terminal layer writes is read
  back by `Term.Parse`, a small reader of ECMA-48 control functions. Section
  5.4 of ECMA-48 defines a control sequence as CSI `ESC [`, then parameter
  bytes, then optional intermediate bytes (02/00 to 02/15), then one final
  byte. `Term.Parse` reads the subset without intermediate bytes, which is
  all that the emitters produce. The contracts state the control functions that
  come back, for example CURSOR POSITION (section 8.3.21) with its row and
  column, rather than restating the bytes.
- **Ring buffer.** A buffer is abstracted to the sequence of bytes it holds,
  and every operation is proved to act on that sequence as a queue. The
  abstraction holds under 32-bit wrap-around of both counters.
- **Integer widths.** Every integer keeps its C width:
  - `lines` and `score` wrap at 2^16;
  - `level` is an 8-bit `lines / 25 + 1`, so it wraps to 0 at 6375 lines
    (`LevelWraps`);
  - the side panel prints level 0 as an empty field, because `wtoa(0)` gives
    no digits;
  - the engine's map rows are `int16_t` and are held as 16-bit words, and the
    full-row test `map[i] >= 0x3FF` is a signed comparison, so a row with
    bit 15 set counts as negative and is never full (`Board.FullIsSigned`);
  - the brick coordinates are `int8_t` (`Engine.CoordinatesFitInt8`).

## Model

| member | source | states |
|---|---|---|
| `Engine.SpawnOf` | src/Tetris.c:145-159 | a newly created brick fits the board (between the walls, above the floor) |
| `Engine.SpawnShape` | src/Tetris.c:122-159 | a spawned brick has kind `rand % 7`, column 3, the kind's start row in -4..-2, rotation 0 and the kind's first display shape |
| `Engine.CoordinatesFitInt8` | src/Tetris.c:36-45 | the coordinates of the falling brick and of every candidate built from it fit the `int8_t` fields of `brick_t` |
| `Engine.AboveFloor` | src/Tetris.c:312-319 | the falling brick's origin row never reaches the floor, so a run of successful down moves is finite |
| `Engine.OwnPlaceIsFree` | src/Tetris.c:432-436 | a brick never conflicts with the map it was just cleared from |
| `Engine.Init` | src/Tetris.c:335-363 | `tetris_init` leaves a valid state with only the first brick on an empty map. It reports the next brick's preview first, then one draw per cell, each equal to whether the brick covers that cell. The backup map is untouched |
| `Engine.SyncAll` | src/Tetris.c:195-208 | `tetris_sync_all` draws all 200 cells in row-major order, each with its current occupancy |
| `Engine.Sync` | src/Tetris.c:165-188 | `tetris_sync` draws exactly the cells that differ from the backup, with their new value, in increasing position, then copies the map into the backup; nothing is drawn when the map already equals the backup, so a second sync in a row draws nothing |
| `Engine.SyncRow` | src/Tetris.c:171-183 | a row equal to its backup is skipped; otherwise each changed cell is reported once |
| `Engine.Move` | src/Tetris.c:408-480 | free move: the result is true; only x-1, x+1, y+1 or the next rotation changes, and the map loses the old brick's cells and gains the new ones; blocked left, right or rotate: the result is false and the state is unchanged; blocked down: the brick freezes; game over is raised iff `y + 1 <= 0` and is never cleared; the line count and the new preview are reported exactly once; `next` falls and a fresh brick is spawned |
| `Engine.CommittedFits` | src/Tetris.c:427-447 | a rotation whose probe is free commits a display shape that fits the board |
| `Engine.Freeze` | src/Tetris.c:452-473 | the blocked-down branch: the new map is the line-cleared map with the next brick drawn, and the events are `[LinesRemoved(count of full rows), Preview(table entry of the new next brick)]` |
| `Engine.RotateFourTimes` | src/Tetris.c:424-429 | four rotations bring a brick back to its rotation and shape |
| `Board.EmptyMap` | src/Tetris.c:351-353 | the cleared map is valid and has no occupied cell |
| `Board.NoConflictFits` | src/Tetris.c:293-323 | a placement that `is_conflict` accepts lies between the walls and above the floor |
| `Board.RowMaskCells` | src/Tetris.c:227-248 | the bits `draw_brick` sets in a row are exactly the columns the brick covers there |
| `Board.DrawBrick` | src/Tetris.c:227-248 | after `draw_brick` a cell is occupied iff it was before or the brick covers it; the map stays valid |
| `Board.ClearBrick` | src/Tetris.c:258-277 | after `clear_brick` a cell is occupied iff it was before and the brick does not cover it |
| `Board.ClearThenDraw` | src/Tetris.c:474-477 | clearing a drawn brick and drawing it again gives back the same map |
| `Board.ZRotationTwoOverlaps` | src/Tetris.c:97-119 | a concrete map on which the Z rotation-2 probe is free while the committed shape covers a frozen cell |
| `Board.ZRotationTwoErasesFrozenCell` | src/Tetris.c:258-277 | after the overlapping Z rotation-2 shape is drawn on that map, `clear_brick` of the same brick leaves the frozen cell (2, 2) empty |
| `Board.IsConflict` | src/Tetris.c:288-324 | `is_conflict` is true iff some occupied cell of the shape is outside the walls, or, on or below row 0, below the floor or on a frozen cell |
| `Board.RowConflicts` | src/Tetris.c:293-320 | one grid row of the scan is true iff one of its occupied cells conflicts |
| `Board.KeptCount` | src/Tetris.c:378-389 | every row is either counted as full or kept, and every kept row is a row of the map that is not full |
| `Board.ShiftDown` | src/Tetris.c:383-387 | the inner loop drops row i, moves the rows above it down one and empties row 0 |
| `Board.FullIsSigned` | src/Tetris.c:380 | the full-row test on an `int16_t` row: on valid rows it is `>= 0x3FF`, and a row with bit 15 set (negative) is never full |
| `Board.ClearLines` | src/Tetris.c:368-396 | `line_clear_check` returns the number of full rows and leaves that many empty rows above the non-full rows, in their old order |
| `Board.Cleared` | src/Tetris.c:378-389 | after a line clear no row is full and the top `count` rows are empty |
| `Shapes.DisplayShapesHaveFourCells` | src/Tetris.c:97-106 | every `brick_table` entry has exactly four set bits |
| `Shapes.ProbesNonEmpty` | src/Tetris.c:110-119 | every `rotate_mask` entry has a set bit |
| `Shapes.ProbesEncloseDisplayShapes` | src/Tetris.c:97-119 | each probe's lowest row and leftmost and rightmost columns enclose those of its display shape |
| `Shapes.ProbesCoverDisplayShapesExceptZ2` | src/Tetris.c:97-119 | a display shape lies inside its probe iff it is not Z at rotation 2 |
| `Shapes.ZRotationTwoUncovered` | src/Tetris.c:100-113 | the probe of Z at rotation 2 misses cells (2,1) and (2,2) of the committed shape |
| `RingBuffer.IsPowOf2Correct` | platform/MSP430Launchpad/fifo.c:57-60 | `is_pow_of_2` holds exactly for 0 and the powers of two |
| `RingBuffer.MaskIsMod` | platform/MSP430Launchpad/fifo.c:87-100 | masking a counter with `size - 1` is reduction modulo the size |
| `RingBuffer.SlotAdvance` | platform/MSP430Launchpad/fifo.c:90-98 | advancing a counter by j < size moves its slot j places, wrapping at the end of the storage |
| `RingBuffer.Init` | platform/MSP430Launchpad/fifo.c:64-76 | `fifo_init` hangs unless the size passes `is_pow_of_2`; otherwise the buffer is valid and empty |
| `RingBuffer.IsEmpty` | platform/MSP430Launchpad/fifo.c:178-181 | `in == out` iff the buffer holds no byte |
| `RingBuffer.IsFull` | platform/MSP430Launchpad/fifo.c:189-192 | `out + size == in` iff the buffer holds `size` bytes |
| `RingBuffer.GetC` | platform/MSP430Launchpad/fifo.c:159-169 | `fifo_getc` fails and changes nothing on an empty buffer; otherwise it yields the oldest byte and drops it |
| `RingBuffer.Get` | platform/MSP430Launchpad/fifo.c:133-146 | `fifo_get` returns the `min(len, stored)` oldest bytes and drops them |
| `RingBuffer.Put` | platform/MSP430Launchpad/fifo.c:87-100 | `fifo_put` accepts `min(len, free)` bytes and appends exactly those to the contents |
| `RingBuffer.PutC` | platform/MSP430Launchpad/fifo.c:111-121 | `fifo_putc` fails and changes nothing on a full buffer; otherwise it appends the byte |
| `RingBuffer.PutCIsPutOfOne` | platform/MSP430Launchpad/fifo.c:87-121 | `fifo_putc` behaves as `fifo_put` of one byte |
| `RingBuffer.GetCIsGetOfOne` | platform/MSP430Launchpad/fifo.c:133-169 | `fifo_getc` behaves as `fifo_get` of one byte |
| `RingBuffer.PutThenGet` | platform/MSP430Launchpad/fifo.c:87-146 | bytes come out in the order they went in: after a put, a get of everything returns the old contents followed by the accepted bytes |
| `KeyDecoder.KeyGet` | platform/MSP430Launchpad/key.c:85-153 | one call reads at most three bytes and returns one key. With no input it returns `key_null` in the same state. A state other than lead-1 only arises when the input ran out |
| `KeyDecoder.Resume` | platform/MSP430Launchpad/key.c:91-150 | a sequence split across calls decodes as if it had arrived at once: each state stands for the bytes already read |
| `KeyDecoder.DecodeEncode` | platform/MSP430Launchpad/key.c:74-79 | ESC [ A/B/C/D decode to up/down/right/left and a plain byte other than ESC to itself, in one call that ends in lead-1 |
| `KeyDecoder.BrokenLead` | platform/MSP430Launchpad/key.c:113-131 | ESC followed by anything but `[` is dropped with its follower and gives `key_null` |
| `KeyDecoder.UnknownFinal` | platform/MSP430Launchpad/key.c:133-147 | an unknown final byte gives `key_null`; the `~` of ESC [ 1 ~ then comes out as a plain key |
| `KeyDecoder.RunEncoded` | platform/MSP430Launchpad/key.c:85-153 | decoding what a terminal sends for a sequence of keystrokes gives back their key codes, one per call, in order |
| `Term.Reset` | platform/MSP430Launchpad/term.c:54-61 | `term_reset` reads back as RESET TO INITIAL STATE (ESC c) |
| `Term.Cls` | platform/MSP430Launchpad/term.c:67-75 | `term_cls` reads back as ERASE IN PAGE with parameter 2 |
| `Term.SaveCursor` | platform/MSP430Launchpad/term.c:199-206 | `term_save_cursor` reads back as the sequence with final byte `s` and no parameter |
| `Term.RestoreCursor` | platform/MSP430Launchpad/term.c:212-219 | `term_restore_cursor` reads back as the sequence with final byte `u` and no parameter |
| `Term.SetCursor` | platform/MSP430Launchpad/term.c:119-133 | `term_set_cursor` reads back as CURSOR POSITION with parameters row mod 100, then column mod 100 |
| `Term.CursorParameters` | platform/MSP430Launchpad/term.c:123-130 | the four digits around `;` are parameter bytes that read as row mod 100 and column mod 100 |
| `Term.SetForeground` | platform/MSP430Launchpad/term.c:143-156 | nothing for `defaults`, else SELECT GRAPHIC RENDITION 30 + color mod 10 |
| `Term.SetBackground` | platform/MSP430Launchpad/term.c:163-176 | nothing for `defaults`, else SELECT GRAPHIC RENDITION 40 + color mod 10 |
| `Term.Init` | platform/MSP430Launchpad/term.c:83-110 | `term_init` adopts the colours only if neither is `defaults`, then writes the bytes of the colours it holds |
| `Term.FirstInitWhiteOnBlack` | platform/MSP430Launchpad/term.c:46-110 | the colours start as white on black, so the first `term_init(defaults, defaults)` keeps them and reads back as reset, rendition 1;37;40, then erase page |
| `Term.InitBytes` | platform/MSP430Launchpad/term.c:54-110 | those bytes read back as reset, then rendition 1; 3fg; 4bg, then erase the page, in that order |
| `Term.Puts` | platform/MSP430Launchpad/term.c:184-193 | `term_puts` writes the bytes before the first NUL, in order, and nothing else |
| `Term.PutsString` | platform/MSP430Launchpad/term.c:184-193 | a NUL-free string with its terminator comes out unchanged, whatever follows the NUL |
| `Ui.Digits` | platform/MSP430Launchpad/ui.c:82-87 | decimal digits, most significant first; none exactly for 0 |
| `Ui.DigitsRoundTrip` | platform/MSP430Launchpad/ui.c:76-107 | reading the digits back as a decimal number gives the number, and there is no leading zero |
| `Ui.BufferFit` | platform/MSP430Launchpad/ui.c:116-183 | a 16-bit number and its NUL fit the 6-byte buffers; an 8-bit level and its NUL fit `level_buf[4]` |
| `Ui.Wtoa` | platform/MSP430Launchpad/ui.c:76-107 | `wtoa` writes the digits of `num` followed by NUL and returns their count (0 and the empty string for 0) |
| `Ui.LowDigitsFirst` | platform/MSP430Launchpad/ui.c:82-87 | the conversion loop produces the digits least significant first |
| `Ui.ReverseInPlace` | platform/MSP430Launchpad/ui.c:97-104 | the swap loop reverses the first `len` bytes and keeps the rest |
| `Ui.PaddedValue` | platform/MSP430Launchpad/ui.c:141-183 | a zero-padded field is all digits, reads back as the number, and is as wide as the width or the number, whichever is wider |
| `Ui.FieldReadsBack` | platform/MSP430Launchpad/ui.c:121-131 | a side-panel field reads back as save cursor, cursor position (row, column), the text, restore cursor |
| `Ui.PrintLevel` | platform/MSP430Launchpad/ui.c:116-132 | the level is printed at column 55, row 13, zero-padded to two digits; level 0 prints an empty field, since it has no digits |
| `Ui.PrintPadded` | platform/MSP430Launchpad/ui.c:141-183 | the padding loop writes `width - len` zeros before the digits, none when the number is wider |
| `Ui.PrintLine` | platform/MSP430Launchpad/ui.c:141-157 | the line count is printed at column 54, row 17, zero-padded to three digits |
| `Ui.PrintScore` | platform/MSP430Launchpad/ui.c:167-183 | the score is printed at column 53, row 21, zero-padded to four digits |
| `Ui.PanelReadsBack` | platform/MSP430Launchpad/ui.c:116-183 | a printed panel number reads back, at its position, as digits whose value is the number |
| `Ui.DrawBoxThen` | platform/MSP430Launchpad/ui.c:194-202 | `draw_box` reads back as the background colour, the cursor position and two blanks |
| `Ui.DrawCell` | platform/MSP430Launchpad/ui.c:212-224 | board cell (x, y) is drawn at column 2x + 20, row y + 3, blue if occupied and magenta otherwise |
| `Ui.MapCellsDisjoint` | platform/MSP430Launchpad/ui.c:212-224 | different board cells are drawn on different, non-overlapping screen cells inside columns 20..39 and rows 3..22 |
| `Ui.PreviewBoxes` | platform/MSP430Launchpad/ui.c:231-242 | the 16 preview boxes in row-major order: cell (x, y) is at column 2x + 46, row y + 5, blue iff bit 15 - (4y + x) of the shape is set |
| `Ui.PrintPreview` | platform/MSP430Launchpad/ui.c:226-248 | `ui_print_preview` draws the 16 preview boxes in order, then restores the white background and parks the cursor at (76, 24) |
| `Ui.PreviewReadsBack` | platform/MSP430Launchpad/ui.c:226-248 | the preview output reads back as the boxes' control functions, the white background and the parked cursor |
| `Host.Points` | platform/Windows/main.c:131-147 | points are awarded only for 1 to 4 lines |
| `Host.RemoveLines` | platform/Windows/main.c:127-153 | `get_remove_line_num` adds exactly `line` to `lines` and the points to `score` (both 16-bit), and leaves the level consistent with the lines |
| `Host.NoLinesNoChange` | platform/Windows/main.c:127-153 | the report of 0 lines that every frozen brick sends changes nothing |
| `Host.ClearingTogetherPays` | platform/Windows/main.c:131-147 | clearing n = 2..4 lines at once pays more than n single lines |
| `Host.LevelNeverDecreases` | platform/Windows/main.c:149-150 | below the wrap-around, the level never decreases and rises by at most the number of 25-line steps crossed |
| `Host.LevelWraps` | platform/Windows/main.c:47-150 | at 6375 lines the 8-bit level wraps to 0 |
| `Host.AbsorbCounts` | platform/Windows/main.c:127-150 | absorbing an engine call's line reports adds their sum to `lines` modulo 2^16 and keeps the level consistent |
| `Host.Timer` | platform/Windows/main.c:179-189 | the count advances only when not paused; a firing resets it; at level 12 or more it fires on every tick, paused or not |
| `Host.TimerPeriod` | platform/Windows/main.c:179-189 | at levels 1..11, running from a reset count, the timer fires exactly on every (12 - level)-th tick |
| `Host.PausedTimerStands` | platform/Windows/main.c:179-189 | while paused below level 12 the timer neither moves nor fires |
| `Host.Step` | platform/Windows/main.c:199-212 | one `tetris_move` with the host's counters updated from its line report. A free move changes no counter; a blocked down move counts the full rows once |
| `Host.HardDrop` | platform/Windows/main.c:213-214 | the space key drops the brick until it freezes: the loop ends, the next brick falls, and exactly one line report and one preview are produced |
| `Host.Pause` | platform/Windows/main.c:159-169 | `game_pause` toggles the flag; entering the pause shows the pause screen, leaving it redraws all 200 cells |
| `Host.Dispatch` | platform/Windows/main.c:199-221 | only Enter toggles the pause; an unbound key changes nothing |
| `Host.Run` | platform/Windows/main.c:172-236 | timer: it ticks as `Timer` says; pause toggle: it toggles iff the key is Enter; paused non-Enter key: the key is dropped before the redraw, leaving any refresh request pending; otherwise: a pending refresh syncs the board (backup equals map) and ends with the side-panel update |
| `Host.Start` | platform/Windows/main.c:239-248 | the game starts on an empty board with level 1, no lines, no score, and paused behind the pause screen |
| `Host.Play` | platform/Windows/main.c:250-253 | the main loop runs one pass per input and stops early only on game over |

## Left out

- The UART driver, its interrupt handlers and the MSP430 `main.c`: hardware
  set-up and concurrency. The ring buffer is modelled sequentially.
- A byte the UART's transmit buffer refuses. Terminal output is the byte
  sequence handed to `TERM_PUTC`, and `term_puts`' retry loop is taken to
  succeed.
- `rand`/`srand`, `delayMS`, `kbhit`, `jkGetKey` and `getch`. They become
  inputs:
  - the random byte is a function of a draw counter;
  - each pass of `game_run` gets an optional key.
- The `JK_*` key codes, which are not part of this model. Keys are a
  datatype with one constructor per handled key and one for any other code.
- `ui_init`, `ui_print_game_over` and `ui_print_game_pause` in both UIs, and
  the whole Windows `ui.c`: fixed screen layout with no logic. The host
  model records the pause screen and the side-panel update as outputs.
- `game_over` and the wait for Enter at the end of `main`: fixed output
  once the game is over.
- `tetris_is_game_over` as a separate function: it reads one flag, the
  `gameOver` field of the engine state, which `Host.Play` tests.
- The callback prototypes of `Tetris.h`, which differ from those `Tetris.c`
  defines. The model follows `Tetris.c`: a `bool` box and a 16-bit preview
  value.
- The Windows `get_preview_brick`, which dereferences its argument as a
  pointer. The model passes the value on as the engine produces it.
- The pointer moved before the start of the buffer in `wtoa(0)`. The
  observable result, the empty string and length 0, is modelled.
- `Engine.Move`: the `int8_t` coordinates of `brick_t` are unbounded
  integers in the model. `Engine.CoordinatesFitInt8` proves that no value
  the engine computes leaves the `int8_t` range, so no wrap-around can
  occur.
- `Host.LevelNeverDecreases`: it holds only below 6375 lines, because the
  source's 8-bit level wraps there (`Host.LevelWraps`).
