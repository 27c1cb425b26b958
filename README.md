# wordtool vocabulary game — a Dafny model

wordtool is a Streamlit app, `app.py`. It reads a vocabulary PDF and serves a
browser quiz game. The game shows an English word. Bubbles rise from the
bottom of the screen, each showing a meaning, and the player taps the bubble
with the right meaning before the clock runs out.

This project models the two parts of `app.py` that hold logic. It proves
what they promise.

- **Vocabulary extraction** (`parse_pdf`). It turns the tables extracted
  from the PDF into a list of word/meaning entries.
  - Header rows and empty rows are skipped.
  - Each row can yield a pair from columns 1/2 and a pair from columns 4/5.
  - Cells are cleaned with Python's `str.strip()`. Line feeds in a meaning
    become spaces.
  - An exception anywhere discards everything.
  - Modules: `PyStr` models the two string operations. `VocabParse` models
    the row loop, as a specification function (`Parsed`) and as the nested
    loops of the source (`ParsePdf`).
- **The quiz game**, JavaScript inside `get_game_html`.
  - `GameSpec` models the script's globals as a `GameState` value. Each
    function (`startGame`, `pickNewWord`, `spawnWave`, `handleInput` with
    `hitFruit`, one `loop` frame, `Fruit.update`) is a transition on that
    state.
  - `GameProperties` proves what those transitions guarantee: scoring,
    the topmost-first hit test, the wave policy, the countdown, the spawn
    cadence, and an invariant of every reachable state.
  - `GameEngine` is the imperative model.
    - `Fruit` is a class whose `Update` changes its fields in place.
    - `Game` is a class holding the globals, with `fruits` a sequence of
      `Fruit` objects.
    - Each method has the source's loops and splices, and is proved to
      perform its `GameSpec` transition.
    - The entry points (the constructor, `StartGame`, `HandleInput` and
      `Loop`) are proved to keep the invariant `Valid()`. The methods they
      call are proved to keep the bubble list free of duplicate objects,
      and `Valid()` follows from their transitions.
- `Wrappers` holds the `Option` type.

Every call to `Math.random()` is an explicit parameter:
- the target index `idx`;
- the wave coin `two`;
- one `Draw` per bubble, holding the "is target" coin, the distractor index
  and the launch values.

Timestamps are whole milliseconds (`nat`). Positions and velocities are
`real`.

The game in `app.py` is simple in these respects, and the model keeps it so:
- the target is drawn with replacement, so the same word can come again at
  once (app.py:393-398);
- a new target takes effect at once; bubbles of the old target that are
  still flagged correct keep scoring +10 (app.py:329-345);
- `timeLeft` drops by at most one per frame, however long the frame
  (app.py:454);
- bubbles move a fixed step per frame, whatever the elapsed time
  (app.py:193-197);
- no best score is kept: the score is a page global (app.py:130) that `startGame` resets (app.py:429);
- a wave is one or two bubbles, the first one forced to be correct when no
  bubble flagged correct is on screen (app.py:400-421).

## Model

| member | source | states |
|---|---|---|
| PyStr.IsSpace | app.py:20 | the characters `str.strip()` removes, Python's Unicode whitespace; space, tab, line feed and carriage return are among them, and no ASCII letter or digit is |
| PyStr.FirstNonSpace | app.py:20 | the start index of `str.strip()`: every character skipped is whitespace and the one it stops at is not |
| PyStr.EndNonSpace | app.py:20 | the end index of `str.strip()`: every character dropped from the end is whitespace and the last one kept is not |
| PyStr.Strip | app.py:20-21 | `str.strip()` yields an infix of the cell with no whitespace at either end; what is cut from both sides is whitespace; it is empty exactly when the cell is all whitespace |
| PyStr.ReplaceNewlines | app.py:21 | `replace('\n', ' ')` keeps the length, turns every line feed into a space, leaves no line feed and keeps every other character in place |
| PyStr.ReplaceKeepsStripped | app.py:21 | replacing line feeds after stripping keeps the meaning stripped, and keeps it non-empty exactly when it was non-empty |
| VocabParse.Truthy | app.py:19 | Python truthiness of a cell: present and not the empty string (a cell of spaces is truthy) |
| VocabParse.IsSkipped | app.py:17 | the `continue` test: an empty row, a first cell "No.", or a second cell "Word" |
| VocabParse.Raises | app.py:17 | the `IndexError` of the header test: a one-cell row whose cell is not "No." (the test then reads `row[1]`); a raising row is never a skipped one |
| VocabParse.PairAt | app.py:19-28 | a pair is taken only when the row is long enough and both cells are truthy, and it is taken whenever, in addition, neither cell is all whitespace; it is at most one entry, a valid one, whose word is the stripped word cell and whose meaning is the stripped meaning cell with line feeds made spaces |
| VocabParse.RowEntries | app.py:17-28 | a row raises exactly when it is a one-cell row whose cell is not "No."; an empty row, a "No." row or a "Word" row yields nothing; otherwise at most two valid entries, none from a row shorter than 3 cells, at most one from a row shorter than 6, and the column-1 entry before the column-4 entry; a row that neither raises nor is skipped yields exactly its column-1/2 pair followed by its column-4/5 pair |
| VocabParse.ExtractRows | app.py:16-28 | the row loop of one table as a value: the entries of its rows in order, or an error once a row raises; its properties are `RowsRaiseIff`, `RowsValid`, `RowsAppend` and `RowsLength` |
| VocabParse.ExtractTables | app.py:13-28 | the loops over pages and tables as a value: the tables' entries in order, or an error once any row raises; its properties are `TablesRaiseIff` and `TablesAppend` |
| VocabParse.Parsed | app.py:9-32 | what `parse_pdf` returns: the extracted entries, or the empty list on an exception; its properties are `ParsedAllOrNothing`, `ParsedEntriesValid` and `ParsedLength` |
| VocabParse.CollectRow | app.py:17-28 | the body of the row loop reports the `IndexError` exactly when the row raises, and otherwise appends what `RowEntries` says, in order |
| VocabParse.CollectTable | app.py:16-28 | the loop over a table's rows raises exactly when `ExtractRows` does, and otherwise appends the table's entries in row order |
| VocabParse.ParsePdf | app.py:9-32 | the nested loops return exactly `Parsed(tables)`: every entry in table and row order, or the empty list once any row raises |
| VocabParse.RowsErrorPersists | app.py:16-17 | once a prefix of a table's rows raises, the whole table raises |
| VocabParse.TablesErrorPersists | app.py:15-17 | once a prefix of the tables raises, the whole extraction raises |
| VocabParse.RowsRaiseIff | app.py:16-17 | a table's rows raise exactly when one of its rows raises |
| VocabParse.TablesRaiseIff | app.py:15-17 | the extraction raises exactly when some row of some table raises |
| VocabParse.ParsedAllOrNothing | app.py:29-31 | one raising row anywhere empties the whole result, even after earlier entries; with no raising row the result is the full extraction |
| VocabParse.RowsValid | app.py:19-28 | every entry a table's rows yield has a non-empty stripped word and meaning and no line feed in the meaning |
| VocabParse.ParsedEntriesValid | app.py:9-32 | every entry `parse_pdf` returns has a non-empty stripped word and meaning and no line feed in the meaning |
| VocabParse.RowsAppend | app.py:16-28 | extraction respects input order: the rows of a table split in two yield the entries of the first part followed by those of the second |
| VocabParse.TablesAppend | app.py:13-28 | input order is kept across tables and pages: tables split in two yield the first part's entries, then the second's |
| VocabParse.RowsLength | app.py:16-28 | a table yields at most two entries per row |
| VocabParse.ParsedLength | app.py:9-32 | `parse_pdf` returns at most two entries per table row |
| GameSpec.Initial | app.py:130-138 | the globals at load: score 0, the full duration, not playing, no target, no bubbles, both clocks 0; `InitialInv` proves the invariant of it |
| GameSpec.ValidPick | app.py:395 | the only constraint on a random vocabulary index, the one `pickNewWord` draws and the one a distractor draws (app.py:415): it lies inside the vocabulary when that is non-empty; which index is drawn is left free |
| GameSpec.Moved | app.py:193-197 | `Fruit.update` changes only the position and the vertical speed; `MovedTimesClosedForm` gives the effect of `n` updates |
| GameSpec.Hits | app.py:307 | the circular hit test, strictly inside the radius; `HitIndex` is stated in terms of it |
| GameSpec.HasCorrect | app.py:403 | the `some` test of `spawnWave`: some bubble on screen is flagged correct, whatever meaning it shows; the wave guarantee of `Wave`, `WaveGuarantee` and `StaleFlagSuppressesGuarantee` is stated in its terms |
| GameSpec.HitIndex | app.py:301-310 | the bubble a tap removes is hit (strictly inside its radius), and no bubble above it is hit; there is none exactly when no bubble is hit |
| GameSpec.HitIndexTopmost | app.py:301-310 | a hit bubble with no hit bubble above it is the one the tap removes |
| GameSpec.Remove | app.py:334 | `splice(k, 1)` shortens the list by one, keeps the bubbles before `k` and shifts those after it down by one |
| GameSpec.StepAll | app.py:481-485 | the `forEach` pass with its splices, as a value; its properties are `StepAllLength`, `StepAllOnScreen`, `StepAllDropsOnlyOffScreen`, `StepAllOrigins` and `StepAllSkipsFollower` |
| GameSpec.VisitAt | app.py:481-485 | the `forEach` callback at one index changes the length by at most one |
| GameSpec.StepFromStart | app.py:481-485 | before the first callback, the whole `forEach` pass is still to come |
| GameSpec.VisitAtStep | app.py:481-485 | one callback and the advance of the index keep the result of the whole pass, including after a splice that makes the index skip a bubble |
| GameSpec.VisitRemovedStep | app.py:484 | the previous row in the case where the bubble is spliced out |
| GameSpec.VisitKeptStep | app.py:482 | the previous row in the case where the bubble stays |
| GameSpec.PickWord | app.py:393-398 | `pickNewWord` changes only the target; with a non-empty vocabulary the new target is an entry of it, and with an empty one nothing changes |
| GameSpec.Start | app.py:423-443 | `startGame` as a transition; `StartResets` and `StartKeepsInv` state what it does |
| GameSpec.Hit | app.py:329-345 | `hitFruit` removes one bubble and changes only the bubbles, the score and the target: +10 for a bubble flagged correct, otherwise -5 with the target kept |
| GameSpec.Tap | app.py:293-312 | `handleInput` changes nothing while not playing; a tap never touches the clocks or the playing flag, and removes at most one bubble |
| GameSpec.NewFruit | app.py:155-191 | a new bubble starts wholly below the bottom edge of the screen |
| GameSpec.WaveFruit | app.py:407-419 | bubble `i` of a wave: the first one is forced to be correct when no bubble flagged correct is on screen; a correct one shows the target meaning, and a distractor never does unless that meaning is "Wrong" |
| GameSpec.WaveFruits | app.py:406-420 | the first `n` bubbles of a wave, in push order; `WaveFruitsSnoc` relates it to the loop |
| GameSpec.Wave | app.py:400-421 | the bubbles `spawnWave` pushes: at most two, and none exactly when there is no target |
| GameSpec.Spawn | app.py:400-421 | `spawnWave` as a transition; `SpawnAppends` states what it does |
| GameSpec.Tick | app.py:454 | the countdown test: a new whole second has begun since the previous frame; `FrameClock` and `RunCountdown` use it |
| GameSpec.SpawnDue | app.py:469-472 | the spawn check changes only the bubbles and the spawn clock; the clock is either kept, and then nothing changes, or set to the frame's timestamp |
| GameSpec.SpawnAndStep | app.py:469-485 | the spawn check and the bubble pass change only the bubbles and the spawn clock |
| GameSpec.WaveFruitsSnoc | app.py:406-420 | a wave of `n + 1` bubbles is the wave of `n` followed by bubble `n`, pushed in loop order |
| GameSpec.Frame | app.py:445-494 | a frame never changes the score or the target |
| GameSpec.Run | app.py:445-494 | frames without taps in between never change the score or the target |
| GameProperties.MovedTimesClosedForm | app.py:193-197 | after `n` updates a bubble has drifted `n * vx`, its vertical speed has grown by `n * gravity`, its height is `y + n * vy + n(n-1)/2 * gravity`, and nothing else has changed |
| GameProperties.StepAllLength | app.py:481-485 | a frame never adds bubbles |
| GameProperties.StepAllOnScreen | app.py:481-485 | when no bubble falls past the limit, every bubble is updated once, in place, and none is dropped |
| GameProperties.StepAllDropsOnlyOffScreen | app.py:484 | a bubble whose update keeps it on screen is still there after the frame, at its own index or an earlier one, updated or, after a splice, untouched |
| GameProperties.StepAllOrigins | app.py:481-485 | every bubble after a frame comes from the input bubble at its own index or a later one, either updated and on screen or left untouched |
| GameProperties.StepAllSkipsFollower | app.py:481-485 | the bubble after a spliced one is neither moved nor checked in that frame, even when it is itself past the limit |
| GameProperties.TapMissChangesNothing | app.py:293-312 | a tap while not playing, or one that hits nothing, changes nothing |
| GameProperties.TapHitsTopmost | app.py:301-345 | a hit removes exactly the topmost hit bubble and keeps the others in order; the bubble's flag alone decides +10 with a new target from the vocabulary, or -5 with the same target; the score has no floor |
| GameProperties.StartResets | app.py:423-443 | with fewer than four entries, start changes nothing; otherwise it resets score, clock and bubbles, starts playing with a target from the vocabulary, and leaves the frame clocks alone |
| GameProperties.WaveShape | app.py:400-421 | no wave without a target, otherwise one or two bubbles by the coin, all launched from just below the screen with radius 60; a bubble flagged correct shows the target meaning; a distractor shows "Wrong" or some entry's meaning, and never the target meaning unless that meaning is "Wrong" |
| GameProperties.WaveGuarantee | app.py:403-413 | with a target and no bubble flagged correct on screen, the first new bubble is flagged correct and shows the target meaning |
| GameProperties.StaleFlagSuppressesGuarantee | app.py:403-409 | one bubble still flagged correct, from any earlier target, switches the guarantee off: the first new bubble is correct only by the coin |
| GameProperties.SpawnAppends | app.py:400-421 | `spawnWave` keeps the bubbles on screen as they are and in order, adds at most two after them, and changes nothing else |
| GameProperties.FrameClock | app.py:446-467 | `timeLeft` drops by one exactly when a new whole second has begun, and never by more; the game stops exactly when it reaches zero, and that frame neither spawns nor moves bubbles; a frame while not playing changes nothing |
| GameProperties.FrameSpawnCadence | app.py:469-485 | a frame that goes on playing spawns a wave exactly when more than 1200 ms have passed since the last spawn, restarts the spawn clock then, and steps all bubbles |
| GameProperties.RunIdle | app.py:446 | frames after the game is over change nothing |
| GameProperties.RunCountdown | app.py:454-466 | with one new second per frame, the game is still playing after `k` frames exactly when `k` is less than the time that was left |
| GameProperties.InitialInv | app.py:130-138 | the state at load satisfies the invariant: the target comes from the vocabulary, a running game has a target and at least four entries, and the score is a multiple of five |
| GameProperties.StartKeepsInv | app.py:423-443 | `startGame` keeps the invariant |
| GameProperties.TapKeepsInv | app.py:293-345 | a tap keeps the invariant; +10 and -5 keep the score a multiple of five |
| GameProperties.FrameKeepsInv | app.py:445-494 | a frame keeps the invariant, the frame that ends the game included |
| GameEngine.Fruit.constructor | app.py:155-191 | a new bubble has radius 60, starts 70 below the bottom edge, falls with gravity 0.25 times the speed setting, and has the drawn launch values, the meaning and the flag |
| GameEngine.Fruit.Update | app.py:193-197 | the bubble moves by its old velocity, then gravity is added to its vertical speed |
| GameEngine.StatesOf | app.py:134 | the states of the bubble objects of the list, in order |
| GameEngine.Game.constructor | app.py:130-138 | the globals at load: score 0, the full duration, not playing, no target, no bubbles, both clocks 0; the invariant holds |
| GameEngine.Game.PickNewWord | app.py:393-398 | the target becomes the entry at the drawn index, and nothing else changes; with an empty vocabulary nothing changes |
| GameEngine.Game.StartGame | app.py:423-443 | performs `Start` and keeps the invariant |
| GameEngine.Game.HitFruit | app.py:329-345 | performs `Hit`: the splice and the score change by the bubble's flag, with a new target after a correct bubble; the bubble list keeps distinct objects |
| GameEngine.Game.HandleInput | app.py:293-312 | the reverse search with `break` performs `Tap`, removing the topmost hit bubble, and keeps the invariant |
| GameEngine.Game.HasCorrectOnScreen | app.py:403 | the result is true exactly when some bubble on screen is flagged correct |
| GameEngine.Game.WaveBubble | app.py:407-419 | bubble `i` of a wave is a new object with the forced-or-coin flag and the target meaning, a random meaning, or "Wrong" |
| GameEngine.Game.NewWave | app.py:406-420 | the loop creates `count` new, distinct bubbles, whose states are the wave in push order |
| GameEngine.Game.AppendFruits | app.py:419 | the push puts the new bubbles after the old ones; the list keeps distinct objects |
| GameEngine.Game.SpawnWave | app.py:400-421 | performs `Spawn`; the old bubble objects stay in front and every added one is new |
| GameEngine.Game.UpdateAt | app.py:482 | `update` on bubble `i` moves that bubble and no other |
| GameEngine.Game.VisitFruit | app.py:481-485 | the `forEach` callback at index `i` performs `VisitAt`: update, then a splice when the bubble is past the limit |
| GameEngine.Game.StepFruits | app.py:481-485 | the `forEach` pass, as a loop whose index always advances, performs `StepAll`, skipped bubbles included |
| GameEngine.Game.SpawnIfDue | app.py:469-472 | restarts the spawn clock and spawns a wave exactly when more than 1200 ms have passed, as `SpawnDue` says |
| GameEngine.Game.SpawnAndStepFruits | app.py:469-485 | the spawn check, then the bubble pass |
| GameEngine.Game.Loop | app.py:445-494 | one `loop(timestamp)` performs `Frame` (countdown, game over, spawn cadence, bubble pass) and keeps the invariant |

## Left out

- Opening the PDF and extracting its tables with `pdfplumber` (app.py:12-14) is foreign-library I/O. The extracted tables, page after page, are the input.
- A row that is `None` is not represented. The row loop skips it just like an empty row, which the model covers.
- Cells hold strings or `None`. `str()` is applied only to cells that passed the truthiness test (app.py:19 and 24), which are non-empty strings, so it is the identity there. Other cell types are not modelled.
- The only exception modelled is the `IndexError` of the header test. Errors raised inside `pdfplumber` are outside the model.
- The error message shown with `st.error`, and the rest of the Streamlit page, are left out: they are UI.
- Canvas drawing, `resize`, `clearRect` and the DOM updates are left out because they are presentation only. This includes `innerText` writes, the timer bar, floating texts and the game-over screen.
- Audio is left out because it is browser media I/O. This covers the background music and `playHitSound`.
- `ImpactRing` and `Particle` effects are left out because they never affect game state.
- Event-listener wiring and `requestAnimationFrame` scheduling are left out. A tap is an explicit `HandleInput` call. A frame is an explicit `Loop` call, and `Run` is a sequence of frames.
- A second `startGame` while a game runs would schedule a second frame chain. The model has no scheduler, so this is not modelled.
- GameEngine.Fruit.constructor: the launch values are parameters of the `Draw`. Their ranges are not stated: the horizontal position within the margins, the drift in [-0.75, 0.75), and the upward speed `sqrt(2 * gravity * distance)` times a factor in [0.95, 1.05). `Math.sqrt` and floating-point rounding are left out.
- GameEngine.Fruit.constructor: the bubble's colour and its unused `sliced` flag are not modelled.
- The canvas height is a fixed part of `Config`; the width appears only through the launch position. A resize during a game is not modelled.
- Numbers are exact reals and unbounded integers. JavaScript double rounding in positions, and in `timestamp - dt`, is not modelled. `timestamp - dt` is taken to equal the previous `lastTime`.
- The apex target `targetY = height * 0.35` (app.py:165) only enters the upward speed, which is a parameter here, so it does not appear in the model. The launch height `height + radius + 10` (app.py:160) is modelled.
