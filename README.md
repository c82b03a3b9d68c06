# A verified model of a Life-like cellular automaton kernel

This project models the simulation kernel of `chips`, a viewer for Life-like cellular automata on a toroidal grid, in Dafny, and proves properties of the model. It covers five parts:

- **Rule compiler** (`Rules`, after `LifeLike` in `src/lib.rs`). A rule string `B<digits>/S<digits>` is compiled into a table of 18 booleans, one slot per (status, live-neighbour count). `encode_index` and `decode_index` pack and unpack a slot. `simulate` reads the table. The direct Conway rule `simulate_with_logic` is used to cross-check it.
- **Neighbourhood addressing** (`Neighborhood`, after `moore_neighborhood_wrapping`). It gives eight cells, clockwise from the top-left. It is modelled exactly as written.
  - Its `else` branch runs whenever *either* coordinate is 0, and it then uses the last column and the last row as the "previous" ones.
  - The model proves that all eight cells are in range.
  - It also proves that the result equals the true torus neighbourhood exactly when both coordinates are zero or both are nonzero.
- **Incremental update** (`Engine`, after `Automata::update`). Pass one recomputes every cell flagged in `changes` and collects the listed neighbours that are not flagged. That list is sorted and deduplicated. Pass two recomputes each cell in it. `Update` is proved to write exactly `IncrementalResult`: every recomputed cell gets the rule applied to its status and its listed neighbours' live count, and every other bit of `target` is untouched.
  - Whether this equals a full generation depends on the neighbour relation being symmetric. The model proves it for any symmetric relation (`IncrementalIsFullStep`).
  - It also proves that the source's relation is *not* symmetric (`SourceTableNotSymmetric`), so no such claim is made for the source's function.
- **Pattern loader** (`Patterns`, after `src/pattern.rs`).
  - `from_plaintext` filters comment and empty lines, trims the rest, checks that they share one byte length, and stores the cells row by row.
  - `place` checks the bounds and then copies the rows into a world buffer.
  - `calc_midpoint_placement` centres a pattern.
- **Viewer control** (`Viewer`, after `src/bin/main.rs`).
  - The `Speed` constructors and the key-driven `State::next`.
  - `simulate_step`, which refills the change buffer with `fresh XOR stale` and then calls `update`.
  - What one frame does: the number of generations it runs, the buffer swaps, and the underclocking counter `(counter + 1) % speed`.

`Wrappers` holds `Option` and `Result`, `Arith` holds nonlinear facts about row-major indexing, and `VecOps` specifies `sort_unstable` and `dedup` on lists of indices.

The source's running state is called `Normal`. The model calls it `Running` so that it does not clash with the speed `Normal`. Its `fresh` buffer is called `current` here.

## Model

| member | source | states |
|---|---|---|
| Rules.EncodeIndex | src/lib.rs:20-23 | the slot of (status, count) fits in five bits: status in bit 0, the count's low four bits above it |
| Rules.DecodeIndex | src/lib.rs:25-27 | the decoded count is one of the sixteen four-bit values |
| Rules.DecodeEncode | src/lib.rs:237-243 | decoding an encoded slot gives back the status and `count & 0b1111`, for every status and every count |
| Rules.EncodeInjective | src/lib.rs:20-27 | two (status, count) pairs share a slot iff they have the same status and the same low four bits |
| Rules.EncodeInTable | src/lib.rs:16-23 | a slot lies in the 18-entry table iff the count's low four bits are at most 8 |
| Rules.Simulate | src/lib.rs:66-68 | reads the table slot for (status, count): the slot whose decoding is the status and the count's low four bits; defined only when those low four bits are at most 8 |
| Rules.SimulateWithLogic | src/lib.rs:132-138 | the Conway rule: next alive iff exactly 3 live neighbours, or alive with exactly 2 |
| Rules.FindSlash | src/lib.rs:34-36 | `split_once('/')` splits at the first `/`; there is none iff the string has no `/` |
| Rules.SplitOnce | src/lib.rs:34-36 | no split iff there is no `/`; otherwise the text before the first `/` (which holds none) and the text after it, which put back together with the `/` give the input |
| Rules.ValidDigitsPrefix | src/lib.rs:47-59 | the digit loop stops at the first character that is not a digit 0..8; all characters before it are digits |
| Rules.Table | src/lib.rs:45-59 | a compiled table has exactly 18 slots |
| Rules.Compile | src/lib.rs:29-64 | `LifeLike::new` as a function of the definition string: a success is a well-formed 18-slot table |
| Rules.CompileRuns | src/lib.rs:45-63 | the digit runs after the prefixes compile iff every character of both runs is a digit 0..8 |
| Rules.New | src/lib.rs:29-64 | the imperative compiler (a mutable 18-slot array filled by two loops) returns exactly what `Compile` returns, errors included |
| Rules.MarkRun | src/lib.rs:47-59 | one digit loop: it fails iff some character is not a digit 0..8, it names the first such character (`9` is the out-of-table slot), and otherwise it sets exactly the run's slots |
| Rules.MarkDigit | src/lib.rs:51-51 | setting one digit's slot extends the table of the digits read so far by that digit |
| Rules.TableAddDigit | src/lib.rs:51-58 | one more birth (survival) digit sets its dead (alive) slot and no other slot |
| Rules.TableSlotAddDigit | src/lib.rs:51-58 | after one more digit, a slot is set iff it is that digit's slot or was set before |
| Rules.RunTableAddDigit | src/lib.rs:51-58 | the same for the table as it stands halfway through one of the two loops |
| Rules.SimulateMeaning | src/lib.rs:66-68 | after compiling, `simulate(false, n)` holds iff digit n is among the birth digits, and `simulate(true, n)` iff it is among the survival digits |
| Rules.TableDependsOnDigitSets | src/lib.rs:45-59 | repeated or reordered digits give the same table |
| Rules.ValidRuleCompiles | src/lib.rs:220-225 | every string `[bB][0-8]*/[sS][0-8]*` compiles, to the table of its digit sets |
| Rules.CompiledRuleShape | src/lib.rs:29-64 | every string that compiles has that shape |
| Rules.ExtraSlashRejected | src/lib.rs:34-59 | a string with two `/` never compiles, because the second one is a non-digit |
| Rules.CompileErrors | src/lib.rs:30-59 | each error in its place: not ASCII, no `/`, no `b`/`B` prefix, no `s`/`S` prefix; an out-of-table slot only when a `9` is present |
| Rules.CompileRunsErrors | src/lib.rs:47-59 | a bad birth character gives a birth error; with all birth digits valid, a bad survival character gives a survival error |
| Rules.ConwayCompiles | src/lib.rs:215-218 | "B3/S23" compiles, to births {3} and survivals {2, 3} |
| Rules.ConwayTableMatchesLogic | src/lib.rs:227-235 | for every status and every count 0..8, the compiled "B3/S23" agrees with the direct Conway rule |
| Neighborhood.MooreNeighborhoodWrapping | src/lib.rs:141-167 | eight cells, all inside the grid for a cell inside the grid |
| Neighborhood.TorusNeighborhood | src/lib.rs:141-152 | the reference torus neighbourhood (wrapping in every direction) has eight in-grid cells |
| Neighborhood.AgreesWithTorus | src/lib.rs:141-167 | when both coordinates are zero or both nonzero, the source's function is the true torus neighbourhood |
| Neighborhood.DiffersFromTorusOnEdges | src/lib.rs:153-166 | when exactly one coordinate is zero, it is not the torus neighbourhood |
| Neighborhood.TorusDistinct | src/lib.rs:141-152 | on grids of at least 3 by 3 the torus lists eight distinct cells |
| Neighborhood.CentreOfThreeByThree | src/lib.rs:175-193 | the tested neighbourhood of (1, 1) on a 3 by 3 grid |
| Neighborhood.CornerOfThreeByThree | src/lib.rs:195-213 | the tested neighbourhood of (0, 0) on a 3 by 3 grid |
| Neighborhood.EdgeCellOfThreeByThree | src/lib.rs:153-166 | (0, 1) on a 3 by 3 grid gets row 2 for its upper neighbours and lists a cell twice |
| Engine.CellIndex | src/lib.rs:90-90 | the combined index `x + y * size.0` of a cell inside the row gives back its column as `index % size.0` and its row as `index / size.0`, as the source's `(index % size.0, index / size.0)` reads it |
| Engine.NeighborIndices | src/lib.rs:84-91 | the combined indices `x + y * width` of a cell's eight listed neighbours, all in the grid for a cell in the grid |
| Engine.NeighborIndicesInRange | src/lib.rs:84-94 | every index read through `get_unchecked` is in bounds |
| Engine.NeighborTable | src/lib.rs:84-86 | one neighbour list per cell of the grid |
| Engine.NeighborTableWellFormed | src/lib.rs:84-91 | every list has eight entries, all cells of the grid |
| Engine.LiveCount | src/lib.rs:87-97 | the live count is at most the number of listed cells (a cell listed twice counts twice) |
| Engine.NextState | src/lib.rs:96-102 | a cell's next status is the table slot of its status and its live count, and that count is at most 8 |
| Engine.LiveCountAgree | src/lib.rs:87-97 | the count depends only on the listed cells |
| Engine.Unflagged | src/lib.rs:90-93 | what one flagged cell pushes is no longer than its list, and every pushed cell is in the world and not flagged |
| Engine.UnflaggedMeaning | src/lib.rs:90-93 | a cell is pushed onto `extras` iff it is listed and not flagged |
| Engine.UnflaggedOfCell | src/lib.rs:83-93 | what a flagged cell pushes are unflagged grid cells it lists |
| Engine.CandidatesUpTo | src/lib.rs:83-103 | everything pushed while visiting the first n cells is a cell that is not flagged |
| Engine.Candidates | src/lib.rs:83-103 | everything the first pass pushes onto `extras` is a cell that is not flagged |
| Engine.CandidatesUpToMeaning | src/lib.rs:83-103 | after the first n cells, a cell has been pushed iff it is unflagged and listed by a flagged cell below n |
| Engine.CandidatesMeaning | src/lib.rs:83-103 | the first pass pushes exactly the unflagged cells listed by a flagged cell |
| Engine.Extras | src/lib.rs:105-106 | the list the second pass walks is strictly increasing and holds exactly the pushed cells |
| Engine.ExtrasProperties | src/lib.rs:105-106 | after sort and dedup, `extras` is strictly increasing, and its elements are exactly the grid cells that are unflagged and listed by a flagged cell |
| Engine.IncrementalResult | src/lib.rs:72-126 | the target after `update` keeps its length |
| Engine.Xor | src/bin/main.rs:241-242 | the change buffer is as long as the shorter of the two generations |
| Engine.IncrementalIsFullStep | src/lib.rs:72-126 | for a symmetric neighbour relation, one step past `stale` with `changes = fresh XOR stale`, the incremental result is the full next generation |
| Engine.AllFlaggedIsFullStep | src/lib.rs:83-103 | with every cell flagged, the incremental result is the full next generation |
| Engine.SourceTableNotSymmetric | src/lib.rs:141-167 | on a 5 by 5 grid, cell 1 lists cell 24 but cell 24 does not list cell 1, so the source's relation is not symmetric |
| Engine.NeighborsOfCellOne | src/lib.rs:141-167 | the listed neighbours of (1, 0) on a 5 by 5 grid |
| Engine.NeighborsOfLastCell | src/lib.rs:141-152 | the listed neighbours of (4, 4) on a 5 by 5 grid |
| Engine.ScanNeighbors | src/lib.rs:84-97 | the first pass's neighbour scan returns the live count and the unflagged listed cells, in listed order |
| Engine.ScanListed | src/lib.rs:87-97 | its loop over the eight combined indices computes the same |
| Engine.CountStep | src/lib.rs:95-97 | one more listed cell adds one to the live count iff it is alive |
| Engine.PushStep | src/lib.rs:92-94 | one more listed cell is pushed iff it is not flagged |
| Engine.CountAlive | src/lib.rs:110-119 | the second pass's count is the live count of the listed cells |
| Engine.CountListed | src/lib.rs:112-119 | its loop computes the same |
| Engine.VisitFlagged | src/lib.rs:84-101 | a flagged cell's next status is the rule applied to its status and live count; it pushes its unflagged neighbours |
| Engine.Recompute | src/lib.rs:109-123 | a candidate's next status is the rule applied to its status and live count |
| Engine.NeighborTableIs | src/lib.rs:84-91 | the neighbour table is well formed and lists each cell's neighbours |
| Engine.FirstPassStep | src/lib.rs:101-102 | visiting a flagged cell writes its next status and nothing else |
| Engine.FirstPassSkip | src/lib.rs:83-83 | unflagged cells are not written by the first pass |
| Engine.SecondPassStep | src/lib.rs:123-124 | visiting a candidate writes its next status and nothing else |
| Engine.PassesAreIncremental | src/lib.rs:83-125 | the two passes over the sorted, deduplicated candidates write exactly the incremental result |
| Engine.PassesAt | src/lib.rs:83-125 | the same, cell by cell, for any candidate list with the right elements |
| Engine.FirstPass | src/lib.rs:83-103 | pass one writes the next status of every flagged cell, leaves every other bit alone, and returns exactly the candidates |
| Engine.SecondPass | src/lib.rs:108-125 | pass two writes the next status of every listed candidate and leaves every other bit alone |
| Engine.Update | src/lib.rs:72-126 | `target` becomes the incremental result: every flagged cell and every unflagged neighbour of a flagged cell gets the rule's next status, and every other bit is unchanged |
| VecOps.Insert | src/lib.rs:105-105 | inserting into a sorted list keeps it sorted and adds exactly one element |
| VecOps.Sort | src/lib.rs:105-105 | `sort_unstable` returns a non-decreasing permutation of its input |
| VecOps.Dedup | src/lib.rs:106-106 | `dedup` keeps the same elements, drops equal neighbours, and turns a sorted list into a strictly increasing one |
| VecOps.SortThenDedup | src/lib.rs:105-106 | sort then dedup gives a strictly increasing list with exactly the input's elements |
| Arith.FullRowsIsDivision | src/pattern.rs:28-34 | the pattern height `length / width` is the number of whole rows the stored cells fill |
| Arith.FullRowsOfWhole | src/pattern.rs:33-33 | `k` rows of width `w` make a height of `k` |
| Patterns.Trim | src/pattern.rs:17-17 | the trimmed line is no longer than the line (what it keeps is stated by `TrimMeaning`) |
| Patterns.TrimStartMeaning | src/pattern.rs:17-17 | left trimming removes a whitespace prefix up to the first character that is not whitespace |
| Patterns.TrimEndMeaning | src/pattern.rs:17-17 | right trimming removes a whitespace suffix back to the last character that is not whitespace |
| Patterns.TrimMeaning | src/pattern.rs:17-17 | a trimmed line is a slice of the line with only whitespace outside it, and neither of its ends is whitespace |
| Patterns.TrimmedRow | src/pattern.rs:17-17 | a row with no whitespace at either end is its own trim, so trimming is idempotent |
| Patterns.CharUtf8Len | src/pattern.rs:19-19 | a character takes 1 to 4 UTF-8 bytes, and 1 iff it is ASCII |
| Patterns.Utf8Len | src/pattern.rs:19-19 | `str::len` is between the character count and four times it, and equals the count iff the row is ASCII |
| Patterns.PatternLines | src/pattern.rs:13-17 | the kept rows are no more than the lines |
| Patterns.RowCells | src/pattern.rs:25-25 | a row's cells: cell c is alive iff character c is `O` |
| Patterns.Plaintext | src/pattern.rs:9-37 | `from_plaintext`: no kept line is `NoPatternLines`; kept rows of different byte lengths are `RaggedLines`; a success has the cells of the kept rows in order, a positive width equal to every row's byte length, and as many rows as the cells fill |
| Patterns.PatternLinesAppend | src/pattern.rs:13-17 | filtering and trimming work line by line: concatenated inputs give concatenated rows |
| Patterns.SkippedLineIgnored | src/pattern.rs:14-15 | inserting a `!` comment or an empty line anywhere does not change the result |
| Patterns.SkippedLineNoRow | src/pattern.rs:14-15 | such a line adds no row |
| Patterns.PatternLinesStep | src/pattern.rs:13-17 | one more line adds its trim as a row unless it is skipped; the skip test comes before trimming |
| Patterns.KeptRow | src/pattern.rs:13-17 | a kept line that is its own trim is the next row |
| Patterns.RaggedPrefix | src/pattern.rs:19-22 | a kept line whose byte length differs from the first row's makes the whole input an error |
| Patterns.PlaintextOfEvenRows | src/pattern.rs:19-36 | rows of one width w: an error when w is 0, where the source divides by zero; otherwise the concatenated cells with size (w, rows filled) |
| Patterns.ScanRow | src/pattern.rs:19-25 | one more row of the right width extends the width and the cells read so far |
| Patterns.FromPlaintext | src/pattern.rs:9-37 | the imperative reader (one loop mutating `width` and `store`, early return on ragged rows) returns exactly `Plaintext` |
| Patterns.CellsAt | src/pattern.rs:25-25 | rows of equal length laid end to end: row y, column x is at `y * w + x`, alive iff that character is `O` |
| Patterns.CellsLength | src/pattern.rs:25-28 | `store.len()` is width times rows for rows of equal length |
| Patterns.AsciiPatternShape | src/pattern.rs:28-34 | for ASCII rows the size is (row length, number of kept rows) and `store.len() == width * rows` |
| Patterns.AsciiPatternCell | src/pattern.rs:25-34 | for ASCII rows a stored cell is alive iff the character at that row and column is `O` |
| Patterns.AsciiWidths | src/pattern.rs:19-21 | ASCII rows of one byte length have one character length |
| Patterns.GliderPattern | src/pattern.rs:88-99 | the glider text gives size (3, 3) and cells 0,1,0, 0,0,1, 1,1,1 |
| Patterns.GliderRows | src/pattern.rs:90-94 | its two comment lines are dropped and its three rows are kept as they are |
| Patterns.GliderComments | src/pattern.rs:90-91 | the two comment lines give no rows |
| Patterns.GliderCells | src/pattern.rs:98-98 | the glider's rows give the tested bits |
| Patterns.RaggedPattern | src/pattern.rs:19-22 | two rows of different lengths are rejected |
| Patterns.StampedRows | src/pattern.rs:55-62 | the world after some of the rows has its size unchanged |
| Patterns.Stamped | src/pattern.rs:55-62 | the world after all of the rows has its size unchanged |
| Patterns.StampRowAt | src/pattern.rs:56-61 | copying one row changes exactly the `size.0` world cells from `position.0 + world_size.0 * (position.1 + row)`, to the pattern row's cells |
| Patterns.RowInWorld | src/pattern.rs:56-59 | every row slice written lies below `world_size.0 * world_size.1` |
| Patterns.Place | src/pattern.rs:39-65 | a world shorter than its size claims, and a pattern that does not fit at the position, are distinct errors that leave the world unchanged; otherwise the world becomes the stamped world |
| Patterns.CopyRow | src/pattern.rs:56-61 | one round of the loop adds one copied row to the world |
| Patterns.StampedReadsBack | src/pattern.rs:55-62 | after placing, world cell `(pos.0 + x) + (pos.1 + y) * W` is pattern cell `x + y * w`, and that index is below `W * H` |
| Patterns.StampedKeepsOutside | src/pattern.rs:55-62 | placing leaves every world cell outside the pattern's rectangle unchanged |
| Patterns.MidpointPlacement | src/pattern.rs:67-81 | an error iff the pattern is larger than the world on either axis; otherwise an offset whose margins on the two sides of each axis differ by at most one, the smaller on the top and left |
| Patterns.MidpointFits | src/pattern.rs:67-81 | the centred offset plus the pattern size fits the world, so `place` accepts it |
| Viewer.NewOverclocked | src/bin/main.rs:41-47 | 0 and 1 give the normal speed, any other s an overclocking by exactly s |
| Viewer.NewUnderclocked | src/bin/main.rs:49-55 | 0 and 1 give the normal speed, any other s an underclocking by exactly s |
| Viewer.Next | src/bin/main.rs:90-98 | only Escape and Space change the state, and only Escape leads into the settings |
| Viewer.EscapeTransitions | src/bin/main.rs:92-94 | Escape opens the settings from running or paused and closes them to running |
| Viewer.SpaceToggles | src/bin/main.rs:93-96 | Space toggles running and paused, does nothing in the settings, and two presses undo each other |
| Viewer.OtherKeysIgnored | src/bin/main.rs:96-96 | every other key leaves the state unchanged |
| Viewer.BitBuffer.constructor | src/bin/main.rs:114-117 | the change buffer is created and resized to `n` dead bits |
| Viewer.SimulateStep | src/bin/main.rs:233-246 | the change buffer becomes `fresh XOR stale`, and `stale` becomes the incremental result of `update` on those buffers |
| Viewer.XorStep | src/bin/main.rs:242-242 | one more zipped pair adds one XOR bit |
| Viewer.Generations | src/bin/main.rs:143-193 | repeated steps with swaps keep both buffers at the world's length |
| Viewer.GenerationsLast | src/bin/main.rs:153-164 | one more step is an update of the last pair followed by a swap |
| Viewer.FrameSteps | src/bin/main.rs:143-193 | the settings state runs no generation; paused runs one iff Right is pressed; underclocked running runs one iff the counter is 0 |
| Viewer.Tick | src/bin/main.rs:178-178 | the next counter is below the factor: the counter plus one, or 0 when that reaches the factor |
| Viewer.CounterAfter | src/bin/main.rs:167-179 | after at least one frame the counter is below the factor |
| Viewer.StepsOver | src/bin/main.rs:167-179 | a run of frames takes at most one step per frame |
| Viewer.CounterClimbs | src/bin/main.rs:167-179 | below the factor the counter climbs by one per frame, and no step is taken while it is nonzero |
| Viewer.StepsSplit | src/bin/main.rs:167-179 | steps and counters over consecutive runs of frames add up |
| Viewer.OneStepPerPeriod | src/bin/main.rs:167-179 | at `Underclocked(s)`, any s consecutive running frames, from any counter below s, take exactly one step |
| Viewer.OneStepMidPeriod | src/bin/main.rs:167-179 | the same from a nonzero counter, whose step comes when the counter wraps to 0 |
| Viewer.World.constructor | src/bin/main.rs:66-73 | a new world is running at normal speed with counter 0 and the compiled initial rule |
| Viewer.World.NewRule | src/bin/main.rs:75-78 | the trimmed text replaces the rule when it compiles; otherwise the error is returned and the rule is kept; nothing else changes |
| Viewer.World.HandleKey | src/bin/main.rs:136-140 | `N` and no key leave the state alone, and any other key is a `State::next` transition |
| Viewer.World.ChooseSpeed | src/bin/main.rs:207-222 | the speed tab gives the normal speed, or the constructors applied to the parsed speed (1 when it does not parse) |
| Viewer.World.Advance | src/bin/main.rs:143-193 | a frame runs `FrameSteps` generations, swapping the buffers after each; only an underclocked running frame advances the counter |

## Left out

- Rendering and the user interface are not part of this model. This covers `render_bits` (f32 drawing), `window_conf`, the macroquad settings window and its text inputs, logging, the `async` frame loop and `next_frame().await`. The last key pressed, whether Right is held, the chosen settings tab and the parsed speed text are all parameters.
- `fill_random` and the random initial world are not part of this model, because they draw from a random-number generator. Key `N` is modelled as "no state transition" only.
- The benches are not part of this model. They are timing harnesses with no behaviour of their own.
- `src/bin/helper.rs` is not part of this model. It is an offline code generator, and it relies on a packed neighbourhood codec and a 512-entry fixed-rule table that `src/lib.rs` does not define; those are not modelled either.
- `bitvec` generics (`BitOrder`, `BitStore`) are not modelled. Bit slices are `seq<bool>` where the source only reads them, and `array<bool>` where it writes them in place. The XOR over raw slices is a loop over booleans.
- `get_unchecked` is modelled as ordinary indexing, and the model proves the bounds of every access.
- Engine.IncrementalIsFullStep: proved only for a symmetric neighbour relation. The source's relation is not symmetric, and `SourceTableNotSymmetric` proves it, so the model states no unconditional "incremental equals full step" claim for the source.
- Panics are modelled as preconditions or as explicit errors:
  - `update`'s `assert_eq!` on the world length becomes a requirement of `Engine.Update`.
  - The `unwrap` of `world.get(index)` becomes the requirement that no bit beyond the world is flagged.
  - `target.set` becomes the requirement that `target` is at least as long as the world.
  - `simulate` indexing past slot 17 becomes the requirement that the count's low four bits are at most 8.
  - `World::new`'s `unwrap` becomes the requirement that the initial rule compiles.
- For the digit 9, where the source panics, `LifeLike::new` is modelled as returning `SlotOutOfRange`.
- For a pattern whose rows are all whitespace, where the source divides by zero, `from_plaintext` is modelled as returning `ZeroWidth`.
- Patterns.Place: requires a pattern whose cells back every row its size announces. Every pattern `from_plaintext` builds has that property, and the fields are private. The row slice of the store would otherwise panic.
- `usize` overflow is not modelled: integers are unbounded. The products and sums in `place`'s checks, in `x + y * size.0`, and `counter + 1` do not wrap in the model.
- The input to `from_plaintext` is the sequence of lines. How `str::lines` splits a text is not part of this model.
- Whitespace is Unicode `White_Space` as a list of code points. Byte length (`str::len`) is counted from code points. No other Unicode processing is modelled.
- VecOps.Sort: `sort_unstable` and `dedup` are modelled as functions that return the new list rather than working in place. The list is local to `update`, so nothing observes the difference. Their contracts state what the library promises.
- Viewer.World.Advance: the source lets a frame run with a counter at or above an underclocking factor, for example after a switch to a smaller factor. So `World.Valid` does not require the counter to be below the factor, and `Viewer.OneStepPerPeriod` assumes it.
- `World::new` and `World::new_rule` use the `Compile` function for `LifeLike::new`. `Rules.New` proves the imperative compiler returns exactly what `Compile` returns.
