# Terminal ASCII-art animator: the animation store

This project models the core of a small terminal editor and player for ASCII-art
animations (`animator.rs`). An animation is an ordered list of frames. Each frame
is a list of text lines. The animation also holds a playback cursor
(`current_frame`) and a playback interval in milliseconds (`speed`).

The model covers:

- the store itself: `Animation::new`, `add_frame`, `next_frame`, `insert_frame`,
  `delete_frame` and `move_frame`;
- the data-level effect of the menu handlers that change it: `edit_frame`,
  `add_new_frame`, `delete_current_frame`, `reorder_frames` and `adjust_speed`;
- the state that `main` starts with and the state that `load_animation` hands
  back.

Modules and files:

- `sequences.dfy` (`Sequences`): `Insert`, `Remove` and `Move` on sequences. They
  specify `Vec::insert`, `Vec::remove` and the remove-then-insert reorder.
- `playback.dfy` (`Playback`): the cyclic cursor of `next_frame` and the frames
  returned by repeated calls.
- `editing.dfy` (`Editing`): the line commands of `edit_frame` and the line
  collection of `add_new_frame`.
- `options.dfy` (`Options`): the `Option` type for parsed numbers.
- `animator.dfy` (`Animator`): `Frame`, the `Animation` class and the handlers.

`Animation` is a class because the source changes it in place through
`&mut self`. Its fields are `frames: seq<Frame>`, `currentFrame: nat` and
`speed: u64`. Each method states its whole new state in terms of the old one,
using the functions above. `Frame` is a datatype: a frame lives inside the
`Vec` and is never shared.

Inputs that the source reads from the terminal are parameters here, already
read and parsed:

- `edit_frame` takes a sequence of `LineCommand` values.
- `add_new_frame` takes the typed lines with trailing whitespace already
  stripped. A line is blank after `trim` exactly when it is empty after
  `trim_end`. The end of the input counts as a blank line, since `read_line`
  then yields an empty string.
- `reorder_frames` takes the words that parsed as unsigned integers.
- `adjust_speed` takes `Option<u64>`.

The model follows the code, including behaviour that looks unintended:

- `adjust_speed` accepts `0`.
- `insert_frame` leaves the cursor index unchanged, so the cursor may then name
  a different frame.
- `move_frame` with an out-of-range position does nothing and reports nothing.
- Out-of-range `insert_frame` and `delete_frame` indices make the source panic.
  The model turns them into `requires` clauses that state exactly the panic
  condition, rather than an error result the code does not have.

The class keeps the invariant `CursorValid`: the cursor names a frame, or there
are no frames and the cursor is 0. Every operation except loading preserves it.
`Playable` (the cursor names a frame) is what `next_frame` and `edit_frame`
need.

## Model

| member | source | states |
|---|---|---|
| `Sequences.Insert` | animator.rs:42-44 | the inserted element sits at the given index; earlier elements keep their positions, later ones move one right; length +1; multiset gains exactly that element |
| `Sequences.Remove` | animator.rs:48 | earlier elements keep their positions, later ones move one left; length −1; multiset loses exactly the removed element |
| `Sequences.Move` | animator.rs:53-58 | a move keeps the length and the multiset of frames, and the moved frame ends up at `to` |
| `Sequences.InsertThenRemove` | animator.rs:42-51 | removing at the index just inserted at restores the sequence |
| `Sequences.RemoveThenInsert` | animator.rs:55-56 | removing an element and inserting it back at its own index is the identity |
| `Sequences.MovePositions` | animator.rs:53-58 | where every frame lands after a move: the moved one at `to`, the ones in between shifted one step towards `from`, all others in place |
| `Sequences.MoveToSamePlace` | animator.rs:53-58 | `move_frame(i, i)` changes nothing |
| `Sequences.MoveUndone` | animator.rs:53-58 | `move_frame(to, from)` undoes `move_frame(from, to)` |
| `Playback.Advance` | animator.rs:38 | the advanced cursor stays below the frame count; it is the next index, or 0 after the last frame |
| `Playback.CursorAfterSteps` | animator.rs:36-40 | after `k` calls of `next_frame`, the cursor is `(c + k) % n` |
| `Playback.PlayedAt` | animator.rs:36-40 | the `j`-th frame returned by repeated `next_frame` calls is `frames[(c + j) % n]` |
| `Playback.FullRound` | animator.rs:36-40 | `n` calls return the frames rotated to start at the cursor, so each frame exactly once in stored order, and leave the cursor where it began |
| `Editing.ApplyLineCommand` | animator.rs:166-192 | `a` appends the line last; `e n` replaces only line `n` and `d n` removes only line `n`, both only when `n` is in range; out of range, unparsed, `q` or invalid leave the lines unchanged |
| `Editing.FinishEndsSession` | animator.rs:157-195 | commands after `q` never reach the frame |
| `Editing.AppendsOnly` | animator.rs:167-172 | a session of appends adds exactly those lines, in order, after the existing ones |
| `Editing.CollectLines` | animator.rs:206-214 | the collected lines are a prefix of the input, none blank, followed by a blank line or the end of the input |
| `Editing.CollectedUpToBlankUnique` | animator.rs:207-214 | only one prefix of the input stops at the first blank line |
| `Editing.CollectFrameLines` | animator.rs:206-214 | the reading loop collects exactly the lines before the first blank one |
| `Animator.Animation.constructor` | animator.rs:24-30 | a new animation has no frames, cursor 0 and interval 500, and satisfies the cursor invariant |
| `Animator.Animation.FromDecoded` | animator.rs:274-283 | a loaded animation carries exactly the decoded fields, with no check on them |
| `Animator.Animation.Load` | animator.rs:274-283 | corrected load: a decoded save is taken exactly when its cursor names one of its frames, and the store stays playable either way |
| `Animator.Animation.AddFrame` | animator.rs:32-34 | frames become the old frames followed by the new one; cursor and interval unchanged; from a valid state (including a new one), the cursor then names a frame |
| `Animator.Animation.NextFrame` | animator.rs:36-40 | returns the frame under the old cursor; the cursor advances cyclically and stays in range; frames and interval unchanged |
| `Animator.Animation.InsertFrame` | animator.rs:42-44 | frames become `Insert(old, index, frame)`; cursor index and interval unchanged; cursor validity preserved |
| `Animator.Animation.DeleteFrame` | animator.rs:46-51 | with more than one frame: removes the frame at `index` and clamps the cursor to `min(old, len - 1)`; otherwise nothing changes; a non-empty store never becomes empty |
| `Animator.Animation.MoveFrame` | animator.rs:53-58 | with both positions in range, frames become `Move(old, from, to)`, otherwise unchanged; length, multiset, cursor and interval are preserved |
| `Animator.StartSession` | animator.rs:62-79 | the session starts with the two stick-figure frames, cursor 0 and interval 500, and is playable |
| `Animator.UncheckedLoadOfEmptySave` | animator.rs:274-283 | a save with no frames loads, unchecked, into an animation on which `next_frame` cannot run |
| `Animator.EditFrame` | animator.rs:147-198 | only the frame under the cursor at entry changes, and it becomes the result of applying the commands up to `q`; cursor and interval unchanged |
| `Animator.AddNewFrame` | animator.rs:200-221 | appends a frame of the collected lines when at least one line was collected, otherwise leaves the animation unchanged |
| `Animator.DeleteCurrentFrame` | animator.rs:223-226 | with more than one frame: removes the frame under the cursor and clamps the cursor to `min(old, len - 1)`; otherwise nothing changes; never empties the store |
| `Animator.ReorderFrames` | animator.rs:228-250 | moves a frame only when exactly two numbers were given and both are in range; otherwise nothing changes |
| `Animator.AdjustSpeed` | animator.rs:252-260 | the interval takes the parsed value on a successful parse, and nothing else changes |

## Left out

- Terminal handling (raw mode, screen clearing, key events, the main menu loop, animator.rs:81-122) is I/O. So is all printing.
- `play_animation` (animator.rs:126-145) is a timed display loop. It only reads `frames[current_frame]` and changes nothing.
- Reading stdin is not modelled. Handlers take already-read, already-parsed input. When a read fails, the source returns early through `?`; the model has no such path.
- `str::trim`, `trim_end`, `split_whitespace` and `parse::<usize>` / `parse::<u64>` are standard-library routines. Their results are inputs.
- `EditFrame` ends at the end of its command sequence as well as at `q`. At the end of its input, the source's loop keeps reading empty lines and printing "Invalid command".
- `save_animation`, and the decoding in `load_animation` (animator.rs:262-283), are file I/O and `serde_json` calls whose text format is not in the source. The model starts from the decoded `Snapshot`. A malformed file makes `unwrap` panic; that is not modelled.
- `currentFrame` is a `nat`, not a `usize`. `current_frame + 1` cannot overflow, because the cursor is below the frame count whenever `next_frame` runs.

## Findings

| source | as written | input that shows it | evidently intended | confidence | as-written member | corrected member |
|---|---|---|---|---|---|---|
| animator.rs:281 | `load_animation` returns the decoded animation unchecked, and the menu loop then calls `next_frame` (line 86), which indexes `frames[current_frame]` (line 37) | a save file `{"frames":[],"current_frame":0,"speed":500}` (or a cursor at or past the frame count) loads; the next loop iteration panics | a save is accepted only when its cursor names one of its frames | medium, not executed | `Animator.UncheckedLoadOfEmptySave` | `Animator.Animation.Load` |
