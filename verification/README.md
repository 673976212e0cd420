# Last Image Standing: a Dafny model of the elimination round

The program shows up to sixteen images in a 4x4 grid. A left click starts a
round. Every 200 ms one image, picked at random, is eliminated and fades to 10%
opacity. When one image is left it becomes the winner: the program hides the
others and moves the winner to the centre of the window at four times its size.
Another left click sets up a new round with a new random selection; a further
click starts it.

This project models the logic behind that behaviour and proves properties of it:

- `Items`: the item record and the per-frame `Item.update`. This covers the
  clamped opacity fade and the easing of position and scale toward their targets.
- `Contain` and `ContainExact`: `scale_contain`, the "contain" fit of an image
  into its box. `Contain` computes it on integers. `ContainExact` proves that
  result equal to the program's own steps on exact rationals.
- `Grid`: `layout_grid`. It maps item `i` to a cell in row-major order and
  computes the cell size and cell centres from the window size.
- `Sampling` and `Seqs`: the random draws of `reset` (`random.sample`, then
  `random.shuffle`) and Python's `list.remove`.
- `Rounds`: the round state machine. This covers `reset`, `eliminate_one`,
  the left-click transition, the 200 ms elimination timer, relayout on resize,
  the per-frame update pass, and start-up.
- `Elimination`: whole rounds. A round with `n` participants takes exactly
  `n - 1` eliminations and then one winner step.

Randomness is an input. The caller supplies `random.sample` as a list of distinct
pool positions, `random.shuffle` as a permutation, and `random.choice(active)` as
a position in `active`. The predicates `ValidDraw`, `ValidPick` and `ValidPicks`
state what Python's `random` module guarantees about these values. The window
size comes from `screen.get_size()` in the program and is a `Screen` parameter
here. The program's floats (positions, scales, cell sizes) are exact `real`s.
Python's `int()` on them truncates toward zero (`Numeric.Trunc`).

`active` is a list of references to item objects in the program. Here it is a
sequence of positions in `items`, with no position repeated (`Rounds.WellFormed`).

Four behaviours of the code are worth noting, because a reader might expect
otherwise:

- `reset` does not clear the elimination timer. `Rounds.Click` proves that the
  timer is already 0 whenever a click resets a finished round. A round only
  finishes on the tick that clears the timer, and the timer does not run while
  the round is finished.
- A resize while the winner is on show does not re-centre the winner. `Rounds.Resize`
  leaves the round unchanged in that case.
- With no supported images in the folder, nothing guards the round. A click
  starts it, and the first elimination evaluates `active[0]` on an empty list,
  which raises `IndexError`. `Elimination.EmptyPoolCrashes` proves this path.
- Nothing guards a very short window either. In a window 69 to 75 pixels high
  the cell height lies strictly between -1 and 1, so `int(cell_h)` gives every
  box a height of 0. The next frame's draw pass then calls `scale_contain` with
  `max_h == 0`, which raises `ZeroDivisionError`. `Rounds.ShortWindowCrashes`
  proves this path.

## Model

| member | source | states |
|---|---|---|
| `Items.NewItem` | main.py:64-78 | a new item shows the given image, is in play and fully opaque, unscaled with target scale 1.0, sits at the origin with its target there, and has the 100x100 box |
| `Items.Fade` | main.py:85-86 | an item still in play keeps its opacity; an eliminated item loses at most 12 units per frame, strictly less while above the floor of 25, never drops below the floor, and stays put once at it |
| `Items.Approach` | main.py:81-83 | easing moves a value toward its target without overshooting, and reaches the target only if it started there |
| `Items.Update` | main.py:80-86 | one frame moves x, y and scale toward their targets without overshoot, fades the opacity, leaves image, targets, box and elimination flag unchanged, and preserves the opacity invariant (255 in play, 25..255 eliminated) |
| `Items.FadeClosedForm` | main.py:85-86 | after n frames an eliminated item's opacity is exactly max(25, alpha - 12n) |
| `Items.FadeMonotone` | main.py:85-86 | over any number of frames an eliminated item's opacity is non-increasing and never below 25 |
| `Items.FadeSettlesAfterTwentyFrames` | main.py:19-20 | a loser at full opacity is still above the floor after 19 frames and at the floor of int(255*0.1) = 25 from the 20th frame on |
| `Contain.ScaleContain` | main.py:97-108 | a zero box height raises ZeroDivisionError and nothing else fails; a box wider than the image keeps the box height, otherwise the box width is kept |
| `Contain.ScaleContainFits` | main.py:97-108 | for a box of non-negative width and positive height the size fits inside the box and has the image's aspect ratio up to truncation of the other side |
| `ContainExact.ScaleContainExact` | main.py:97-108 | the integer computation gives exactly the same result as r = iw/ih, the comparison max_w/max_h > r and int() truncation evaluated on rationals |
| `ContainExact.BoxWiderExact` | main.py:99-101 | the cross-multiplied comparison (flipped for a negative box height) decides max_w/max_h > iw/ih exactly |
| `ContainExact.TimesRatioExact` | main.py:102-103 | int(h * r) equals the truncating integer division (h * iw) / ih |
| `ContainExact.DivByRatioExact` | main.py:105-106 | int(w / r) equals the truncating integer division (w * ih) / iw |
| `Numeric.TruncDivExact` | main.py:103 | truncating integer division agrees with int() of the exact quotient, for negative numerators too |
| `Grid.SlotOf` | main.py:138-140 | item i goes to the unique column < 4 and row with i = row * 4 + col (row-major order) |
| `Grid.SlotInGrid` | main.py:138-140 | the sixteen items of a full round all land inside the 4x4 grid |
| `Grid.SlotRoundTrip` | main.py:138-140 | every cell of the grid is the cell of exactly its row-major index, which is below 16 |
| `Grid.SlotInjective` | main.py:138-140 | distinct items get distinct cells |
| `Grid.Layout` | main.py:124-136 | the grid starts 24 px from the left and top edges and ends 24 px from the right and bottom edges, so it is centred in the usable area |
| `Grid.Place` | main.py:142-146 | layout changes only the box and target of an item; the target is the cell centre, and for a non-negative cell size the box is the cell size truncated |
| `Grid.LayoutItems` | main.py:138-146 | every item, and only the box and target of each, is placed in the cell its position selects |
| `Grid.LayoutTargetInCell` | main.py:138-146 | when the window leaves cells a non-negative size, each item's target lies inside the cell its position selects |
| `Grid.LayoutTargetsDistinct` | main.py:138-146 | when the window leaves cells a non-negative size, no two items share a target |
| `Grid.CellsSeparated` | main.py:129-146 | when cells have non-negative size (a window at least 72 px in each direction), the cells of two different slots are separated horizontally or vertically by at least the 8 px padding |
| `Grid.ThinCellsZeroBox` | main.py:130-143 | in a window 69 to 75 px high every item's box height truncates to 0 |
| `Sampling.Shuffle` | main.py:155 | shuffling is a rearrangement: it keeps every element with its multiplicity, so it keeps the set of elements and keeps a list without repeats free of them |
| `Sampling.RearrangeMultiset` | main.py:155 | rearranging a list by any permutation keeps its multiset of elements |
| `Sampling.RearrangeDistinct` | main.py:155 | rearranging a list without repeats by a permutation leaves it without repeats |
| `Sampling.ShuffleKeepsSample` | main.py:154-155 | sampling then shuffling yields min(16, pool size) distinct pool positions, exactly the sampled ones |
| `Sampling.PermutationOnto` | main.py:155 | a shuffle permutation reaches every position |
| `Seqs.RemoveFirst` | main.py:188 | list.remove shortens the list by exactly one |
| `Seqs.RemoveFirstMultiset` | main.py:188 | list.remove takes away exactly one copy of the value and nothing else |
| `Seqs.RemoveFirstAt` | main.py:187-188 | removing by value the element found at position k of a list without repeats removes position k |
| `Seqs.DropAt` | main.py:187-188 | that removal keeps the list repeat-free and removes exactly that element from its set |
| `Rounds.Reset` | main.py:151-165 | reset makes one fresh item (opacity 255, in play, scale and target scale 1.0) per sampled image in shuffled order, min(16, pool) of them, all active, all laid out, with every flag cleared and no winner, and the round invariant holds |
| `Rounds.NewItems` | main.py:157 | one fresh item per chosen image, in the chosen order |
| `Rounds.StartInv` | main.py:157-163 | a round whose items are all fresh and all active satisfies the round invariant |
| `Rounds.LaidOutFresh` | main.py:157-165 | laying out fresh items keeps them fresh and their images, and puts each where layout puts it |
| `Rounds.EliminateOne` | main.py:170-189 | an empty active list raises IndexError; a single active item is crowned (finished, winner shown, opaque, in play, target at the window centre, target scale 4.0, nothing else changed); otherwise the picked item, which was not yet eliminated, leaves active and is marked eliminated while everything else stays; the round invariant is preserved |
| `Rounds.Tick` | main.py:226-230 | the timer runs only while the round runs unfinished; below 200 ms it only accumulates; on reaching 200 ms it is cleared and exactly one eliminate_one runs; the timer invariant is preserved and a crash happens exactly when a running round has no items and the timer reaches 200 ms |
| `Rounds.Click` | main.py:216-221 | a left click resets a finished round, starts an idle one, and is ignored by a running one; the invariants hold after it, and a reset round starts idle with the timer at 0 |
| `Rounds.Resize` | main.py:207-210 | a resize relayouts the grid unless only the winner is shown, changes no flag and preserves the invariant |
| `Rounds.Animate` | main.py:234-240 | once the winner is shown the update pass advances the winner by one frame and leaves every other item alone, otherwise it advances every item; never changes an elimination flag, never raises an opacity, and preserves the invariant |
| `Rounds.ContainAll` | main.py:89-108 | `scale_contain` on each drawn item's box fails, with ZeroDivisionError, exactly when some drawn box has zero height, and otherwise gives each drawn item its contained size |
| `Rounds.DrawFailsIff` | main.py:234-240 | the draw pass over the winner alone, or over every item, fails exactly when an item it draws has a zero box height |
| `Rounds.AnimateKeepsBoxes` | main.py:234-240 | the update pass draws the same items and leaves their box heights unchanged |
| `Rounds.Render` | main.py:234-240 | the update and draw pass, when it succeeds, yields the session with its round advanced by the update pass and nothing else changed, preserving the session invariant; it fails with ZeroDivisionError exactly when a drawn item's box has zero height |
| `Rounds.Frame` | main.py:226-240 | a frame after the input events, when it succeeds, yields the session after the timer step with its round advanced by the update pass, and preserves the session invariant; it fails as its timer step fails, and otherwise fails exactly when the draw pass meets a drawn box of zero height |
| `Rounds.ShortWindowCrashes` | main.py:207-240 | after the grid is relaid out for a window 69 to 75 px high, the next frame raises ZeroDivisionError |
| `Rounds.Initial` | main.py:194-196 | start-up yields an idle round of min(16, pool) items with the timer at 0, satisfying the invariants |
| `Elimination.Eliminations` | main.py:170-189 | a series of victim steps on a running round keeps it running and unfinished, shrinks active by one per step within its previous members, keeps every eliminated item eliminated and every image in place |
| `Elimination.Termination` | main.py:173-189 | from m >= 1 active items, each of the first m - 1 steps meets at least two active items, after them exactly one remains, the next step crowns it, and every other item is eliminated |
| `Elimination.RoundFromReset` | main.py:151-189 | a round started after reset with n >= 1 participants ends after exactly n - 1 eliminations with a winner drawn from the pool, at 4x target scale |
| `Elimination.TwentyImageRound` | main.py:154-185 | with 20 images a round uses 16, and after 15 eliminations the winner heads for the window centre at 4x scale |
| `Elimination.EmptyPoolCrashes` | main.py:173-176 | with no images, start-up, a click and one 200 ms tick raise IndexError |

## Left out

- Window creation, the event loop, quit on window close, Escape or right click,
  and the frame-rate cap (main.py:34-40, 199-224). These are pygame I/O. The
  transitions they trigger are modelled as `Click`, `Resize`, `Tick` and `Frame`
  with their inputs as parameters.
- Drawing: `smoothscale`, `set_alpha`, `blit`, `fill` and `flip` (main.py:90-95,
  232, 242). Rendering goes through a library that is not part of this model.
  This includes the `int(base_w * scale)` applied to the contained size, and any
  error the library raises for a negative target size. The `scale_contain` call
  in `Item.draw` (main.py:89) is modelled by `Rounds.ContainAll`.
- Image loading: `load_images` and `pil_to_surface` (main.py:45-58). These are
  file system and PIL calls. The pool is a sequence of `Image`s that record only
  pixel sizes. A decoded image has positive width and height (`Dim`), so the
  ZeroDivisionError that `iw / ih` would raise for an empty image is not modelled.
- The random module itself. Its results are inputs, as described above.
- Items.Approach: floating-point rounding is not modelled. The easing runs on
  exact reals, so the no-overshoot property is the idealised one.
- Contain.ScaleContain: floating-point rounding of `iw / ih`, of `max_w / max_h`
  in the comparison, of `h * r` and of `w / r` is not modelled. A rounded ratio can
  also flip the comparison when the two ratios are within rounding of each other. The model uses exact rationals, so a float product that lands just
  below a whole number, or a float quotient that does the same, could truncate
  one pixel lower than the model.
- Grid.Layout: the cell sizes and centres are exact reals. The centring holds
  exactly, without the possible sub-pixel float error.
- Rounds.EliminateOne: it requires `WellFormed`, because active items are
  distinct positions in `items`. This encodes Python's distinct object references.
- Elimination.Eliminations: it covers victim steps only. The winner step that
  follows is stated by `Elimination.Termination`.
