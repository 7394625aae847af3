# bsbot core, modelled in Dafny

bsbot is a Battleship game written in C on top of raylib (`src/main.c`).
Most of the program draws the boards and reacts to the keyboard and mouse.
This project models the part of it that is plain computation:

- the board record `board_t`: two placement maps, two hit maps and two
  five-slot fleets, and the blank board `bs_new_board` builds;
- the ship record `item_t`, the ship table `bs_get_item` and the
  first-free-slot insertion `bs_add_item`;
- the screen geometry: `bs_point_in_rect`, `bs_rect_overlap`, and
  `bs_grid_check`, which marks the board cells a rectangle touches and
  counts them;
- the bot record `bot_t` and its initialiser `bs_bot_init`.

The comment above `bs_bot_init` (`src/main.c:827-850`) sketches how the bot
is meant to play. Scores would go up around a miss and around a hit, and go
down around a ship once it is destroyed. None of this is implemented: the
bot stops at `bs_bot_init`, which writes 0.5 into every cell, so the model
stops there too. The code gives a length only to the carrier (5) and the
battleship (4), and the model does not invent lengths for the other kinds.

Modules, one file each:

- `Wrappers` (`wrappers.dfy`): `Option`. A field the C code never writes is
  `None`, and its contents are unspecified.
- `Cells` (`cells.dfy`): bytes, 10x10 byte maps indexed `m[x][y]` as in the
  C arrays, and a count of their non-zero entries.
- `Geometry` (`geometry.dfy`): points, rectangles, containment and overlap.
  They use exact `real` arithmetic.
- `Items` (`items.dfy`): type codes, `item_t`, `bs_get_item`, fleets and
  `bs_add_item`.
- `Board` (`board.dfy`): `board_t` and `bs_new_board`.
- `GridCheck` (`grid_check.dfy`): `bs_grid_check`. The `uint32_t` offset
  arithmetic wraps modulo 2^32 explicitly.
- `Bot` (`bot.dfy`): `bot_t` and `bs_bot_init`.

## Model

| member | source | states |
|---|---|---|
| `Board.NewBoard` | src/main.c:271-288 | all four 10x10 maps of a new board are blank (0), and every slot of both fleets is marked empty (`PLACE_HIT_INVALID`, 0xFF); the other item fields are never written |
| `Board.NewBoardIsTheBlankBoard` | src/main.c:271-288 | a board is blank (every map entry 0, every slot holding only the empty marker) exactly when it is the new board |
| `Board.NewBoardFleetTakesFive` | src/main.c:282-285 | either fleet of a new board accepts five ships in slot order, refuses a sixth, and the fleet then holds exactly the first five |
| `Items.AddItem` | src/main.c:459-469 | insertion succeeds exactly when some slot is empty; on success the lowest empty slot receives the item; on failure the fleet is unchanged |
| `Items.AddFrom` | src/main.c:460-466 | the scan from index `i` succeeds exactly when a slot at or after `i` is empty, and it fills the first such slot |
| `Items.AddItemFrame` | src/main.c:459-469 | a successful insertion changes exactly one slot, the first empty one, and leaves the other four as they were |
| `Items.AddAllAccepts` | src/main.c:459-469 | with `n` slots occupied and the rest empty, successive insertions of ships succeed for exactly the first `5 - n` calls |
| `Items.AddAllPlaces` | src/main.c:459-469 | with `n` slots occupied and the rest empty, successive insertions fill slots `n, n+1, ...` in call order and leave the other slots untouched |
| `Items.EmptyFleetTakesFive` | src/main.c:459-469 | into an empty fleet, call `i` succeeds exactly when `i < 5`, and after five or more calls the fleet is the first five ships |
| `Items.GetItem` | src/main.c:357-387 | kinds get codes 1..5 in declaration order (never blank, never the empty marker); the carrier gets length 5 and the battleship length 4, both horizontal; the other three kinds get only their code |
| `Items.KindOfCode` | src/main.c:701-720 | exactly the codes `PLACE_AC`..`PLACE_PB` name a ship kind |
| `Items.GetItemCodeRoundTrip` | src/main.c:701-720 | the code of `GetItem(k)` decodes back to `k`, and every code 1..5 is the code of the kind it decodes to |
| `Items.GetItemInjective` | src/main.c:357-387 | two kinds get the same code only if they are the same kind |
| `Geometry.PointInRect` | src/main.c:439-453 | a point is in a rectangle exactly when `r.x <= p.x <= r.x + r.width` and `r.y <= p.y <= r.y + r.height`, all four edges inclusive, so only a rectangle of non-negative size contains any point; paired with `PointInRectIsPointOverlap`, `CornersInRect` and `NegativeRectIsEmpty` |
| `Geometry.RectOverlap` | src/main.c:393-433 | two rectangles overlap exactly when their closed intervals meet on both axes: `a.x <= b.x + b.width`, `a.x + a.width >= b.x`, and the same for y; equivalently, the top-left corner of `a` lies in `b` grown leftwards and upwards by the size of `a`; paired with `RectOverlapIffCommonPoint`, `RectOverlapSymmetric` and the shared-edge and shared-corner lemmas |
| `Geometry.PointInRectIsPointOverlap` | src/main.c:439-453 | a point is in a rectangle exactly when the zero-size rectangle at the point overlaps it |
| `Geometry.CornersInRect` | src/main.c:448 | all four edges are inclusive: each corner of a rectangle of non-negative size lies in it |
| `Geometry.NegativeRectIsEmpty` | src/main.c:439-453 | a rectangle with a negative width or height contains no point |
| `Geometry.RectOverlapSymmetric` | src/main.c:422 | overlap does not depend on argument order |
| `Geometry.SharedEdgeOverlaps` | src/main.c:422 | rectangles of non-negative size that only share part of an edge (right or bottom edge of one) overlap, in either argument order |
| `Geometry.SharedCornerOverlaps` | src/main.c:422 | rectangles of non-negative size that only share a corner (one starts at the other's bottom-right corner) overlap, in either argument order |
| `Geometry.RectOverlapIffCommonPoint` | src/main.c:393-433 | for rectangles of non-negative size, overlap holds exactly when some point lies in both |
| `Geometry.CornerInRectImpliesOverlap` | src/main.c:341 | if a rectangle of non-negative size has its top-left corner in a cell, the two already overlap |
| `GridCheck.GridCheck` | src/main.c:324-352 | entry `[x][y]` is 1 exactly when the cell at `(offset_x+33+33x, offset_y+33+33y)` overlaps the rectangle or contains its top-left corner, and 0 otherwise; the total is the number of set entries, at most 100 |
| `GridCheck.TouchedIsOverlapForNonNegative` | src/main.c:337-345 | for a rectangle of non-negative size, the corner fallback adds no cell: a cell is touched exactly when it overlaps |
| `GridCheck.CellRectTouchesOnlyItself` | src/main.c:330-335 | a rectangle lying exactly on one cell touches that cell and no other, because of the one-pixel gap, so the total is 1 (offsets too small to wrap) |
| `Bot.BotInit` | src/main.c:854-864 | every one of the 100 scores is 0.5, so the grid is uniform |

## Left out

- Score updates after a miss, hit or sink, target selection, the shot ledger, sink attribution and placement validation: the program has no code for them.
- `main`, every `bs_render_*` function and `bs_debug_render`: window, frame loop and drawing through raylib.
- `bs_selection`: keyboard- and mouse-driven placement state held in `static` locals. Only its pairing of the keys 1..5 with type codes and kinds is used, for `KindOfCode`.
- `bs_rand`: it depends on the C library's `rand()`, seeded from the clock.
- `bs_coords_to_string`: it copies unterminated 3-byte arrays with `strcpy` into a 3-byte buffer, which is undefined behaviour.
- `bs_new_board_ptr`: it copies the result of `bs_new_board` into caller memory. With value semantics this is `NewBoard` itself.
- Floating point: rectangle coordinates are exact reals, so `float` rounding is not modelled, and neither is the rounding when a large `uint32_t` becomes a `float`. NaN and the infinities are not modelled either; with a NaN coordinate every comparison in `bs_point_in_rect` and `bs_rect_overlap` is false.
- The rendering sizes `size_normal` and `size_hovering` that `bs_get_item` writes are carried as data. No property is stated about them.
- Uninitialised memory: fields the C code never writes (for example the length and rotation of the destroyer, submarine and patrol boat, or every field but `type` of a new board's slots) are `None`. The model does not invent values for them.
