# Maze model

A Dafny model of the maze logic in `maze.js`, a browser maze in which the
player steers a token with the arrow keys or WASD towards the centre cell.

The maze is a lattice of booleans. Odd-indexed rows and columns are cells,
even-indexed ones are dividers, and a piece where two dividers meet is a
corner. `true` means obstructed. A maze of `WIDTH` x `HEIGHT` cells (25 x 13
in the source) is a lattice of `2*HEIGHT+1` rows of `2*WIDTH+1` pieces.

The model has four modules, one per concern of the file:

- `Lattice` (lattice.dfy) holds the grid type, the shape predicates
  (rectangular lattice, enclosed border, open cells) and the configuration
  constants. It maps cell positions to cells of the dividerless grid, the
  coordinates used for the start and the goal. It also gives the marks that
  showMaze puts on each piece: shaded, goal and start.
- `Codec` (codec.dfy) models `parseMazeString` and the encoding half of
  `storeMazeString`. The stored text has one character per piece, '1' or
  '0', with rows separated by '|'. `Split` and `Join` are JavaScript's
  `String.split('|')` and `Array.join('|')`. `StoreMazeString` keeps the
  source's loops, and its result is proved equal to the pure `Encode`.
- `Builder` (builder.dfy) models `makeMaze`, the placeholder lattice. Every
  cell is open and every divider and corner is obstructed. It is built by
  nested loops and proved equal to `Placeholder`.
- `Movement` (movement.dfy) models the decision inside `movePlayer`.
  `Decide` is a pure function. The `Player` class holds the token position,
  and its `Move` method updates that position.

The player's position is a lattice position `(y, x)`, as in the source's
element ids `y-x`. A key press looks at the divider one step away. If the
divider is not obstructed, the player moves two steps to the next cell.
The source calls `getElementById` on pieces that may not exist, and that
dereference throws. The model has two outcomes for this:
- `Threw`: the handler throws before the player node is removed, so the
  player stays where it was and later presses are handled as usual.
- `OffGrid`: the handler throws after removing the player from its cell.
  The player is then no longer on the page, and every later press throws.
  `Player` records this in its `attached` field.

The up, right and down cases read the divider with optional chaining
(`?.`), so a missing divider counts as open. The left case does not, so
there a missing divider throws at once (`Threw`). `MissingLeftGuard` proves
that this only matters in column 0, where the uniform rule would instead
detach the player. From a cell position (odd row and column) every
direction follows the uniform rule. On a ragged lattice, a vertical move
can still pass a divider piece that does not exist.

Three behaviours of the code worth noting:
- Parsing does not check the shape or the border of the text.
- Key matching is case-sensitive ('A' does nothing).
- The source has no maze generator and no goal-reached reset.

## Model

| member | source | states |
|---|---|---|
| `Lattice.CellOf` | maze.js:195-198 | The cell of a lattice position, by floor division; on a cell position (odd row and column) it is the inverse of `LatticeOf`. |
| `Lattice.PieceMarks` | maze.js:189-205 | A piece is shaded exactly when its boolean is set. It carries the goal marker exactly when it is the lattice position of the goal cell, and the start marker exactly when it is that of the start cell, so each marker is on one piece. |
| `Lattice.CellMappingBijective` | maze.js:56-58 | The cell positions of a `width` x `height` lattice correspond one to one with the cells of `[0,width) x [0,height)`. |
| `Lattice.GoalInside` | maze.js:65-68 | The goal `(floor(width/2), floor(height/2))` is a cell of any maze with at least one cell each way. |
| `Lattice.GoalIsCentre` | maze.js:65-68 | With odd cell counts, the goal's lattice position is the exact centre of the lattice. |
| `Lattice.ConfiguredGoal` | maze.js:62-68 | With 25 x 13 cells the goal is cell (12, 6), at the centre piece (13, 25). The start cell (0, 0) is at piece (1, 1). |
| `Codec.Split` | maze.js:74 | Splitting on the row separator gives one more segment than there are separators, and no segment contains a separator. |
| `Codec.JoinSplit` | maze.js:74 | Joining the segments with the row separator gives back the original text. |
| `Codec.SplitJoin` | maze.js:89 | Joining one or more separator-free rows with the row separator and splitting again gives back the rows. |
| `Codec.ParseRow` | maze.js:75 | A parsed row has one entry per character, and an entry is true exactly when its character is '1'. |
| `Codec.ParseRows` | maze.js:75 | One parsed row per segment, in order. |
| `Codec.Parse` | maze.js:70-75 | The parsed grid has one row per separator-delimited segment (separators + 1). Row k is as long as segment k, and an entry is true exactly when its character is '1'. |
| `Codec.EncodeRow` | maze.js:84-86 | An encoded row has one character per entry: '1' for true, '0' for false. |
| `Codec.EncodeRows` | maze.js:82-88 | One encoded string per row, in order. |
| `Codec.EncodeRowAlphabet` | maze.js:85 | An encoded row contains only '0' and '1', never a separator. |
| `Codec.EncodeAlphabet` | maze.js:85-89 | Stored text uses only '0', '1' and the separator. |
| `Codec.ParseEncode` | maze.js:80-89 | Parsing the stored text of a grid with at least one row gives back the grid. |
| `Codec.EncodeParse` | maze.js:70-89 | Text made only of '0', '1' and the separator is unchanged by parsing and then storing. |
| `Codec.OtherCharactersAreLost` | maze.js:75 | Worked example: the text "2" parses to one false entry and is stored back as "0". |
| `Codec.Normalised` | maze.js:75 | The normalised text has the same length, with every character other than '1' and the separator replaced by '0'. |
| `Codec.SplitNormalised` | maze.js:74-75 | Normalising keeps separators in place, so splitting the normalised text gives the normalised segments. |
| `Codec.ParseNormalisedRows` | maze.js:75 | Parsing cannot tell a segment from its normalised form, since only '1' counts as obstructed. |
| `Codec.StoreAfterParse` | maze.js:70-89 | Storing what was parsed gives back the text with every character other than '1' and the separator replaced by '0'. |
| `Codec.NotMazeTextIsLost` | maze.js:70-89 | Any text with a character outside '0', '1' and the separator does not survive parsing and storing; with `EncodeParse` this is an if-and-only-if. |
| `Codec.EmptyGridDoesNotRoundTrip` | maze.js:80-89 | The grid with no rows stores as the empty text, and the empty text parses to one empty row. |
| `Codec.RowString` | maze.js:83-87 | The forEach loop builds exactly the encoded row. |
| `Codec.StoreMazeString` | maze.js:81-90 | The text stored is the encoding of the maze, in the stored alphabet. It parses back to the maze whenever the maze has a row. |
| `Builder.Placeholder` | maze.js:96-101 | The placeholder is a `2*height+1` by `2*width+1` lattice. A piece is obstructed exactly when it is not a cell, so the border is solid and every cell is open. |
| `Builder.MakeMaze` | maze.js:94-105 | The nested loops build exactly the placeholder. The text handed to storeMazeString parses back to it. |
| `Builder.CommentExampleIsPlaceholder` | maze.js:71 | The seven-row example in parseMazeString's comment parses to the 3 x 3 placeholder. |
| `Movement.ActionOf` | maze.js:116-158 | A key steers only when it is one of that direction's exact key names; any other key does nothing. |
| `Movement.KeysAreCaseSensitive` | maze.js:116-158 | Upper-case letters and other spellings of the arrow keys do nothing. |
| `Movement.Decide` | maze.js:116-159 | Unrecognised keys stay put. A steering key stays put exactly when the divider one step in its direction is obstructed. A move lands two steps in the key's direction, on an existing piece, past a divider that is not obstructed. The handler throws before detaching exactly for the left key with no divider to its left; it throws after detaching only when the divider is open and the landing piece is missing. |
| `Movement.MissingLeftGuard` | maze.js:122-141 | The left case without optional chaining differs from the uniform rule only in column 0: there it throws before detaching the player, where the uniform rule detaches it. From a cell position all directions follow the uniform rule. |
| `Movement.LeftThrowKeepsPlayer` | maze.js:122 | Worked example: a left press in column 0 throws with the player still in place, and the next press is handled from the same piece. |
| `Movement.MoveRule` | maze.js:119-156 | On a rectangular lattice, a steering key moves the player exactly when the divider one step away exists and is open and the piece two steps away exists. The player then lands on that piece. |
| `Movement.EnclosedMoveStaysOnCells` | maze.js:119-122 | In an enclosed lattice a press from a cell never throws, and every move lands on a cell. |
| `Movement.WalkStaysOnCells` | maze.js:107-159 | In an enclosed lattice, any sequence of key presses from a cell keeps the player on a cell and never detaches it. |
| `Movement.PlaceholderTrapsPlayer` | maze.js:94-101 | In the placeholder lattice no sequence of key presses moves the player. |
| `Movement.Player.constructor` | maze.js:204-211 | The player is placed on the lattice piece of the start cell. |
| `Movement.Player.Move` | maze.js:109-160 | One key press moves an attached player to where `Decide` says and otherwise leaves it in place. A press that detaches it clears `attached`, and a detached player only throws. The player stays on an existing cell position (odd row and column). |

## Left out

- DOM rendering in showMaze (maze.js:162-218) is not modelled: element creation, CSS classes, pixel and percentage sizes, `DIVIDER_PIXELS`, and appending to the page. Only the marks of each piece are modelled.
- The DOM plumbing of movePlayer is not modelled: reading the position back from element ids and moving the player node. The position is explicit state, and a detached player node is the `attached` flag; the position it last had is kept.
- Movement.Walk: once a press has detached the player, every later press throws and nothing can change. The model ends the walk with `None` to stand for this.
- Codec.ParseRow: a Dafny `char` stands for one UTF-16 code unit of the source's strings. The source's `split('')` splits a character outside the Basic Multilingual Plane into two code units, so such text parses to longer rows there than in the model. Stored text is always ASCII, so the stored alphabet and the round trips are unaffected.
- The `localStorage.setItem` write (maze.js:89) and `window.onload` (maze.js:220-229) are persistence and start-up I/O. `StoreMazeString` returns the text instead of writing it.
- Registering the keydown listener (maze.js:209) is event wiring. A new listener is added whenever the start piece is drawn.
- Builder.MakeMaze takes the cell counts as parameters. The source reads the constants `WIDTH` and `HEIGHT`, which is the call `MakeMaze(WIDTH, HEIGHT)`.
- The literal `temporaryMazeString` (maze.js:27-54) is not modelled. Nothing in the source claims a property of it.
- Maze generation, a goal-reached reset and validation of parsed text are not modelled, because the source has none of them (maze.js:92-93, 221-224).
