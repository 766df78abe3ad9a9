/**
 * movePlayer: the player sits on lattice position `(y, x)`; a recognised key
 * looks at the divider one step away and, unless it is obstructed, moves
 * the player two steps, onto the next cell.  Looking up a piece that does
 * not exist throws (the source dereferences a missing element): before the
 * player node is removed (`Threw`, the player stays where it was) or after
 * it (`OffGrid`, the player is no longer on the page).
 */
module Movement {
  import opened Lattice
  import Builder

  datatype Direction = Left | Up | Right | Down

  /** What a key does: steer in a direction, or nothing. */
  datatype KeyAction = Steer(dir: Direction) | Ignore

  /** The exact, case-sensitive key names that steer in each direction. */
  function KeysFor(d: Direction): set<string>
  {
    match d
    case Left => {"a", "ArrowLeft"}
    case Up => {"w", "ArrowUp"}
    case Right => {"d", "ArrowRight"}
    case Down => {"s", "ArrowDown"}
  }

  /** The switch on `keyboardEvent.key`. */
  function ActionOf(key: string): (act: KeyAction)
    ensures act.Steer? ==> key in KeysFor(act.dir)
    ensures act.Ignore? ==> forall d :: key !in KeysFor(d)
  {
    if key == "a" || key == "ArrowLeft" then Steer(Left)
    else if key == "w" || key == "ArrowUp" then Steer(Up)
    else if key == "d" || key == "ArrowRight" then Steer(Right)
    else if key == "s" || key == "ArrowDown" then Steer(Down)
    else Ignore
  }

  /** Matching is exact: upper-case letters and other spellings do nothing. */
  lemma KeysAreCaseSensitive()
    ensures ActionOf("A") == Ignore && ActionOf("W") == Ignore
    ensures ActionOf("D") == Ignore && ActionOf("S") == Ignore
    ensures ActionOf("arrowleft") == Ignore && ActionOf("Left") == Ignore
  {
  }

  /** Unit step `(dy, dx)` of a direction; rows grow downwards. */
  function Offset(d: Direction): (int, int)
  {
    match d
    case Left => (0, -1)
    case Up => (-1, 0)
    case Right => (0, 1)
    case Down => (1, 0)
  }

  /**
   * Outcome of one key press: the player moved, stayed, the handler threw
   * while the player was still in place, or it threw after detaching the
   * player from its cell.
   */
  datatype MoveResult = Moved(y: int, x: int) | Stayed | Threw | OffGrid

  /**
   * One key press from `(y, x)`.  Up, right and down read the divider with
   * optional chaining, so a divider that does not exist counts as open;
   * left reads it without, so a missing divider throws before anything is
   * changed.  An open divider with no piece two steps away throws after the
   * player has been removed from its cell.
   */
  function Decide(g: Grid, y: int, x: int, key: string): (r: MoveResult)
    ensures ActionOf(key).Ignore? ==> r == Stayed
    ensures r.Moved? ==> ActionOf(key).Steer?
    ensures r.Moved? ==> InLattice(g, r.y, r.x)
    ensures r.Moved? ==> (r.y == y && (r.x == x - 2 || r.x == x + 2)) || (r.x == x && (r.y == y - 2 || r.y == y + 2))
    ensures r.Moved? ==> !Obstructed(g, (y + r.y) / 2, (x + r.x) / 2)
    ensures r.Moved? ==> var o := Offset(ActionOf(key).dir); r == Moved(y + 2 * o.0, x + 2 * o.1)
    ensures ActionOf(key).Steer? ==>
              var o := Offset(ActionOf(key).dir); (Obstructed(g, y + o.0, x + o.1) <==> r == Stayed)
    ensures r == Threw <==> ActionOf(key) == Steer(Left) && !InLattice(g, y, x - 1)
    ensures r == OffGrid ==>
              ActionOf(key).Steer? &&
              (var o := Offset(ActionOf(key).dir); !Obstructed(g, y + o.0, x + o.1) && !InLattice(g, y + 2 * o.0, x + 2 * o.1))
  {
    match ActionOf(key)
    case Ignore => Stayed
    case Steer(d) =>
      var (dy, dx) := Offset(d);
      if d == Left && !InLattice(g, y + dy, x + dx) then Threw
      else if Obstructed(g, y + dy, x + dx) then Stayed
      else if !InLattice(g, y + 2 * dy, x + 2 * dx) then OffGrid
      else Moved(y + 2 * dy, x + 2 * dx)
  }

  /**
   * The rule as the source intends it for every direction: blocked when the
   * divider is obstructed, otherwise the player lands two steps away if that
   * piece exists.
   */
  function Uniform(g: Grid, y: int, x: int, d: Direction): MoveResult
  {
    var (dy, dx) := Offset(d);
    if Obstructed(g, y + dy, x + dx) then Stayed
    else if InLattice(g, y + 2 * dy, x + 2 * dx) then Moved(y + 2 * dy, x + 2 * dx)
    else OffGrid
  }

  /**
   * From an existing piece, the missing optional chaining on the left
   * divider matters only in column 0: there the source throws before
   * detaching the player, where the uniform rule would detach it.  From a
   * cell position every direction follows the uniform rule.
   */
  lemma MissingLeftGuard(g: Grid, y: int, x: int, key: string)
    requires InLattice(g, y, x)
    requires ActionOf(key).Steer?
    ensures ActionOf(key).dir == Left && x == 0 ==>
              Decide(g, y, x, key) == Threw && Uniform(g, y, x, Left) == OffGrid
    ensures !(ActionOf(key).dir == Left && x == 0) ==> Decide(g, y, x, key) == Uniform(g, y, x, ActionOf(key).dir)
    ensures IsCellPosition(y, x) ==> Decide(g, y, x, key) == Uniform(g, y, x, ActionOf(key).dir)
  {
  }

  /**
   * On a rectangular lattice a steering key moves the player exactly when the
   * divider one step away exists and is open, and the piece two steps away
   * exists; the player then lands on that piece.
   */
  lemma MoveRule(g: Grid, width: nat, height: nat, y: int, x: int, d: Direction, key: string)
    requires IsLattice(g, width, height) && InLattice(g, y, x)
    requires ActionOf(key) == Steer(d)
    ensures var (dy, dx) := Offset(d);
            Decide(g, y, x, key).Moved? <==>
              InLattice(g, y + dy, x + dx) && !g[y + dy][x + dx] && InLattice(g, y + 2 * dy, x + 2 * dx)
    ensures var (dy, dx) := Offset(d);
            Decide(g, y, x, key).Moved? ==> Decide(g, y, x, key) == Moved(y + 2 * dy, x + 2 * dx)
  {
  }

  /**
   * In an enclosed `width` x `height` lattice a player on a cell never makes
   * the handler throw, and every move lands on another cell.
   */
  lemma EnclosedMoveStaysOnCells(g: Grid, width: nat, height: nat, y: int, x: int, key: string)
    requires IsLattice(g, width, height) && Enclosed(g)
    requires InLattice(g, y, x) && IsCellPosition(y, x)
    ensures Decide(g, y, x, key) != OffGrid && Decide(g, y, x, key) != Threw
    ensures var r := Decide(g, y, x, key);
            r.Moved? ==> IsCellPosition(r.y, r.x)
  {
  }

  /**
   * The player's position after a sequence of key presses.  A press that
   * throws before detaching leaves it in place; once the player has been
   * detached (None) it can no longer be found and every later press throws.
   */
  function Walk(g: Grid, y: int, x: int, keys: seq<string>): Option<(int, int)>
    decreases |keys|
  {
    if keys == [] then Some((y, x))
    else
      match Decide(g, y, x, keys[0])
      case Moved(y', x') => Walk(g, y', x', keys[1..])
      case Stayed => Walk(g, y, x, keys[1..])
      case Threw => Walk(g, y, x, keys[1..])
      case OffGrid => None
  }

  datatype Option<T> = None | Some(value: T)

  /**
   * In column 0 a left press throws before the player is detached, so later
   * presses are still handled from the same piece.
   */
  lemma LeftThrowKeepsPlayer()
    ensures Decide([[false]], 0, 0, "a") == Threw
    ensures Walk([[false]], 0, 0, ["a", "z"]) == Some((0, 0))
  {
    assert Walk([[false]], 0, 0, ["z"]) == Some((0, 0)) by {
      assert ["z"][1..] == [];
    }
    assert ["a", "z"][1..] == ["z"];
  }

  /**
   * In an enclosed lattice, any sequence of key presses from a cell keeps the
   * player on a cell of the lattice and never detaches it.
   */
  lemma {:induction false} WalkStaysOnCells(g: Grid, width: nat, height: nat, y: int, x: int, keys: seq<string>)
    requires IsLattice(g, width, height) && Enclosed(g)
    requires InLattice(g, y, x) && IsCellPosition(y, x)
    ensures Walk(g, y, x, keys).Some?
    ensures var p := Walk(g, y, x, keys).value; InLattice(g, p.0, p.1) && IsCellPosition(p.0, p.1)
    decreases |keys|
  {
    if keys != [] {
      EnclosedMoveStaysOnCells(g, width, height, y, x, keys[0]);
      match Decide(g, y, x, keys[0])
      case Moved(y', x') => WalkStaysOnCells(g, width, height, y', x', keys[1..]);
      case Stayed => WalkStaysOnCells(g, width, height, y, x, keys[1..]);
    }
  }

  /** In the placeholder lattice every divider is obstructed, so no key press moves the player. */
  lemma {:induction false} PlaceholderTrapsPlayer(width: nat, height: nat, y: int, x: int, keys: seq<string>)
    requires InLattice(Builder.Placeholder(width, height), y, x) && IsCellPosition(y, x)
    ensures Walk(Builder.Placeholder(width, height), y, x, keys) == Some((y, x))
    decreases |keys|
  {
    if keys != [] {
      PlaceholderPressStays(width, height, y, x, keys[0]);
      PlaceholderTrapsPlayer(width, height, y, x, keys[1..]);
    }
  }

  /** One press on a cell of the placeholder lattice faces an obstructed divider or does nothing. */
  lemma PlaceholderPressStays(width: nat, height: nat, y: int, x: int, key: string)
    requires InLattice(Builder.Placeholder(width, height), y, x) && IsCellPosition(y, x)
    ensures Decide(Builder.Placeholder(width, height), y, x, key) == Stayed
  {
    var g := Builder.Placeholder(width, height);
    if ActionOf(key).Steer? {
      var o := Offset(ActionOf(key).dir);
      var (wy, wx) := (y + o.0, x + o.1);
      assert 0 <= wy < |g| && |g[wy]| == 2 * width + 1 && 0 <= wx < |g[wy]|;
      assert !IsCellPosition(wy, wx);
      assert Obstructed(g, wy, wx);
    }
  }

  /**
   * The player token: its lattice position, and whether its node is still in
   * a cell, over a lattice that never changes during play.
   */
  class Player {
    const maze: Grid
    var y: int
    var x: int
    var attached: bool

    /** The player always sits on an existing cell position. */
    ghost predicate Valid()
      reads this
    {
      InLattice(maze, y, x) && IsCellPosition(y, x)
    }

    /** showMaze puts the player on the piece of the start cell. */
    constructor (maze: Grid)
      requires InLattice(maze, LatticeOf(START).0, LatticeOf(START).1)
      ensures Valid() && this.maze == maze && attached
      ensures (y, x) == LatticeOf(START)
    {
      this.maze := maze;
      y, x := LatticeOf(START).0, LatticeOf(START).1;
      attached := true;
    }

    /**
     * One keydown event: moves the player as Decide says, and otherwise
     * leaves it where it was.  A detached player cannot be found, so the
     * handler throws at once.
     */
    method Move(key: string) returns (r: MoveResult)
      requires Valid()
      modifies this
      ensures Valid()
      ensures r == if old(attached) then Decide(maze, old(y), old(x), key) else Threw
      ensures attached <==> old(attached) && r != OffGrid
      ensures r.Moved? ==> y == r.y && x == r.x
      ensures !r.Moved? ==> y == old(y) && x == old(x)
    {
      if !attached {
        r := Threw;
        return;
      }
      match ActionOf(key)
      case Ignore =>
        r := Stayed;
      case Steer(d) =>
        var (dy, dx) := Offset(d);
        if d == Left && !InLattice(maze, y + dy, x + dx) {
          r := Threw;
          return;
        }
        var canGo := !Obstructed(maze, y + dy, x + dx);
        if !canGo {
          r := Stayed;
        } else if !InLattice(maze, y + 2 * dy, x + 2 * dx) {
          attached := false;
          r := OffGrid;
        } else {
          y, x := y + 2 * dy, x + 2 * dx;
          r := Moved(y, x);
        }
    }
  }
}
