/**
 * makeMaze: the placeholder lattice of a `width` x `height` maze, in which
 * every cell is open and every divider and corner piece is obstructed.
 * It is a grid with no passages at all, not yet a maze.
 */
module Builder {
  import opened Lattice
  import opened Codec

  /**
   * The placeholder lattice: `2*height+1` rows of `2*width+1` pieces, a piece
   * obstructed exactly when it is not a cell; so the border is solid and
   * every cell is open.
   */
  function Placeholder(width: nat, height: nat): (g: Grid)
    ensures IsLattice(g, width, height)
    ensures forall i, j :: InLattice(g, i, j) ==> (g[i][j] <==> !IsCellPosition(i, j))
    ensures Enclosed(g) && CellsOpen(g)
  {
    seq(2 * height + 1, i => seq(2 * width + 1, j => i % 2 == 0 || j % 2 == 0))
  }

  /**
   * makeMaze, for any cell counts (the source calls it with WIDTH and HEIGHT):
   * builds the placeholder row by row and returns it together with the text
   * it hands to storeMazeString, which parses back to the same lattice.
   */
  method MakeMaze(width: nat, height: nat) returns (maze: Grid, stored: string)
    ensures maze == Placeholder(width, height)
    ensures stored == Encode(maze)
    ensures Parse(stored) == maze
  {
    maze := [];
    var i := 0;
    while i <= height * 2
      invariant 0 <= i <= 2 * height + 1
      invariant |maze| == i
      invariant forall r :: 0 <= r < i ==> maze[r] == Placeholder(width, height)[r]
    {
      var row: seq<bool> := [];
      var j := 0;
      while j <= width * 2
        invariant 0 <= j <= 2 * width + 1
        invariant |row| == j
        invariant forall c :: 0 <= c < j ==> row[c] == (i % 2 == 0 || c % 2 == 0)
      {
        row := row + [i % 2 == 0 || j % 2 == 0];
        j := j + 1;
      }
      maze := maze + [row];
      i := i + 1;
    }
    stored := StoreMazeString(maze);
  }

  /**
   * The example in the comment of parseMazeString, seven rows alternating
   * "1111111" and "1010101" joined by '|', is the 3 x 3 placeholder.
   */
  lemma CommentExampleIsPlaceholder()
    ensures var full, cells := "1111111", "1010101";
            Parse(Join([full, cells, full, cells, full, cells, full])) == Placeholder(3, 3)
  {
    var full, cells := "1111111", "1010101";
    var g := Placeholder(3, 3);
    var rows := [full, cells, full, cells, full, cells, full];
    EncodeRowOf(g[0], full);
    EncodeRowOf(g[1], cells);
    assert forall k :: 0 <= k < 7 ==> g[k] == if k % 2 == 0 then g[0] else g[1];
    assert EncodeRows(g) == rows;
    ParseEncode(g);
  }

  lemma EncodeRowOf(row: seq<bool>, s: string)
    requires |row| == |s| && forall i :: 0 <= i < |s| ==> s[i] == Bit(row[i])
    ensures EncodeRow(row) == s
  {
  }
}
