/**
 * The persisted text form of a maze lattice: one character per piece,
 * '1' for obstructed and '0' for open, rows separated by '|'.
 * Parsing maps '1' to true and every other character to false.
 */
module Codec {
  import opened Lattice

  const SEPARATOR: char := '|'

  /** Number of occurrences of `c` in `s`. */
  function Count(s: string, c: char): nat
  {
    if s == [] then 0 else (if s[0] == c then 1 else 0) + Count(s[1..], c)
  }

  /** Text that only uses the alphabet of the stored format. */
  predicate IsMazeText(s: string)
  {
    forall c :: c in s ==> c == '0' || c == '1' || c == SEPARATOR
  }

  /**
   * `s.split('|')`: the maximal separator-free segments, in order. There is
   * always one more segment than separators, so "" splits into [""].
   */
  function Split(s: string): (parts: seq<string>)
    ensures |parts| == Count(s, SEPARATOR) + 1
    ensures forall k :: 0 <= k < |parts| ==> SEPARATOR !in parts[k]
  {
    if s == [] then [[]]
    else
      var rest := Split(s[1..]);
      if s[0] == SEPARATOR then [[]] + rest
      else [[s[0]] + rest[0]] + rest[1..]
  }

  /** `parts.join('|')`: the empty list joins to "". */
  function Join(parts: seq<string>): string
  {
    if |parts| == 0 then []
    else if |parts| == 1 then parts[0]
    else parts[0] + [SEPARATOR] + Join(parts[1..])
  }

  /** Splitting and joining again gives back the text. */
  lemma {:induction false} JoinSplit(s: string)
    ensures Join(Split(s)) == s
  {
    if s != [] {
      var rest := Split(s[1..]);
      JoinSplit(s[1..]);
      if s[0] == SEPARATOR {
        assert Split(s) == [[]] + rest;
        assert ([[]] + rest)[1..] == rest;
      } else {
        var parts := [[s[0]] + rest[0]] + rest[1..];
        assert Split(s) == parts;
        if |rest| > 1 {
          assert parts[1..] == rest[1..];
          assert Join(rest) == rest[0] + [SEPARATOR] + Join(rest[1..]);
        }
      }
    }
  }

  /** Splitting a separator-free prefix onto the first segment of the rest. */
  lemma {:induction false} SplitPrefix(a: string, t: string)
    requires SEPARATOR !in a
    ensures Split(a + t) == [a + Split(t)[0]] + Split(t)[1..]
  {
    var st := Split(t);
    if a == [] {
      assert a + t == t;
      assert a + st[0] == st[0];
      assert st == [st[0]] + st[1..];
    } else {
      SplitPrefix(a[1..], t);
      var r := Split(a[1..] + t);
      assert r == [a[1..] + st[0]] + st[1..];
      assert (a + t)[1..] == a[1..] + t;
      assert (a + t)[0] == a[0] && a[0] != SEPARATOR;
      assert Split(a + t) == [[a[0]] + r[0]] + r[1..];
      assert r[1..] == st[1..];
      assert [a[0]] + (a[1..] + st[0]) == a + st[0];
    }
  }

  /** Joining separator-free segments and splitting again gives back the segments. */
  lemma {:induction false} SplitJoin(parts: seq<string>)
    requires |parts| >= 1
    requires forall k :: 0 <= k < |parts| ==> SEPARATOR !in parts[k]
    ensures Split(Join(parts)) == parts
  {
    if |parts| == 1 {
      SplitPrefix(parts[0], []);
      assert parts[0] + [] == parts[0];
    } else {
      SplitJoin(parts[1..]);
      var tail := [SEPARATOR] + Join(parts[1..]);
      assert Join(parts) == parts[0] + tail;
      SplitPrefix(parts[0], tail);
      assert tail[1..] == Join(parts[1..]);
      assert tail != [] && tail[0] == SEPARATOR;
      assert Split(tail) == [[]] + parts[1..];
      assert parts[0] + [] == parts[0];
      assert ([[]] + parts[1..])[1..] == parts[1..];
      assert parts == [parts[0]] + parts[1..];
    }
  }

  /** One segment turned into booleans: exactly the '1' characters are obstructed. */
  function ParseRow(row: string): (bits: seq<bool>)
    ensures |bits| == |row|
    ensures forall i :: 0 <= i < |row| ==> (bits[i] <==> row[i] == '1')
  {
    if row == [] then [] else [row[0] == '1'] + ParseRow(row[1..])
  }

  /** Every segment parsed in turn. */
  function ParseRows(rows: seq<string>): (g: Grid)
    ensures |g| == |rows|
    ensures forall k :: 0 <= k < |rows| ==> g[k] == ParseRow(rows[k])
  {
    if rows == [] then [] else [ParseRow(rows[0])] + ParseRows(rows[1..])
  }

  /**
   * parseMazeString: one row per '|'-separated segment, each as long as its
   * segment, an entry obstructed exactly when its character is '1'.
   */
  function Parse(text: string): (g: Grid)
    ensures |g| == Count(text, SEPARATOR) + 1
    ensures forall k :: 0 <= k < |g| ==> |g[k]| == |Split(text)[k]|
    ensures forall k, i :: 0 <= k < |g| && 0 <= i < |g[k]| ==> (g[k][i] <==> Split(text)[k][i] == '1')
  {
    ParseRows(Split(text))
  }

  /** The character stored for one piece. */
  function Bit(b: bool): char
  {
    if b then '1' else '0'
  }

  /** One row as '0'/'1' characters, one per entry, in order. */
  function EncodeRow(row: seq<bool>): (s: string)
    ensures |s| == |row|
    ensures forall i :: 0 <= i < |row| ==> s[i] == Bit(row[i])
  {
    if row == [] then [] else [Bit(row[0])] + EncodeRow(row[1..])
  }

  /** Every row encoded in turn. */
  function EncodeRows(g: Grid): (rows: seq<string>)
    ensures |rows| == |g|
    ensures forall k :: 0 <= k < |g| ==> rows[k] == EncodeRow(g[k])
  {
    if g == [] then [] else [EncodeRow(g[0])] + EncodeRows(g[1..])
  }

  /** The text storeMazeString persists: encoded rows joined by '|'. */
  function Encode(g: Grid): string
  {
    Join(EncodeRows(g))
  }

  /** An encoded row contains no separator and only '0'/'1'. */
  lemma EncodeRowAlphabet(row: seq<bool>)
    ensures SEPARATOR !in EncodeRow(row)
    ensures forall c :: c in EncodeRow(row) ==> c == '0' || c == '1'
  {
  }

  /** Encoding a grid with at least one row and parsing the text gives the grid back. */
  lemma ParseEncode(g: Grid)
    requires |g| >= 1
    ensures Parse(Encode(g)) == g
  {
    var rows := EncodeRows(g);
    forall k | 0 <= k < |rows| ensures SEPARATOR !in rows[k] {
      EncodeRowAlphabet(g[k]);
    }
    SplitJoin(rows);
    var back := ParseRows(rows);
    forall k | 0 <= k < |g| ensures back[k] == g[k] {
      assert back[k] == ParseRow(EncodeRow(g[k]));
    }
  }

  /** Parsing text in the stored alphabet and encoding it again gives the text back. */
  lemma EncodeParse(text: string)
    requires IsMazeText(text)
    ensures Encode(Parse(text)) == text
  {
    var parts := Split(text);
    JoinSplit(text);
    forall k | 0 <= k < |parts| ensures EncodeRow(ParseRow(parts[k])) == parts[k] {
      var p := parts[k];
      forall i | 0 <= i < |p| ensures p[i] == '0' || p[i] == '1' {
        CharOfSplit(text, k, i);
      }
    }
    var again := EncodeRows(ParseRows(parts));
    assert again == parts;
  }

  /** A character of a segment is a character of the text. */
  lemma {:induction false} CharOfSplit(text: string, k: nat, i: nat)
    requires k < |Split(text)| && i < |Split(text)[k]|
    ensures Split(text)[k][i] in text
  {
    var rest := Split(text[1..]);
    if text[0] == SEPARATOR {
      assert Split(text)[k] == rest[k - 1];
      CharOfSplit(text[1..], k - 1, i);
    } else if k == 0 && i == 0 {
    } else if k == 0 {
      CharOfSplit(text[1..], 0, i - 1);
    } else {
      CharOfSplit(text[1..], k, i);
    }
  }

  /** A character outside the alphabet is read as open and written back as '0'. */
  lemma OtherCharactersAreLost()
    ensures Parse("2") == [[false]]
    ensures Encode(Parse("2")) == "0"
  {
    var two: string := "2";
    assert two[1..] == [] && Split([]) == [[]];
    assert Split(two) == [[two[0]] + []] + [];
    assert ParseRow(two) == [false];
  }

  /** The character a stored-then-reloaded piece comes back as: '1' and '|' survive, all else becomes '0'. */
  function Normal(c: char): char
  {
    if c == '1' || c == SEPARATOR then c else '0'
  }

  /** A text with every character replaced by its Normal form. */
  function Normalised(s: string): (r: string)
    ensures |r| == |s|
    ensures forall i :: 0 <= i < |s| ==> r[i] == Normal(s[i])
  {
    if s == [] then [] else [Normal(s[0])] + Normalised(s[1..])
  }

  /** Every segment normalised in turn. */
  function NormalisedRows(parts: seq<string>): seq<string>
  {
    if parts == [] then [] else [Normalised(parts[0])] + NormalisedRows(parts[1..])
  }

  /** Normalising keeps separators where they are, so it commutes with splitting. */
  lemma {:induction false} SplitNormalised(text: string)
    ensures Split(Normalised(text)) == NormalisedRows(Split(text))
  {
    if text == [] {
      assert NormalisedRows([[]]) == [Normalised([])];
    } else {
      var n := Normalised(text);
      assert n == [Normal(text[0])] + Normalised(text[1..]);
      assert n[1..] == Normalised(text[1..]);
      SplitNormalised(text[1..]);
      var rest := Split(text[1..]);
      if text[0] == SEPARATOR {
        assert Split(n) == [[]] + NormalisedRows(rest);
        assert ([[]] + rest)[1..] == rest;
        assert NormalisedRows([[]] + rest) == [Normalised([])] + NormalisedRows(rest);
      } else {
        var first := [text[0]] + rest[0];
        var parts := [first] + rest[1..];
        assert Split(text) == parts;
        assert parts[1..] == rest[1..];
        assert NormalisedRows(parts) == [Normalised(first)] + NormalisedRows(rest[1..]);
        assert first[1..] == rest[0];
        assert Normalised(first) == [Normal(text[0])] + Normalised(rest[0]);
        assert NormalisedRows(rest) == [Normalised(rest[0])] + NormalisedRows(rest[1..]);
        assert Split(n) == [[n[0]] + NormalisedRows(rest)[0]] + NormalisedRows(rest)[1..];
      }
    }
  }

  /** Parsing ignores the difference between a segment and its normal form. */
  lemma {:induction false} ParseNormalisedRows(parts: seq<string>)
    ensures ParseRows(NormalisedRows(parts)) == ParseRows(parts)
  {
    if parts != [] {
      ParseNormalisedRows(parts[1..]);
      var p := parts[0];
      assert ParseRow(Normalised(p)) == ParseRow(p);
      assert NormalisedRows(parts)[1..] == NormalisedRows(parts[1..]);
    }
  }

  /**
   * Storing what was parsed gives the text back with every character other
   * than '1' and '|' replaced by '0'.
   */
  lemma StoreAfterParse(text: string)
    ensures Encode(Parse(text)) == Normalised(text)
  {
    var n := Normalised(text);
    SplitNormalised(text);
    ParseNormalisedRows(Split(text));
    assert Parse(n) == Parse(text);
    assert IsMazeText(n) by {
      forall c | c in n ensures c == '0' || c == '1' || c == SEPARATOR {
        var i :| 0 <= i < |n| && n[i] == c;
      }
    }
    EncodeParse(n);
  }

  /** Text with any character outside '0', '1' and '|' does not survive parsing and storing. */
  lemma NotMazeTextIsLost(text: string)
    requires !IsMazeText(text)
    ensures Encode(Parse(text)) != text
  {
    var c :| c in text && c != '0' && c != '1' && c != SEPARATOR;
    var i :| 0 <= i < |text| && text[i] == c;
    StoreAfterParse(text);
    assert Encode(Parse(text))[i] == '0';
  }

  /** The grid with no rows encodes to "" but "" parses to one empty row. */
  lemma EmptyGridDoesNotRoundTrip()
    ensures Encode([]) == ""
    ensures Parse("") == [[]]
  {
  }

  /** The arrow function given to `maze.map`: a forEach loop appending one character per entry. */
  method RowString(row: seq<bool>) returns (rowString: string)
    ensures rowString == EncodeRow(row)
  {
    rowString := "";
    var j := 0;
    while j < |row|
      invariant 0 <= j <= |row|
      invariant |rowString| == j
      invariant forall i :: 0 <= i < j ==> rowString[i] == Bit(row[i])
    {
      rowString := rowString + [if row[j] then '1' else '0'];
      j := j + 1;
    }
  }

  /**
   * storeMazeString without the localStorage write: returns the text it
   * stores, which parseMazeString turns back into `maze` whenever the maze
   * has a row.
   */
  method StoreMazeString(maze: Grid) returns (text: string)
    ensures text == Encode(maze)
    ensures IsMazeText(text)
    ensures |maze| >= 1 ==> Parse(text) == maze
  {
    var rowStrings: seq<string> := [];
    var k := 0;
    while k < |maze|
      invariant 0 <= k <= |maze|
      invariant |rowStrings| == k
      invariant forall m :: 0 <= m < k ==> rowStrings[m] == EncodeRow(maze[m])
    {
      var rowString := RowString(maze[k]);
      rowStrings := rowStrings + [rowString];
      k := k + 1;
    }
    assert rowStrings == EncodeRows(maze);
    text := Join(rowStrings);
    EncodeAlphabet(maze);
    if |maze| >= 1 {
      ParseEncode(maze);
    }
  }

  /** Encoded text only uses '0', '1' and '|'. */
  lemma {:induction false} EncodeAlphabet(g: Grid)
    ensures IsMazeText(Encode(g))
  {
    JoinAlphabet(EncodeRows(g));
  }

  lemma {:induction false} JoinAlphabet(rows: seq<string>)
    requires forall k :: 0 <= k < |rows| ==> IsMazeText(rows[k])
    ensures IsMazeText(Join(rows))
  {
    if |rows| > 1 {
      JoinAlphabet(rows[1..]);
    }
  }
}
