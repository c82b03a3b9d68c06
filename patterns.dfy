/**
 * Patterns in the plaintext format (`!` comment lines, `.` dead and `O` live cells),
 * and stamping a pattern into a row-major world.
 */
module Patterns {
  import opened Wrappers
  import Arith
  import Rules

  /** A rectangle of cells, row-major: row `r`, column `c` is `store[r * size.0 + c]`. */
  datatype Pattern = Pattern(store: seq<bool>, size: (nat, nat)) {
    /** Every row the size announces is backed by cells. */
    predicate Valid() {
      size.0 * size.1 <= |store|
    }
  }

  datatype PatternError = NoPatternLines | RaggedLines | ZeroWidth

  datatype PlaceError = WorldTooSmall | NoRoom

  // ---------------------------------------------------------------------------
  // Lines: trimming and byte length

  /** Unicode `White_Space`, the set `str::trim` removes. */
  predicate IsWhiteSpace(c: char) {
    var u := c as int;
    (0x09 <= u <= 0x0D) || u == 0x20 || u == 0x85 || u == 0xA0 || u == 0x1680
    || (0x2000 <= u <= 0x200A) || u == 0x2028 || u == 0x2029 || u == 0x202F
    || u == 0x205F || u == 0x3000
  }

  predicate AllWhiteSpace(s: string) {
    forall k :: 0 <= k < |s| ==> IsWhiteSpace(s[k])
  }

  /** The end of the white space that starts at `i`. */
  function SpaceEnd(s: string, i: nat): (k: nat)
    requires i <= |s|
    ensures i <= k <= |s|
    decreases |s| - i
  {
    if i == |s| || !IsWhiteSpace(s[i]) then i else SpaceEnd(s, i + 1)
  }

  /** The start of the white space that ends at `j`. */
  function SpaceStart(s: string, j: nat): (k: nat)
    requires j <= |s|
    ensures k <= j
  {
    if j == 0 || !IsWhiteSpace(s[j - 1]) then j else SpaceStart(s, j - 1)
  }

  /** `s` without its leading white space. */
  function TrimStart(s: string): string {
    s[SpaceEnd(s, 0)..]
  }

  /** `s` without its trailing white space. */
  function TrimEnd(s: string): string {
    s[..SpaceStart(s, |s|)]
  }

  /** `str::trim`. */
  function Trim(s: string): (r: string)
    ensures |r| <= |s|
  {
    TrimEnd(TrimStart(s))
  }

  /** The white space from `i` on ends at the first character that is not white space. */
  lemma {:induction false} SpaceEndMeaning(s: string, i: nat)
    requires i <= |s|
    ensures var k := SpaceEnd(s, i);
      AllWhiteSpace(s[i..k]) && (k == |s| || !IsWhiteSpace(s[k]))
    decreases |s| - i
  {
    if i < |s| && IsWhiteSpace(s[i]) {
      SpaceEndMeaning(s, i + 1);
      var k := SpaceEnd(s, i);
      assert s[i..k] == [s[i]] + s[i + 1..k];
    }
  }

  /** The white space up to `j` starts just after the last character that is not white space. */
  lemma {:induction false} SpaceStartMeaning(s: string, j: nat)
    requires j <= |s|
    ensures var k := SpaceStart(s, j);
      AllWhiteSpace(s[k..j]) && (k == 0 || !IsWhiteSpace(s[k - 1]))
  {
    if j > 0 && IsWhiteSpace(s[j - 1]) {
      SpaceStartMeaning(s, j - 1);
      var k := SpaceStart(s, j);
      assert s[k..j] == s[k..j - 1] + [s[j - 1]];
    }
  }

  lemma TrimStartMeaning(s: string)
    ensures var r := TrimStart(s);
      |r| <= |s| && r == s[|s| - |r|..] && AllWhiteSpace(s[..|s| - |r|])
      && (r == [] || !IsWhiteSpace(r[0]))
  {
    SpaceEndMeaning(s, 0);
    var k := SpaceEnd(s, 0);
    assert s[..k] == s[0..k];
  }

  lemma TrimEndMeaning(s: string)
    ensures var r := TrimEnd(s);
      |r| <= |s| && r == s[..|r|] && AllWhiteSpace(s[|r|..])
      && (r == [] || !IsWhiteSpace(r[|r| - 1]))
  {
    SpaceStartMeaning(s, |s|);
    var k := SpaceStart(s, |s|);
    assert s[k..] == s[k..|s|];
  }

  /**
   * The trimmed line is a slice of the line with only white space around it, and
   * neither of its ends is white space.
   */
  lemma TrimMeaning(s: string)
    ensures exists i, j :: TrimmedSliceAt(s, Trim(s), i, j)
    ensures Trim(s) == [] || (!IsWhiteSpace(Trim(s)[0]) && !IsWhiteSpace(Trim(s)[|Trim(s)| - 1]))
  {
    var t := TrimStart(s);
    var r := TrimEnd(t);
    TrimStartMeaning(s);
    TrimEndMeaning(t);
    assert TrimmedSliceAt(s, r, |s| - |t|, |s| - |t| + |r|) by {
      assert s[|s| - |t|..][..|r|] == s[|s| - |t|..|s| - |t| + |r|];
      assert s[|s| - |t| + |r|..] == t[|r|..];
    }
    if r != [] {
      assert r[0] == t[0];
    }
    assert Trim(s) == r;
  }

  /** A row with no white space at either end is its own trim; in particular, trimming twice is trimming once. */
  lemma TrimmedRow(s: string)
    requires s == [] || (!IsWhiteSpace(s[0]) && !IsWhiteSpace(s[|s| - 1]))
    ensures Trim(s) == s
    ensures Trim(Trim(s)) == Trim(s)
  {
  }

  /** `r` is `s[i..j]` and everything outside `i..j` is white space. */
  predicate TrimmedSliceAt(s: string, r: string, i: nat, j: nat) {
    i <= j <= |s| && r == s[i..j] && AllWhiteSpace(s[..i]) && AllWhiteSpace(s[j..])
  }

  /** The UTF-8 size of one scalar value. */
  function CharUtf8Len(c: char): (n: nat)
    ensures 1 <= n <= 4
    ensures n == 1 <==> Rules.IsAsciiChar(c)
  {
    if Rules.IsAsciiChar(c) then 1
    else if (c as int) < 0x800 then 2
    else if (c as int) < 0x1_0000 then 3
    else 4
  }

  /** `str::len`: the length of `s` in UTF-8 bytes. */
  function Utf8Len(s: string): (n: nat)
    ensures |s| <= n <= 4 * |s|
    ensures n == |s| <==> forall k :: 0 <= k < |s| ==> Rules.IsAsciiChar(s[k])
  {
    if s == [] then 0
    else
      var n := Utf8Len(s[..|s| - 1]) + CharUtf8Len(s[|s| - 1]);
      assert forall k :: 0 <= k < |s| - 1 ==> s[..|s| - 1][k] == s[k];
      n
  }

  // ---------------------------------------------------------------------------
  // `from_plaintext`

  /** A line the reader drops before trimming: a `!` comment or an empty line. */
  predicate Skipped(line: string) {
    line == [] || line[0] == '!'
  }

  /** The pattern rows of `lines`: the lines not skipped, each trimmed, in order. */
  function PatternLines(lines: seq<string>): (rows: seq<string>)
    ensures |rows| <= |lines|
  {
    if lines == [] then []
    else
      var last := lines[|lines| - 1];
      if Skipped(last) then PatternLines(lines[..|lines| - 1])
      else PatternLines(lines[..|lines| - 1]) + [Trim(last)]
  }

  /** The cells of one row: `O` is alive, any other character dead. */
  function RowCells(row: string): (cells: seq<bool>)
    ensures |cells| == |row|
    ensures forall c :: 0 <= c < |row| ==> (cells[c] <==> row[c] == 'O')
  {
    seq(|row|, c requires 0 <= c < |row| => row[c] == 'O')
  }

  /** The cells of all rows, one after the other. */
  function Cells(rows: seq<string>): seq<bool> {
    if rows == [] then [] else Cells(rows[..|rows| - 1]) + RowCells(rows[|rows| - 1])
  }

  /** Every row is `width` UTF-8 bytes long. */
  predicate SameWidth(rows: seq<string>, width: nat) {
    forall k :: 0 <= k < |rows| ==> Utf8Len(rows[k]) == width
  }

  /**
   * What `from_plaintext` returns: no row is an error, so are rows of different byte
   * lengths, and (where the source divides by zero) rows that are all blank; otherwise
   * the concatenated cells, as wide as a row and as high as the whole rows they fill.
   */
  function Plaintext(lines: seq<string>): (r: Result<Pattern, PatternError>)
    ensures r == Err(NoPatternLines) <==> PatternLines(lines) == []
    ensures r == Err(RaggedLines) <==>
      PatternLines(lines) != [] && !SameWidth(PatternLines(lines), Utf8Len(PatternLines(lines)[0]))
    ensures r.Ok? ==>
      && r.value.Valid() && r.value.size.0 >= 1
      && SameWidth(PatternLines(lines), r.value.size.0)
      && r.value.store == Cells(PatternLines(lines))
      && r.value.size.1 == Arith.FullRows(|r.value.store|, r.value.size.0)
  {
    var rows := PatternLines(lines);
    if rows == [] then Err(NoPatternLines)
    else
      var width := Utf8Len(rows[0]);
      if !SameWidth(rows, width) then Err(RaggedLines)
      else if width == 0 then Err(ZeroWidth)
      else
        var store := Cells(rows);
        Arith.FullRowsIsDivision(|store|, width);
        Ok(Pattern(store, (width, Arith.FullRows(|store|, width))))
  }

  lemma {:induction false} PatternLinesAppend(a: seq<string>, b: seq<string>)
    ensures PatternLines(a + b) == PatternLines(a) + PatternLines(b)
  {
    if b != [] {
      var c := b[..|b| - 1];
      PatternLinesAppend(a, c);
      assert (a + b)[..|a + b| - 1] == a + c;
    } else {
      assert a + b == a;
    }
  }

  /** A comment or empty line anywhere changes nothing. */
  lemma SkippedLineIgnored(a: seq<string>, line: string, b: seq<string>)
    requires Skipped(line)
    ensures Plaintext(a + [line] + b) == Plaintext(a + b)
  {
    SkippedLineNoRow(a, line, b);
  }

  lemma SkippedLineNoRow(a: seq<string>, line: string, b: seq<string>)
    requires Skipped(line)
    ensures PatternLines(a + [line] + b) == PatternLines(a + b)
  {
    PatternLinesAppend(a + [line], b);
    PatternLinesAppend(a, [line]);
    PatternLinesAppend(a, b);
    assert [line][..0] == [];
    assert PatternLines([line]) == [];
  }

  lemma PatternLinesStep(lines: seq<string>, i: nat)
    requires i < |lines|
    ensures Skipped(lines[i]) ==> PatternLines(lines[..i + 1]) == PatternLines(lines[..i])
    ensures !Skipped(lines[i]) ==> PatternLines(lines[..i + 1]) == PatternLines(lines[..i]) + [Trim(lines[i])]
  {
    assert lines[..i + 1][..i] == lines[..i];
  }

  /** A line that is kept and is its own trim is the next row. */
  lemma KeptRow(lines: seq<string>, i: nat)
    requires i < |lines| && !Skipped(lines[i]) && Trim(lines[i]) == lines[i]
    ensures PatternLines(lines[..i + 1]) == PatternLines(lines[..i]) + [lines[i]]
  {
    PatternLinesStep(lines, i);
  }

  lemma CellsStep(rows: seq<string>, row: string)
    ensures Cells(rows + [row]) == Cells(rows) + RowCells(row)
  {
    assert (rows + [row])[..|rows|] == rows;
  }

  lemma SameWidthStep(rows: seq<string>, row: string, w: nat)
    requires rows != [] && SameWidth(rows, w) && Utf8Len(row) == w
    ensures SameWidth(rows + [row], w) && (rows + [row])[0] == rows[0]
  {
    assert forall k :: 0 <= k < |rows| ==> (rows + [row])[k] == rows[k];
  }

  /** A kept line whose width differs from the first row's makes the whole input ragged. */
  lemma RaggedPrefix(lines: seq<string>, i: nat)
    requires i < |lines| && !Skipped(lines[i])
    requires PatternLines(lines[..i]) != []
    requires Utf8Len(Trim(lines[i])) != Utf8Len(PatternLines(lines[..i])[0])
    ensures Plaintext(lines) == Err(RaggedLines)
  {
    var rows := PatternLines(lines[..i]);
    var row := Trim(lines[i]);
    PatternLinesStep(lines, i);
    PatternLinesAppend(lines[..i + 1], lines[i + 1..]);
    assert lines[..i + 1] + lines[i + 1..] == lines;
    var all := PatternLines(lines);
    assert all[..|rows| + 1] == rows + [row];
    assert all[|rows|] == row && all[0] == rows[0];
  }

  /** Rows of one width `w`: an error when it is zero, otherwise the cells in rows of `w`. */
  lemma PlaintextOfEvenRows(lines: seq<string>, w: nat)
    requires PatternLines(lines) != [] && w == Utf8Len(PatternLines(lines)[0])
    requires SameWidth(PatternLines(lines), w)
    ensures w == 0 ==> Plaintext(lines) == Err(ZeroWidth)
    ensures w != 0 ==>
      Plaintext(lines) == Ok(Pattern(Cells(PatternLines(lines)), (w, Arith.FullRows(|Cells(PatternLines(lines))|, w))))
  {
  }

  /** What the reader has gathered from the kept rows `rows`: the first width, and the cells. */
  ghost predicate Scanned(rows: seq<string>, width: Option<nat>, store: seq<bool>) {
    && (width.None? <==> rows == [])
    && (width.Some? ==> width.value == Utf8Len(rows[0]) && SameWidth(rows, width.value))
    && store == Cells(rows)
  }

  /** Keeping one more row of the right width. */
  lemma ScanRow(rows: seq<string>, row: string, width: Option<nat>, store: seq<bool>)
    requires Scanned(rows, width, store)
    requires width.Some? ==> width.value == Utf8Len(row)
    ensures Scanned(rows + [row], if width.None? then Some(Utf8Len(row)) else width, store + RowCells(row))
  {
    CellsStep(rows, row);
    if width.None? {
      assert rows + [row] == [row];
    } else {
      SameWidthStep(rows, row, width.value);
    }
  }

  /** The reader: one pass over the lines, filtering, trimming, checking widths and collecting cells. */
  method FromPlaintext(lines: seq<string>) returns (r: Result<Pattern, PatternError>)
    ensures r == Plaintext(lines)
  {
    var store: seq<bool> := [];
    var width: Option<nat> := None;
    for i := 0 to |lines|
      invariant Scanned(PatternLines(lines[..i]), width, store)
    {
      var line := lines[i];
      PatternLinesStep(lines, i);
      if line != [] && line[0] != '!' {
        var row := Trim(line);
        var length := Utf8Len(row);
        ghost var before := width;
        match width {
          case None =>
            width := Some(length);
          case Some(x) =>
            if x != length {
              RaggedPrefix(lines, i);
              return Err(RaggedLines);
            }
        }
        ScanRow(PatternLines(lines[..i]), row, before, store);
        store := store + RowCells(row);
      } else {
        assert PatternLines(lines[..i + 1]) == PatternLines(lines[..i]);
      }
    }
    assert lines[..|lines|] == lines;
    match width {
      case None =>
        r := Err(NoPatternLines);
      case Some(x) =>
        PlaintextOfEvenRows(lines, x);
        if x == 0 {
          r := Err(ZeroWidth);
        } else {
          var height := |store| / x;
          Arith.FullRowsIsQuotient(|store|, x);
          r := Ok(Pattern(store, (x, height)));
        }
    }
  }

  /** Rows of equal length `w` laid end to end: row `y` column `x` is at `y * w + x`. */
  lemma {:induction false} CellsAt(rows: seq<string>, w: nat, y: nat, x: nat)
    requires forall k :: 0 <= k < |rows| ==> |rows[k]| == w
    requires y < |rows| && x < w
    ensures |Cells(rows)| == |rows| * w
    ensures y * w + x < |Cells(rows)|
    ensures Cells(rows)[y * w + x] <==> rows[y][x] == 'O'
  {
    CellsLength(rows, w);
    var init := rows[..|rows| - 1];
    CellsLength(init, w);
    if y < |rows| - 1 {
      CellsAt(init, w, y, x);
      Arith.IndexOfCell(x, y, w, |init|);
    } else {
      assert |Cells(init)| == y * w;
    }
  }

  lemma {:induction false} CellsLength(rows: seq<string>, w: nat)
    requires forall k :: 0 <= k < |rows| ==> |rows[k]| == w
    ensures |Cells(rows)| == |rows| * w
  {
    if rows != [] {
      var init := rows[..|rows| - 1];
      CellsLength(init, w);
      assert Cells(rows) == Cells(init) + RowCells(rows[|rows| - 1]);
      assert |init| * w + w == (|init| + 1) * w;
    }
  }

  /** Every row is plain ASCII. */
  predicate AsciiRows(rows: seq<string>) {
    forall k, c :: 0 <= k < |rows| && 0 <= c < |rows[k]| ==> Rules.IsAsciiChar(rows[k][c])
  }

  /** For an all-ASCII pattern the size is exactly (row length, number of rows). */
  lemma AsciiPatternShape(lines: seq<string>)
    requires Plaintext(lines).Ok? && AsciiRows(PatternLines(lines))
    ensures Plaintext(lines).value.size == (|PatternLines(lines)[0]|, |PatternLines(lines)|)
    ensures |Plaintext(lines).value.store| == |PatternLines(lines)| * |PatternLines(lines)[0]|
  {
    var p := Plaintext(lines).value;
    var rows := PatternLines(lines);
    var w := p.size.0;
    AsciiWidths(rows, w);
    CellsLength(rows, w);
    Arith.FullRowsOfWhole(|rows|, w);
  }

  /** ... and the cell in column `x` of row `y` is alive iff that row has an `O` there. */
  lemma AsciiPatternCell(lines: seq<string>, y: nat, x: nat)
    requires Plaintext(lines).Ok? && AsciiRows(PatternLines(lines))
    requires y < |PatternLines(lines)| && x < |PatternLines(lines)[0]|
    ensures y * |PatternLines(lines)[0]| + x < |Plaintext(lines).value.store|
    ensures Plaintext(lines).value.store[y * |PatternLines(lines)[0]| + x] <==> PatternLines(lines)[y][x] == 'O'
  {
    var p := Plaintext(lines).value;
    var rows := PatternLines(lines);
    AsciiWidths(rows, p.size.0);
    CellsAt(rows, p.size.0, y, x);
  }

  lemma AsciiWidths(rows: seq<string>, w: nat)
    requires AsciiRows(rows) && SameWidth(rows, w)
    ensures forall k :: 0 <= k < |rows| ==> |rows[k]| == w
  {
    forall k | 0 <= k < |rows| ensures |rows[k]| == w {
      assert Utf8Len(rows[k]) == w;
    }
  }

  /** The glider example: two comment lines and three rows. */
  lemma GliderPattern()
    ensures Plaintext(["!Name: Glider", "!", ".O.", "..O", "OOO"])
         == Ok(Pattern([false, true, false, false, false, true, true, true, true], (3, 3)))
  {
    var lines := ["!Name: Glider", "!", ".O.", "..O", "OOO"];
    var rows := [".O.", "..O", "OOO"];
    GliderRows(lines);
    GliderCells(rows);
    assert Utf8Len(".O.") == 3 && Utf8Len("..O") == 3 && Utf8Len("OOO") == 3;
    assert SameWidth(rows, 3);
    Arith.FullRowsOfWhole(3, 3);
  }

  lemma GliderRows(lines: seq<string>)
    requires lines == ["!Name: Glider", "!", ".O.", "..O", "OOO"]
    ensures PatternLines(lines) == [".O.", "..O", "OOO"]
  {
    GliderComments(lines);
    TrimmedRow(".O.");
    KeptRow(lines, 2);
    TrimmedRow("..O");
    KeptRow(lines, 3);
    TrimmedRow("OOO");
    KeptRow(lines, 4);
    assert lines[..5] == lines;
  }

  /** The two comment lines of the glider give no rows. */
  lemma GliderComments(lines: seq<string>)
    requires |lines| >= 2 && lines[0] == "!Name: Glider" && lines[1] == "!"
    ensures PatternLines(lines[..2]) == []
  {
    assert lines[..0] == [];
    PatternLinesStep(lines, 0);
    assert Skipped(lines[0]) && PatternLines(lines[..1]) == [];
    PatternLinesStep(lines, 1);
    assert Skipped(lines[1]);
  }

  lemma GliderCells(rows: seq<string>)
    requires rows == [".O.", "..O", "OOO"]
    ensures Cells(rows) == [false, true, false, false, false, true, true, true, true]
  {
    CellsStep([], rows[0]);
    CellsStep([rows[0]], rows[1]);
    CellsStep([rows[0], rows[1]], rows[2]);
    assert [] + [rows[0]] == [rows[0]] && [rows[0]] + [rows[1]] == [rows[0], rows[1]];
    assert [rows[0], rows[1]] + [rows[2]] == rows;
  }

  /** Two rows of different lengths are rejected. */
  lemma RaggedPattern()
    ensures Plaintext([".O", "..O"]) == Err(RaggedLines)
  {
    var lines := [".O", "..O"];
    TrimmedRow(".O");
    TrimmedRow("..O");
    PatternLinesStep(lines, 0);
    assert lines[..0] == [];
    assert Utf8Len(".O") == 2 && Utf8Len("..O") == 3;
    RaggedPrefix(lines, 1);
  }

  // ---------------------------------------------------------------------------
  // `place`

  /** World cell `i` lies inside the pattern's rectangle at `position` in its first `rows` rows. */
  predicate Covered(p: Pattern, worldSize: (nat, nat), position: (nat, nat), rows: nat, i: nat)
    requires worldSize.0 >= 1
  {
    var x, y := i % worldSize.0, i / worldSize.0;
    position.0 <= x < position.0 + p.size.0 && position.1 <= y < position.1 + rows
  }

  /**
   * The world with the first `rows` rows of `p` copied into the rectangle at `position`;
   * every other cell keeps its value.
   */
  function StampedRows(world: seq<bool>, p: Pattern, worldSize: (nat, nat), position: (nat, nat), rows: nat)
    : (r: seq<bool>)
    requires p.Valid() && rows <= p.size.1
    requires position.0 + p.size.0 <= worldSize.0 && position.1 + p.size.1 <= worldSize.1
    requires worldSize.0 * worldSize.1 <= |world|
    ensures |r| == |world|
  {
    if worldSize.0 == 0 then world
    else
      seq(|world|, i requires 0 <= i < |world| =>
        if Covered(p, worldSize, position, rows, i)
        then PatternCell(p, worldSize, position, i)
        else world[i])
  }

  /** The pattern cell that lands on covered world cell `i`. */
  function PatternCell(p: Pattern, worldSize: (nat, nat), position: (nat, nat), i: nat): bool
    requires p.Valid() && worldSize.0 >= 1 && Covered(p, worldSize, position, p.size.1, i)
  {
    var x, y := i % worldSize.0 - position.0, i / worldSize.0 - position.1;
    Arith.IndexOfCell(x, y, p.size.0, p.size.1);
    p.store[y * p.size.0 + x]
  }

  function Stamped(world: seq<bool>, p: Pattern, worldSize: (nat, nat), position: (nat, nat)): (r: seq<bool>)
    requires p.Valid()
    requires position.0 + p.size.0 <= worldSize.0 && position.1 + p.size.1 <= worldSize.1
    requires worldSize.0 * worldSize.1 <= |world|
    ensures |r| == |world|
  {
    StampedRows(world, p, worldSize, position, p.size.1)
  }

  /** World row `position.1 + row` of the rectangle starts at this index. */
  function RowStart(worldSize: (nat, nat), position: (nat, nat), row: nat): nat {
    position.0 + worldSize.0 * (position.1 + row)
  }

  /** Stamping row `row` changes world cell `i` iff `i` is one of the `p.size.0` cells from `RowStart`. */
  lemma StampRowAt(world: seq<bool>, p: Pattern, worldSize: (nat, nat), position: (nat, nat), row: nat, i: nat)
    requires p.Valid() && row < p.size.1
    requires position.0 + p.size.0 <= worldSize.0 && position.1 + p.size.1 <= worldSize.1
    requires worldSize.0 * worldSize.1 <= |world| && i < |world|
    ensures row * p.size.0 + p.size.0 <= |p.store|
    ensures var begin := RowStart(worldSize, position, row);
      StampedRows(world, p, worldSize, position, row + 1)[i]
      == if begin <= i < begin + p.size.0 then p.store[row * p.size.0 + (i - begin)]
         else StampedRows(world, p, worldSize, position, row)[i]
  {
    Arith.MulMonotone(row + 1, p.size.1, p.size.0);
    if worldSize.0 > 0 {
      Arith.RowSpan(i, position.0, position.1 + row, p.size.0, worldSize.0);
    }
  }

  /** The row `place` copies lies inside the world's `worldSize.0 * worldSize.1` cells. */
  lemma RowInWorld(p: Pattern, worldSize: (nat, nat), position: (nat, nat), row: nat)
    requires row < p.size.1
    requires position.0 + p.size.0 <= worldSize.0 && position.1 + p.size.1 <= worldSize.1
    ensures RowStart(worldSize, position, row) + p.size.0 <= worldSize.0 * worldSize.1
  {
    Arith.MulMonotone(position.1 + row + 1, worldSize.1, worldSize.0);
  }

  /**
   * `place`: a world smaller than its size claims, or a pattern that does not fit at
   * `position`, is an error that leaves the world alone; otherwise the pattern is copied
   * into its rectangle row by row and nothing else changes.
   */
  method Place(p: Pattern, world: array<bool>, worldSize: (nat, nat), position: (nat, nat))
    returns (r: Result<(), PlaceError>)
    requires p.Valid()
    modifies world
    ensures r == Err(WorldTooSmall) <==> worldSize.0 * worldSize.1 > world.Length
    ensures r == Err(NoRoom) <==>
      && worldSize.0 * worldSize.1 <= world.Length
      && (position.0 + p.size.0 > worldSize.0 || position.1 + p.size.1 > worldSize.1)
    ensures r.Err? ==> world[..] == old(world[..])
    ensures r.Ok? ==> world[..] == Stamped(old(world[..]), p, worldSize, position)
  {
    if worldSize.0 * worldSize.1 > world.Length {
      return Err(WorldTooSmall);
    }
    if position.0 + p.size.0 > worldSize.0 || position.1 + p.size.1 > worldSize.1 {
      return Err(NoRoom);
    }
    ghost var before := world[..];
    for row := 0 to p.size.1
      invariant world[..] == StampedRows(before, p, worldSize, position, row)
    {
      CopyRow(p, world, worldSize, position, row, before);
    }
    return Ok(());
  }

  /** One round of `place`'s loop: row `row` of the pattern is copied into its world row. */
  method CopyRow(p: Pattern, world: array<bool>, worldSize: (nat, nat), position: (nat, nat), row: nat,
                 ghost before: seq<bool>)
    requires p.Valid() && row < p.size.1
    requires position.0 + p.size.0 <= worldSize.0 && position.1 + p.size.1 <= worldSize.1
    requires worldSize.0 * worldSize.1 <= |before| && world.Length == |before|
    requires world[..] == StampedRows(before, p, worldSize, position, row)
    modifies world
    ensures world[..] == StampedRows(before, p, worldSize, position, row + 1)
  {
    var beginning := position.0 + worldSize.0 * (position.1 + row);
    var end := beginning + p.size.0;
    RowInWorld(p, worldSize, position, row);
    Arith.MulMonotone(row + 1, p.size.1, p.size.0);
    var origin := row * p.size.0;
    forall i | beginning <= i < end {
      world[i] := p.store[origin + (i - beginning)];
    }
    forall i | 0 <= i < world.Length
      ensures world[i] == StampedRows(before, p, worldSize, position, row + 1)[i]
    {
      StampRowAt(before, p, worldSize, position, row, i);
    }
  }

  /** A stamped pattern reads back: world cell (position.0 + x, position.1 + y) holds pattern cell (x, y). */
  lemma StampedReadsBack(world: seq<bool>, p: Pattern, worldSize: (nat, nat), position: (nat, nat), x: nat, y: nat)
    requires p.Valid()
    requires position.0 + p.size.0 <= worldSize.0 && position.1 + p.size.1 <= worldSize.1
    requires worldSize.0 * worldSize.1 <= |world|
    requires x < p.size.0 && y < p.size.1
    ensures (position.0 + x) + (position.1 + y) * worldSize.0 < worldSize.0 * worldSize.1 <= |world|
    ensures x + y * p.size.0 < |p.store|
    ensures Stamped(world, p, worldSize, position)[(position.0 + x) + (position.1 + y) * worldSize.0]
      == p.store[x + y * p.size.0]
  {
    Arith.IndexOfCell(position.0 + x, position.1 + y, worldSize.0, worldSize.1);
    Arith.DivModOfCell(position.0 + x, position.1 + y, worldSize.0);
    Arith.IndexOfCell(x, y, p.size.0, p.size.1);
  }

  /** Stamping leaves every world cell outside the rectangle as it was. */
  lemma StampedKeepsOutside(world: seq<bool>, p: Pattern, worldSize: (nat, nat), position: (nat, nat), i: nat)
    requires p.Valid()
    requires position.0 + p.size.0 <= worldSize.0 && position.1 + p.size.1 <= worldSize.1
    requires worldSize.0 * worldSize.1 <= |world|
    requires i < |world|
    requires worldSize.0 == 0 || !Covered(p, worldSize, position, p.size.1, i)
    ensures Stamped(world, p, worldSize, position)[i] == world[i]
  {
  }

  // ---------------------------------------------------------------------------
  // `calc_midpoint_placement`

  /** The offset that centres `p` in the world, rounding towards the top left. */
  function MidpointPlacement(p: Pattern, worldSize: (nat, nat)): (r: Result<(nat, nat), PlaceError>)
    ensures r.Err? <==> p.size.0 > worldSize.0 || p.size.1 > worldSize.1
    ensures r.Err? ==> r.error == NoRoom
    ensures r.Ok? ==>
      var left, top := r.value.0, r.value.1;
      var right, bottom := worldSize.0 - p.size.0 - left, worldSize.1 - p.size.1 - top;
      0 <= left <= right <= left + 1 && 0 <= top <= bottom <= top + 1
  {
    if p.size.0 > worldSize.0 || p.size.1 > worldSize.1 then Err(NoRoom)
    else Ok(((worldSize.0 - p.size.0) / 2, (worldSize.1 - p.size.1) / 2))
  }

  /** The centred position is one `place` accepts. */
  lemma MidpointFits(p: Pattern, worldSize: (nat, nat))
    requires MidpointPlacement(p, worldSize).Ok?
    ensures var pos := MidpointPlacement(p, worldSize).value;
      pos.0 + p.size.0 <= worldSize.0 && pos.1 + p.size.1 <= worldSize.1
  {
  }
}
