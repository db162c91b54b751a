/**
 * The board transforms of the rotation variant (app/lib/boardRotationUtils.ts):
 * a 90-degree left or right rotation of the grid, gravity settling, and the two
 * composed. Each operation allocates a fresh grid and fills it in nested loops;
 * the methods here do the same on `array2` and are proved against functions on
 * grids as values, about which the lemmas below are stated.
 *
 * Row 0 is the top row; the highest row index is the bottom, where stones settle.
 */
module BoardRotation {

  /** A cell is `null` (empty) or holds a stone of some colour. */
  datatype Cell = Empty | Stone(colour: string)

  datatype Direction = Left | Right

  /** A grid as a value: a sequence of rows. */
  type Grid = seq<seq<Cell>>

  predicate Rectangular(g: Grid, rows: nat, cols: nat) {
    |g| == rows && forall r :: 0 <= r < rows ==> |g[r]| == cols
  }

  /** The only shape on which the rotation loops index inside the board. */
  predicate Square(g: Grid) {
    |g| > 0 && Rectangular(g, |g|, |g|)
  }

  /** Every row has the first row's width. */
  predicate Board(g: Grid) {
    |g| > 0 && Rectangular(g, |g|, |g[0]|)
  }

  /** The contents of an `array2`, row by row. */
  ghost function Cells(a: array2<Cell>): (g: Grid)
    reads a
    ensures Rectangular(g, a.Length0, a.Length1)
  {
    seq(a.Length0, i requires 0 <= i < a.Length0 reads a =>
      seq(a.Length1, j requires 0 <= j < a.Length1 reads a => a[i, j]))
  }

  // ---------------------------------------------------------------- rotation

  /** Counter-clockwise: cell (i, j) of the result is cell (j, n-1-i) of `g`. */
  function RotateLeft(g: Grid): (r: Grid)
    requires Square(g)
    ensures Square(r) && |r| == |g|
  {
    var n := |g|;
    seq(n, i requires 0 <= i < n => seq(n, j requires 0 <= j < n => g[j][n - 1 - i]))
  }

  /** Clockwise: cell (i, j) of the result is cell (n-1-j, i) of `g`. */
  function RotateRight(g: Grid): (r: Grid)
    requires Square(g)
    ensures Square(r) && |r| == |g|
  {
    var n := |g|;
    seq(n, i requires 0 <= i < n => seq(n, j requires 0 <= j < n => g[n - 1 - j][i]))
  }

  function Rotate(g: Grid, direction: Direction): (r: Grid)
    requires Square(g)
    ensures Square(r) && |r| == |g|
  {
    match direction
    case Left => RotateLeft(g)
    case Right => RotateRight(g)
  }

  /** A right rotation undoes a left one. */
  lemma RightUndoesLeft(g: Grid)
    requires Square(g)
    ensures RotateRight(RotateLeft(g)) == g
  {
    var n, r := |g|, RotateRight(RotateLeft(g));
    forall i | 0 <= i < n ensures r[i] == g[i] {
      assert forall j :: 0 <= j < n ==> r[i][j] == RotateLeft(g)[n - 1 - j][i] == g[i][j];
    }
  }

  /** A left rotation undoes a right one. */
  lemma LeftUndoesRight(g: Grid)
    requires Square(g)
    ensures RotateLeft(RotateRight(g)) == g
  {
    var n, r := |g|, RotateLeft(RotateRight(g));
    forall i | 0 <= i < n ensures r[i] == g[i] {
      assert forall j :: 0 <= j < n ==> r[i][j] == RotateRight(g)[j][n - 1 - i] == g[i][j];
    }
  }

  /** Two left rotations turn the board upside down: cell (i, j) comes from (n-1-i, n-1-j). */
  lemma HalfTurn(g: Grid)
    requires Square(g)
    ensures forall i, j :: 0 <= i < |g| && 0 <= j < |g| ==>
      RotateLeft(RotateLeft(g))[i][j] == g[|g| - 1 - i][|g| - 1 - j]
  {
    var n, l := |g|, RotateLeft(g);
    forall i, j | 0 <= i < n && 0 <= j < n
      ensures RotateLeft(l)[i][j] == g[n - 1 - i][n - 1 - j]
    {
      assert RotateLeft(l)[i][j] == l[j][n - 1 - i];
    }
  }

  /** Four left rotations give back the board. */
  lemma FourLeftsAreIdentity(g: Grid)
    requires Square(g)
    ensures RotateLeft(RotateLeft(RotateLeft(RotateLeft(g)))) == g
  {
    var n := |g|;
    var h := RotateLeft(RotateLeft(g));
    HalfTurn(g);
    HalfTurn(h);
    var r := RotateLeft(RotateLeft(h));
    forall i | 0 <= i < n ensures r[i] == g[i] {
      assert forall j :: 0 <= j < n ==> r[i][j] == h[n - 1 - i][n - 1 - j] == g[i][j];
    }
  }

  // ----------------------------------------------------------------- gravity

  /** Column `c`, read from the top row down. */
  function Column(g: Grid, c: nat): (col: seq<Cell>)
    requires forall r :: 0 <= r < |g| ==> c < |g[r]|
    ensures |col| == |g| && forall r :: 0 <= r < |g| ==> col[r] == g[r][c]
  {
    seq(|g|, r requires 0 <= r < |g| => g[r][c])
  }

  /** The stones of a column, top to bottom, with the empty cells dropped. */
  function Stones(s: seq<Cell>): (t: seq<Cell>)
    ensures |t| <= |s|
  {
    if s == [] then []
    else (if s[0] == Empty then [] else [s[0]]) + Stones(s[1..])
  }

  function Blanks(n: nat): (t: seq<Cell>)
    ensures |t| == n && forall k :: 0 <= k < n ==> t[k] == Empty
  {
    if n == 0 then [] else [Empty] + Blanks(n - 1)
  }

  /** A column after settling: its stones, in order, resting on the bottom row. */
  function Settle(s: seq<Cell>): (t: seq<Cell>)
    ensures |t| == |s|
  {
    Blanks(|s| - |Stones(s)|) + Stones(s)
  }

  /** `applyGravity` as a function: every column settled independently. */
  function ApplyGravity(g: Grid): (r: Grid)
    requires Board(g)
    ensures Board(r) && Rectangular(r, |g|, |g[0]|)
  {
    var rows, cols := |g|, |g[0]|;
    seq(rows, i requires 0 <= i < rows =>
      seq(cols, c requires 0 <= c < cols => Settle(Column(g, c))[i]))
  }

  /** No stone floats: a stone above the bottom row has a stone right under it. */
  predicate NoFloating(g: Grid)
    requires Board(g)
  {
    forall r, c :: 0 <= r < |g| - 1 && 0 <= c < |g[0]| ==> Supported(g, r, c)
  }

  /** Cell (r, c) is empty or rests on a stone. */
  predicate Supported(g: Grid, r: nat, c: nat)
    requires Board(g) && r < |g| - 1 && c < |g[0]|
  {
    g[r][c] != Empty ==> g[r + 1][c] != Empty
  }

  predicate ColumnNoFloating(s: seq<Cell>) {
    forall i :: 0 <= i < |s| - 1 && s[i] != Empty ==> s[i + 1] != Empty
  }

  lemma GravityColumn(g: Grid, c: nat)
    requires Board(g) && c < |g[0]|
    ensures Column(ApplyGravity(g), c) == Settle(Column(g, c))
  {
  }

  lemma {:induction false} StonesAppend(a: seq<Cell>, b: seq<Cell>)
    ensures Stones(a + b) == Stones(a) + Stones(b)
  {
    if a == [] {
      assert a + b == b;
    } else {
      assert (a + b)[1..] == a[1..] + b;
      StonesAppend(a[1..], b);
    }
  }

  lemma {:induction false} StonesAreStones(s: seq<Cell>)
    ensures forall k :: 0 <= k < |Stones(s)| ==> Stones(s)[k] != Empty
  {
    if s != [] {
      StonesAreStones(s[1..]);
    }
  }

  lemma {:induction false} StonesOfBlanks(n: nat)
    ensures Stones(Blanks(n)) == []
  {
    if n > 0 {
      assert Blanks(n)[1..] == Blanks(n - 1);
      StonesOfBlanks(n - 1);
    }
  }

  lemma {:induction false} StonesOfStones(s: seq<Cell>)
    requires forall k :: 0 <= k < |s| ==> s[k] != Empty
    ensures Stones(s) == s
  {
    if s != [] {
      StonesOfStones(s[1..]);
    }
  }

  /** Settling keeps the column's stones and their top-to-bottom order. */
  lemma SettleKeepsStones(s: seq<Cell>)
    ensures Stones(Settle(s)) == Stones(s)
  {
    StonesAppend(Blanks(|s| - |Stones(s)|), Stones(s));
    StonesOfBlanks(|s| - |Stones(s)|);
    StonesAreStones(s);
    StonesOfStones(Stones(s));
  }

  lemma MultisetCons(s: seq<Cell>)
    requires s != []
    ensures multiset(s) == multiset{s[0]} + multiset(s[1..])
  {
    assert s == [s[0]] + s[1..];
  }

  /** An empty top cell stays on top when the column settles. */
  lemma SettleEmptyHead(s: seq<Cell>)
    requires s != [] && s[0] == Empty
    ensures Settle(s) == [Empty] + Settle(s[1..])
  {
    var rest := s[1..];
    var k := |rest| - |Stones(rest)|;
    StonesEmptyHead(s);
    BlanksCons(k);
    ConcatAssoc([Empty], Blanks(k), Stones(rest));
  }

  lemma StonesEmptyHead(s: seq<Cell>)
    requires s != [] && s[0] == Empty
    ensures Stones(s) == Stones(s[1..])
  {
  }

  lemma BlanksCons(k: nat)
    ensures Blanks(k + 1) == [Empty] + Blanks(k)
  {
  }

  lemma ConcatAssoc(a: seq<Cell>, b: seq<Cell>, c: seq<Cell>)
    ensures (a + b) + c == a + (b + c)
  {
  }

  /** A stone on top of a column joins the settled rest of it. */
  lemma SettleStoneHead(s: seq<Cell>)
    requires s != [] && s[0] != Empty
    ensures multiset(Settle(s)) == multiset{s[0]} + multiset(Settle(s[1..]))
  {
    var rest := s[1..];
    var k := |rest| - |Stones(rest)|;
    assert Stones(s) == [s[0]] + Stones(rest);
    assert Settle(s) == Blanks(k) + ([s[0]] + Stones(rest));
  }

  /** Settling rearranges the cells of the column and adds or loses none. */
  lemma {:induction false} SettleIsPermutation(s: seq<Cell>)
    ensures multiset(Settle(s)) == multiset(s)
  {
    if s != [] {
      SettleIsPermutation(s[1..]);
      MultisetCons(s);
      if s[0] == Empty {
        SettleEmptyHead(s);
      } else {
        SettleStoneHead(s);
      }
    }
  }

  /** In a settled column no stone floats. */
  lemma SettleNoFloating(s: seq<Cell>)
    ensures ColumnNoFloating(Settle(s))
  {
    StonesAreStones(s);
  }

  lemma {:induction false} AllStonesBelow(s: seq<Cell>)
    requires ColumnNoFloating(s)
    requires s != [] && s[0] != Empty
    ensures forall k :: 0 <= k < |s| ==> s[k] != Empty
  {
    if |s| > 1 {
      AllStonesBelow(s[1..]);
    }
  }

  /** A column in which no stone floats is already settled. */
  lemma {:induction false} SettleFixesNoFloating(s: seq<Cell>)
    requires ColumnNoFloating(s)
    ensures Settle(s) == s
  {
    if s == [] {
    } else if s[0] != Empty {
      AllStonesBelow(s);
      StonesOfStones(s);
    } else {
      SettleFixesNoFloating(s[1..]);
      assert Blanks(|s| - |Stones(s)|) == [Empty] + Blanks(|s[1..]| - |Stones(s[1..])|);
      assert s == [s[0]] + s[1..];
    }
  }

  /** Where each cell of a settled column comes from. */
  lemma SettleLayout(s: seq<Cell>)
    ensures forall r :: 0 <= r < |s| ==>
      Settle(s)[r] == if r <= |s| - 1 - |Stones(s)| then Empty else Stones(s)[r - (|s| - |Stones(s)|)]
  {
  }

  lemma StonesStep(s: seq<Cell>, i: nat)
    requires i < |s|
    ensures Stones(s[i..]) == (if s[i] == Empty then [] else [s[i]]) + Stones(s[i + 1..])
  {
    assert s[i..][1..] == s[i + 1..];
  }

  lemma SettleIdempotent(s: seq<Cell>)
    ensures Settle(Settle(s)) == Settle(s)
  {
    SettleKeepsStones(s);
  }

  /** After gravity each column holds its empty cells on top and its stones below, in order. */
  lemma GravityLayout(g: Grid, c: nat)
    requires Board(g) && c < |g[0]|
    ensures var k := |Stones(Column(g, c))|;
      forall r :: 0 <= r < |g| ==>
        ApplyGravity(g)[r][c] == if r < |g| - k then Empty else Stones(Column(g, c))[r - (|g| - k)]
  {
    var a := ApplyGravity(g);
    GravityColumn(g, c);
    SettleLayout(Column(g, c));
    forall r | 0 <= r < |g| ensures a[r][c] == Column(a, c)[r] {
    }
  }

  /**
   * Gravity keeps, column by column, the stones read top to bottom (so their
   * order and the count of every colour), and every cell of the column.
   */
  lemma GravityKeepsColumns(g: Grid, c: nat)
    requires Board(g) && c < |g[0]|
    ensures Stones(Column(ApplyGravity(g), c)) == Stones(Column(g, c))
    ensures multiset(Column(ApplyGravity(g), c)) == multiset(Column(g, c))
    ensures var k := |Stones(Column(g, c))|;
      forall r :: 0 <= r < |g| ==>
        ApplyGravity(g)[r][c] == if r < |g| - k then Empty else Stones(Column(g, c))[r - (|g| - k)]
  {
    GravityColumn(g, c);
    SettleKeepsStones(Column(g, c));
    SettleIsPermutation(Column(g, c));
    GravityLayout(g, c);
  }

  /** After gravity no stone floats. */
  lemma GravityNoFloating(g: Grid)
    requires Board(g)
    ensures NoFloating(ApplyGravity(g))
  {
    var a := ApplyGravity(g);
    forall r, c | 0 <= r < |a| - 1 && 0 <= c < |a[0]|
      ensures Supported(a, r, c)
    {
      GravityColumn(g, c);
      SettleNoFloating(Column(g, c));
      assert Column(a, c)[r] == a[r][c];
    }
  }

  /** Gravity leaves exactly the boards without floating stones unchanged. */
  lemma GravityFixpoints(g: Grid)
    requires Board(g)
    ensures ApplyGravity(g) == g <==> NoFloating(g)
  {
    if NoFloating(g) {
      var a := ApplyGravity(g);
      forall c | 0 <= c < |g[0]| ensures Column(a, c) == Column(g, c) {
        var col := Column(g, c);
        assert ColumnNoFloating(col) by {
          forall i | 0 <= i < |col| - 1 && col[i] != Empty ensures col[i + 1] != Empty {
            assert Supported(g, i, c);
          }
        }
        SettleFixesNoFloating(col);
      }
      forall r | 0 <= r < |g| ensures a[r] == g[r] {
        forall c | 0 <= c < |g[0]| ensures a[r][c] == g[r][c] {
          assert Column(a, c)[r] == Column(g, c)[r];
        }
      }
    } else {
      GravityNoFloating(g);
    }
  }

  /** Settling a settled board changes nothing. */
  lemma GravityIdempotent(g: Grid)
    requires Board(g)
    ensures ApplyGravity(ApplyGravity(g)) == ApplyGravity(g)
  {
    GravityNoFloating(g);
    GravityFixpoints(ApplyGravity(g));
  }

  // ----------------------------------------------------------------- methods

  lemma GridsEqual(a: Grid, b: Grid, rows: nat, cols: nat)
    requires Rectangular(a, rows, cols) && Rectangular(b, rows, cols)
    requires forall i, j :: 0 <= i < rows && 0 <= j < cols ==> a[i][j] == b[i][j]
    ensures a == b
  {
    forall i | 0 <= i < rows ensures a[i] == b[i] {
      assert forall j :: 0 <= j < cols ==> a[i][j] == b[i][j];
    }
  }

  /** `rotateBoardMatrix`: fills a fresh grid of the same size cell by cell. */
  method RotateBoardMatrix(board: array2<Cell>, direction: Direction) returns (rotated: array2<Cell>)
    requires board.Length0 == board.Length1 > 0
    ensures fresh(rotated)
    ensures rotated.Length0 == board.Length0 && rotated.Length1 == board.Length1
    ensures direction == Left ==> forall i, j :: 0 <= i < rotated.Length0 && 0 <= j < rotated.Length1 ==>
      rotated[i, j] == board[j, board.Length1 - 1 - i]
    ensures direction == Right ==> forall i, j :: 0 <= i < rotated.Length0 && 0 <= j < rotated.Length1 ==>
      rotated[i, j] == board[board.Length0 - 1 - j, i]
    ensures Cells(rotated) == Rotate(Cells(board), direction)
  {
    var rows, cols := board.Length0, board.Length1;
    rotated := new Cell[rows, cols]((i, j) => Empty);
    if direction == Left {
      for i := 0 to rows
        invariant forall i', j :: 0 <= i' < i && 0 <= j < cols ==> rotated[i', j] == board[j, cols - 1 - i']
      {
        for j := 0 to cols
          invariant forall i', j' :: 0 <= i' < i && 0 <= j' < cols ==> rotated[i', j'] == board[j', cols - 1 - i']
          invariant forall j' :: 0 <= j' < j ==> rotated[i, j'] == board[j', cols - 1 - i]
        {
          rotated[i, j] := board[j, cols - 1 - i];
        }
      }
      LeftCells(board, rotated);
    } else {
      for i := 0 to rows
        invariant forall i', j :: 0 <= i' < i && 0 <= j < cols ==> rotated[i', j] == board[rows - 1 - j, i']
      {
        for j := 0 to cols
          invariant forall i', j' :: 0 <= i' < i && 0 <= j' < cols ==> rotated[i', j'] == board[rows - 1 - j', i']
          invariant forall j' :: 0 <= j' < j ==> rotated[i, j'] == board[rows - 1 - j', i]
        {
          rotated[i, j] := board[rows - 1 - j, i];
        }
      }
      RightCells(board, rotated);
    }
  }

  /** An array filled cell by cell as a left rotation holds the rotated grid. */
  lemma LeftCells(board: array2<Cell>, rotated: array2<Cell>)
    requires board.Length0 == board.Length1 == rotated.Length0 == rotated.Length1 > 0
    requires forall i, j :: 0 <= i < rotated.Length0 && 0 <= j < rotated.Length1 ==>
      rotated[i, j] == board[j, board.Length1 - 1 - i]
    ensures Cells(rotated) == RotateLeft(Cells(board))
  {
    var n, g := board.Length0, Cells(board);
    var a, b := Cells(rotated), RotateLeft(g);
    forall i, j | 0 <= i < n && 0 <= j < n ensures a[i][j] == b[i][j] {
      assert a[i][j] == rotated[i, j];
      assert b[i][j] == g[j][n - 1 - i];
    }
    GridsEqual(a, b, n, n);
  }

  /** An array filled cell by cell as a right rotation holds the rotated grid. */
  lemma RightCells(board: array2<Cell>, rotated: array2<Cell>)
    requires board.Length0 == board.Length1 == rotated.Length0 == rotated.Length1 > 0
    requires forall i, j :: 0 <= i < rotated.Length0 && 0 <= j < rotated.Length1 ==>
      rotated[i, j] == board[board.Length0 - 1 - j, i]
    ensures Cells(rotated) == RotateRight(Cells(board))
  {
    var n, g := board.Length0, Cells(board);
    var a, b := Cells(rotated), RotateRight(g);
    forall i, j | 0 <= i < n && 0 <= j < n ensures a[i][j] == b[i][j] {
      assert a[i][j] == rotated[i, j];
      assert b[i][j] == g[n - 1 - j][i];
    }
    GridsEqual(a, b, n, n);
  }

  /**
   * `applyGravity`: for each column, scans from the bottom row up and writes its
   * stones into a fresh grid at a falling `bottomRow`.
   */
  method ApplyGravityTo(board: array2<Cell>) returns (settled: array2<Cell>)
    requires board.Length0 > 0
    ensures fresh(settled)
    ensures settled.Length0 == board.Length0 && settled.Length1 == board.Length1
    ensures Cells(settled) == ApplyGravity(Cells(board))
  {
    var rows, cols := board.Length0, board.Length1;
    settled := new Cell[rows, cols]((i, j) => Empty);
    for col := 0 to cols
      invariant forall r, c :: 0 <= r < rows && 0 <= c < col ==> settled[r, c] == Settle(Column(Cells(board), c))[r]
      invariant forall r, c :: 0 <= r < rows && col <= c < cols ==> settled[r, c] == Empty
    {
      DropColumn(board, settled, col, Column(Cells(board), col));
    }
    GridsEqual(Cells(settled), ApplyGravity(Cells(board)), rows, cols);
  }

  /** The body of `applyGravity`'s outer loop: settles column `col` into `settled`. */
  method DropColumn(board: array2<Cell>, settled: array2<Cell>, col: nat, ghost s: seq<Cell>)
    requires board != settled
    requires settled.Length0 == board.Length0 > 0 && settled.Length1 == board.Length1
    requires col < board.Length1
    requires |s| == board.Length0 && forall r :: 0 <= r < |s| ==> s[r] == board[r, col]
    requires forall r :: 0 <= r < settled.Length0 ==> settled[r, col] == Empty
    modifies settled
    ensures forall r :: 0 <= r < settled.Length0 ==> settled[r, col] == Settle(s)[r]
    ensures forall r, c :: 0 <= r < settled.Length0 && 0 <= c < settled.Length1 && c != col ==>
      settled[r, c] == old(settled[r, c])
  {
    var rows := board.Length0;
    var bottomRow := rows - 1;
    var row := rows - 1;
    ghost var placed: seq<Cell> := [];
    assert ColumnOf(settled, col) == Blanks(bottomRow + 1) + placed;
    while row >= 0
      invariant -1 <= row < rows
      invariant placed == Stones(s[row + 1..])
      invariant bottomRow == rows - 1 - |placed|
      invariant ColumnOf(settled, col) == Blanks(bottomRow + 1) + placed
      invariant forall r, c :: 0 <= r < rows && 0 <= c < settled.Length1 && c != col ==>
        settled[r, c] == old(settled[r, c])
    {
      StonesStep(s, row);
      assert board[row, col] == s[row];
      if board[row, col] != Empty {
        assert |placed| <= rows - 1 - row;
        PlaceStone(settled, col, bottomRow, board[row, col], placed);
        placed := [board[row, col]] + placed;
        bottomRow := bottomRow - 1;
      }
      row := row - 1;
    }
    SettledByScan(s, placed);
  }

  /** Once the scan has seen every cell, the blanks over the placed stones are the settled column. */
  lemma SettledByScan(s: seq<Cell>, placed: seq<Cell>)
    requires placed == Stones(s[0..])
    ensures Blanks(|s| - |placed|) + placed == Settle(s)
  {
    assert s[0..] == s;
  }

  /** Writes stone `x` onto the lowest empty cell `bottomRow` of column `col`. */
  method PlaceStone(settled: array2<Cell>, col: nat, bottomRow: nat, x: Cell, ghost placed: seq<Cell>)
    requires col < settled.Length1 && bottomRow < settled.Length0
    requires ColumnOf(settled, col) == Blanks(bottomRow + 1) + placed
    modifies settled
    ensures ColumnOf(settled, col) == Blanks(bottomRow) + ([x] + placed)
    ensures forall r, c :: 0 <= r < settled.Length0 && 0 <= c < settled.Length1 && c != col ==>
      settled[r, c] == old(settled[r, c])
  {
    ghost var before := ColumnOf(settled, col);
    settled[bottomRow, col] := x;
    assert ColumnOf(settled, col) == before[bottomRow := x];
    BlanksUpdate(bottomRow, placed, x);
  }

  /** Column `col` of an `array2`, top to bottom. */
  ghost function ColumnOf(a: array2<Cell>, col: nat): (column: seq<Cell>)
    reads a
    requires col < a.Length1
    ensures |column| == a.Length0 && forall r :: 0 <= r < a.Length0 ==> column[r] == a[r, col]
  {
    seq(a.Length0, r requires 0 <= r < a.Length0 reads a => a[r, col])
  }

  /** Dropping a stone onto the lowest empty cell of a column. */
  lemma BlanksUpdate(b: nat, placed: seq<Cell>, x: Cell)
    ensures (Blanks(b + 1) + placed)[b := x] == Blanks(b) + ([x] + placed)
  {
    var l, r := (Blanks(b + 1) + placed)[b := x], Blanks(b) + ([x] + placed);
    forall i | 0 <= i < |l| ensures l[i] == r[i] {
      if i > b {
        assert l[i] == placed[i - b - 1] == r[i];
      }
    }
  }

  /** `rotateAndSettleBoard`: the rotated grid (for the animation) and the settled one. */
  method RotateAndSettleBoard(board: array2<Cell>, direction: Direction)
    returns (rotatedBoard: array2<Cell>, settledBoard: array2<Cell>)
    requires board.Length0 == board.Length1 > 0
    ensures fresh(rotatedBoard) && fresh(settledBoard)
    ensures Cells(rotatedBoard) == Rotate(Cells(board), direction)
    ensures Cells(settledBoard) == ApplyGravity(Cells(rotatedBoard))
    ensures NoFloating(Cells(settledBoard))
  {
    rotatedBoard := RotateBoardMatrix(board, direction);
    settledBoard := ApplyGravityTo(rotatedBoard);
    GravityNoFloating(Cells(rotatedBoard));
  }
}
