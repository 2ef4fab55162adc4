/** The Sudoku board generator: an N x N board filled by randomised
    backtracking, then punched with holes. */
module Sudoku {
  import opened SudokuSpec
  import opened Randomness

  /** (i, j) comes before (x, y) in the order fillBoard visits cells: the
      first index runs fastest, and the second advances when it wraps. */
  predicate Precedes(i: int, j: int, x: int, y: int) {
    j < y || (j == y && i < x)
  }

  class SudokuGenerator {
    const size: nat
    const blockLength: nat
    /** board[x, y]; 0 is an empty cell. */
    const board: array2<int>
    /** The source of the shuffles of getRandomPossibleValues. */
    const random: Random

    /** The shape fixed at construction. */
    ghost predicate Shaped() {
      board.Length0 == size && board.Length1 == size &&
      blockLength * blockLength == size
    }

    /** Every cell holds 0 or a value in 1..size. */
    ghost predicate InRange()
      reads board
      requires Shaped()
    {
      forall i, j :: 0 <= i < size && 0 <= j < size ==> 0 <= board[i, j] <= size
    }

    /** No row, column or block holds the same non-zero value twice. */
    ghost predicate NoDuplicates()
      reads board
      requires Shaped()
    {
      RowsDistinct() && ColumnsDistinct() && BlocksDistinct()
    }

    ghost predicate RowsDistinct()
      reads board
      requires Shaped()
    {
      forall i, j1, j2 ::
        0 <= i < size && 0 <= j1 < size && 0 <= j2 < size && j1 != j2 && board[i, j1] != 0
        ==> board[i, j1] != board[i, j2]
    }

    ghost predicate ColumnsDistinct()
      reads board
      requires Shaped()
    {
      forall i1, i2, j ::
        0 <= i1 < size && 0 <= i2 < size && 0 <= j < size && i1 != i2 && board[i1, j] != 0
        ==> board[i1, j] != board[i2, j]
    }

    ghost predicate BlocksDistinct()
      reads board
      requires Shaped()
    {
      forall i1, j1, i2, j2 ::
        0 <= i1 < size && 0 <= j1 < size && 0 <= i2 < size && 0 <= j2 < size &&
        (i1 != i2 || j1 != j2) && SameBlock(i1, i2) && SameBlock(j1, j2) && board[i1, j1] != 0
        ==> board[i1, j1] != board[i2, j2]
    }

    /** Coordinates a and b fall in the same band of blockLength rows (or columns). */
    ghost predicate SameBlock(a: int, b: int)
      requires Shaped() && 0 <= a < size
    {
      a / blockLength == b / blockLength
    }

    ghost predicate Valid()
      reads board
    {
      Shaped() && InRange() && NoDuplicates()
    }

    /** What isValidMove decides: `value` is nowhere in row x, column y, or
        the block holding (x, y). */
    ghost predicate ValidMove(x: int, y: int, value: int)
      reads board
      requires Shaped() && 0 <= x < size && 0 <= y < size
    {
      NotInRow(x, value) && NotInColumn(y, value) && NotInBlock(x, y, value)
    }

    ghost predicate NotInRow(x: int, value: int)
      reads board
      requires Shaped() && 0 <= x < size
    {
      forall j :: 0 <= j < size ==> board[x, j] != value
    }

    ghost predicate NotInColumn(y: int, value: int)
      reads board
      requires Shaped() && 0 <= y < size
    {
      forall i :: 0 <= i < size ==> board[i, y] != value
    }

    ghost predicate NotInBlock(x: int, y: int, value: int)
      reads board
      requires Shaped() && 0 <= x < size && 0 <= y < size
    {
      forall i, j ::
        0 <= i < size && 0 <= j < size && SameBlock(i, x) && SameBlock(j, y)
        ==> board[i, j] != value
    }

    /** The window the block scan of isValidMove covers, from the two block
        starts, is exactly the block of (x, y): every window cell is on the
        board (so the `< size` clamps never stop the scan early) and in the
        block, and every cell of the block is in the window. */
    lemma BlockWindow(x: int, y: int, value: int, startX: int, startY: int)
      requires Shaped() && 0 <= x < size && 0 <= y < size
      requires blockLength > 0
      requires startX == (x / blockLength) * blockLength && 0 <= startX <= size - blockLength
      requires startY == (y / blockLength) * blockLength && 0 <= startY <= size - blockLength
      ensures forall a :: startX <= a < startX + blockLength <==> 0 <= a < size && SameBlock(a, x)
      ensures forall b :: startY <= b < startY + blockLength <==> 0 <= b < size && SameBlock(b, y)
      ensures NotInBlock(x, y, value) <==>
                forall a, b :: startX <= a < startX + blockLength && startY <= b < startY + blockLength
                  ==> board[a, b] != value
    {
      forall a
        ensures startX <= a < startX + blockLength <==> 0 <= a < size && SameBlock(a, x)
      {
        SameBlockIff(a, x, blockLength);
      }
      forall b
        ensures startY <= b < startY + blockLength <==> 0 <= b < size && SameBlock(b, y)
      {
        SameBlockIff(b, y, blockLength);
      }
    }

    /** A perfect-square size gives an all-zero board of that size. */
    constructor (size: int, random: Random)
      requires IsPerfectSquare(size)
      ensures this.size == size && this.random == random
      ensures blockLength * blockLength == size
      ensures fresh(board) && Valid()
      ensures forall i, j :: 0 <= i < size && 0 <= j < size ==> board[i, j] == 0
    {
      var root := SquareRoot(size);
      this.size := size;
      board := new int[size, size]((i, j) => 0);
      blockLength := root;
      this.random := random;
    }

    /** `new SudokuGenaretor(size)` with its guard: a size that is not a
        perfect square is refused (the IllegalArgumentException), any other
        gives a fresh all-zero board of that size. */
    static method New(size: int, random: Random) returns (r: Result<SudokuGenerator>)
      ensures r.Err? <==> !IsPerfectSquare(size)
      ensures r.Err? ==> r.error == NotPerfectSquare
      ensures r.Ok? ==> fresh(r.value) && fresh(r.value.board) && r.value.Valid()
      ensures r.Ok? ==> r.value.size == size && r.value.random == random
      ensures r.Ok? ==> forall i, j :: 0 <= i < size && 0 <= j < size ==> r.value.board[i, j] == 0
    {
      if size < 0 {
        return Err(NotPerfectSquare);
      }
      var root := SquareRoot(size);
      if root * root != size {
        return Err(NotPerfectSquare);
      }
      var generator := new SudokuGenerator(size, random);
      return Ok(generator);
    }

    /** The default size 4, with blocks of 2 x 2. */
    constructor Default(random: Random)
      ensures size == 4 && blockLength == 2 && this.random == random
      ensures fresh(board) && Valid()
      ensures forall i, j :: 0 <= i < size && 0 <= j < size ==> board[i, j] == 0
    {
      IsqrtOfSquare(2);
      var root := SquareRoot(4);
      size := 4;
      board := new int[4, 4]((i, j) => 0);
      blockLength := root;
      this.random := random;
    }

    /** The start of the block holding `value`: the largest multiple of
        blockLength not above it, or -1 when `value` is off the board. */
    method GetBlock(value: int) returns (start: int)
      requires Shaped()
      ensures 0 <= value < size ==>
                blockLength > 0 && start == (value / blockLength) * blockLength &&
                0 <= start <= value < start + blockLength <= size
      ensures !(0 <= value < size) ==> start == -1
    {
      var i := 0;
      ghost var k := 0;
      while i < size
        invariant 0 <= k && 0 <= i == k * blockLength
        invariant 0 <= value < size ==> i <= value
        decreases size - i
      {
        assert blockLength > 0;
        if value >= i && value < i + blockLength {
          DivUnique(value, blockLength, k);
          BlockFits(k, blockLength);
          return i;
        }
        i := i + blockLength;
        k := k + 1;
      }
      return -1;
    }

    /** isValidMove: scans row x, column y and the block of (x, y). */
    method IsValidMove(x: int, y: int, value: int) returns (ok: bool)
      requires Shaped()
      requires 0 <= x < size && 0 <= y < size
      ensures ok <==> ValidMove(x, y, value)
    {
      for i := 0 to size
        invariant forall j :: 0 <= j < i ==> board[x, j] != value
      {
        if value == board[x, i] {
          return false;
        }
      }
      for i := 0 to size
        invariant forall j :: 0 <= j < i ==> board[j, y] != value
      {
        if value == board[i, y] {
          return false;
        }
      }
      var blockStartX := GetBlock(x);
      var blockStartY := GetBlock(y);
      BlockWindow(x, y, value, blockStartX, blockStartY);
      var i := blockStartX;
      while i < size && i < blockStartX + blockLength
        invariant blockStartX <= i <= blockStartX + blockLength
        invariant forall a, b ::
                    blockStartX <= a < i && blockStartY <= b < blockStartY + blockLength
                    ==> board[a, b] != value
      {
        var j := blockStartY;
        while j < size && j < blockStartY + blockLength
          invariant blockStartY <= j <= blockStartY + blockLength
          invariant forall b :: blockStartY <= b < j ==> board[i, b] != value
        {
          if value == board[i, j] {
            return false;
          }
          j := j + 1;
        }
        i := i + 1;
      }
      return true;
    }

    /** getRandomPossibleValues: the values 1..size in a shuffled order. */
    method GetRandomPossibleValues() returns (values: array<int>)
      modifies random
      ensures fresh(values) && values.Length == size
      ensures forall v :: multiset(values[..])[v] == if 1 <= v <= size then 1 else 0
    {
      var l: seq<int> := [];
      for i := 1 to size + 1
        invariant l == Iota(i - 1)
      {
        l := l + [i];
      }
      l := Shuffle(l, random);
      values := new int[size];
      for i := 0 to size
        invariant values[..i] == l[..i]
      {
        values[i] := l[i];
      }
      assert values[..] == l;
      IotaOccurrences(size);
    }

    /** fillBoard: tries the candidates of cell (x, y) in shuffled order,
        places any that isValidMove accepts and recurses on the next cell;
        when no candidate leads to a full board it clears (x, y). The board
        never holds a duplicate, cells before (x, y) are left alone, true
        means every cell from (x, y) on holds a value in 1..size, and false
        leaves (x, y) empty and every later cell empty or as it was. */
    method FillBoard(x: int, y: int) returns (ok: bool)
      requires Valid()
      requires 0 <= x < size && 0 <= y < size
      modifies board, random
      ensures Valid()
      ensures forall i, j :: 0 <= i < size && 0 <= j < size && Precedes(i, j, x, y) ==>
                board[i, j] == old(board[i, j])
      ensures ok ==> forall i, j :: 0 <= i < size && 0 <= j < size && !Precedes(i, j, x, y) ==>
                1 <= board[i, j] <= size
      ensures !ok ==> board[x, y] == 0
      ensures !ok ==> forall i, j :: 0 <= i < size && 0 <= j < size && Precedes(x, y, i, j) ==>
                board[i, j] == 0 || board[i, j] == old(board[i, j])
      decreases size - y, size - x
    {
      var nextX, nextY := x, y;
      var possibleValues := GetRandomPossibleValues();
      ghost var candidates := possibleValues[..];
      for k := 0 to size
        invariant possibleValues[..] == candidates
        invariant Valid()
        invariant forall i, j :: 0 <= i < size && 0 <= j < size && Precedes(i, j, x, y) ==>
                    board[i, j] == old(board[i, j])
        invariant forall i, j :: 0 <= i < size && 0 <= j < size && Precedes(x, y, i, j) ==>
                    board[i, j] == 0 || board[i, j] == old(board[i, j])
        invariant x < size - 1 ==> nextY == y
      {
        var value := possibleValues[k];
        assert multiset(possibleValues[..])[value] > 0;
        var valid := IsValidMove(x, y, value);
        if valid {
          Place(x, y, value);
          if x == size - 1 {
            if y == size - 1 {
              return true;
            } else {
              nextX := 0;
              nextY := y + 1;
            }
          } else {
            nextX := x + 1;
          }
          var filled := FillBoard(nextX, nextY);
          if filled {
            return true;
          }
        }
      }
      board[x, y] := 0;
      return false;
    }

    /** The write `board[x][y] = value` of fillBoard, made only after
        isValidMove accepted the value: it keeps the board free of
        duplicates, even over a stale candidate left in (x, y). */
    method Place(x: int, y: int, value: int)
      requires Valid() && 0 <= x < size && 0 <= y < size
      requires 1 <= value <= size && ValidMove(x, y, value)
      modifies board
      ensures Valid()
      ensures board[x, y] == value
      ensures forall i, j :: 0 <= i < size && 0 <= j < size && (i != x || j != y) ==>
                board[i, j] == old(board[i, j])
    {
      board[x, y] := value;
    }

    /** Whether makeSpaces clears cell (i, j), which it visits as number
        i * size + j (the second index runs fastest there). */
    ghost predicate Cleared(noOfHoles: int, draws: seq<real>, i: int, j: int)
      requires Shaped() && |draws| == size * size
      requires 0 <= i < size && 0 <= j < size
    {
      CellIndexBound(i, j, size);
      ClearsAt(noOfHoles, draws, i * size + j)
    }

    /** makeSpaces: rejects more holes than cells before touching the board;
        otherwise visits every cell once and clears it when its draw is at
        most holes / totalSquares, counting both down as it goes. */
    method MakeSpaces(noOfHoles: int, draws: seq<real>) returns (outcome: Outcome)
      requires Valid()
      requires |draws| == size * size
      requires forall k :: 0 <= k < |draws| ==> 0.0 <= draws[k] < 1.0
      modifies board
      ensures Valid()
      ensures outcome == if noOfHoles > size * size then Fail(TooManyHoles) else Pass
      ensures outcome.Fail? ==> unchanged(board)
      ensures outcome.Pass? ==> forall i, j :: 0 <= i < size && 0 <= j < size ==>
                board[i, j] == if Cleared(noOfHoles, draws, i, j) then 0 else old(board[i, j])
    {
      var totalSquares := size * size;
      var holes := noOfHoles;
      if holes > totalSquares {
        return Fail(TooManyHoles);
      }
      var drawn := 0;  // how many draws of Math.random() have been used
      for i := 0 to size
        invariant drawn == i * size <= |draws|
        invariant totalSquares == |draws| - drawn
        invariant holes == HolesLeft(noOfHoles, draws, drawn)
        invariant forall a, b :: 0 <= a < size && 0 <= b < size ==>
                    board[a, b] == if a < i && Cleared(noOfHoles, draws, a, b) then 0 else old(board[a, b])
      {
        MulLeft(i + 1, size, size);
        MulSucc(i, size);
        for j := 0 to size
          invariant drawn == i * size + j && i * size + size <= |draws|
          invariant totalSquares == |draws| - drawn
          invariant holes == HolesLeft(noOfHoles, draws, drawn)
          invariant forall a, b :: 0 <= a < size && 0 <= b < size ==>
                      board[a, b] == if (a < i || (a == i && b < j)) && Cleared(noOfHoles, draws, a, b)
                                     then 0 else old(board[a, b])
        {
          var holeChance := HoleChance(holes, totalSquares);
          if draws[drawn] <= holeChance {
            board[i, j] := 0;
            holes := holes - 1;
          }
          totalSquares := totalSquares - 1;
          drawn := drawn + 1;
        }
      }
      ZeroingKeepsValid();
      return Pass;
    }

    /** createBoard: fills the board from (0, 0), then punches the holes.
        The fill's outcome is only reported (it is the status message of the
        source); a rejected hole count leaves the filled board as it is.
        `solution` is the board as the fill left it: after a successful fill
        a complete grid without duplicates, of which the final board keeps
        every cell that was not cleared. */
    method CreateBoard(noOfHoles: int, draws: seq<real>)
        returns (filled: bool, outcome: Outcome, ghost solution: seq<seq<int>>)
      requires Valid() && size > 0
      requires |draws| == size * size
      requires forall k :: 0 <= k < |draws| ==> 0.0 <= draws[k] < 1.0
      modifies board, random
      ensures Valid()
      ensures outcome == if noOfHoles > size * size then Fail(TooManyHoles) else Pass
      ensures |solution| == size && forall i :: 0 <= i < size ==> |solution[i]| == size
      ensures filled ==> SolvedGrid(solution)
      ensures filled && outcome.Fail? ==> forall i, j :: 0 <= i < size && 0 <= j < size ==>
                board[i, j] == solution[i][j]
      ensures filled && outcome.Fail? ==> Filled()
      ensures filled && outcome.Pass? ==> forall i, j :: 0 <= i < size && 0 <= j < size ==>
                board[i, j] == if Cleared(noOfHoles, draws, i, j) then 0 else solution[i][j]
      ensures filled && outcome.Pass? ==> forall i, j :: 0 <= i < size && 0 <= j < size ==>
                (board[i, j] == 0 <==> Cleared(noOfHoles, draws, i, j))
      ensures filled && outcome.Pass? && 0 <= noOfHoles ==>
                noOfHoles <= HoleCount() <= noOfHoles + 1
      ensures filled && outcome.Pass? && 0 <= noOfHoles ==>
                ((forall k :: 0 <= k < |draws| ==> 0.0 < draws[k]) ==> HoleCount() == noOfHoles)
      ensures !filled ==> forall i, j :: 0 <= i < size && 0 <= j < size ==>
                board[i, j] == 0 || board[i, j] == old(board[i, j])
    {
      filled := FillBoard(0, 0);
      solution := Snapshot();
      if filled {
        SnapshotSolved();
      }
      outcome := MakeSpaces(noOfHoles, draws);
      if filled && outcome.Pass? {
        HolesMatchClears(noOfHoles, draws, size * size);
        if 0 <= noOfHoles {
          ClearsExactly(noOfHoles, draws);
        }
      }
    }

    /** createBoard(): the default of 10 holes. */
    method CreateDefaultBoard(draws: seq<real>)
        returns (filled: bool, outcome: Outcome, ghost solution: seq<seq<int>>)
      requires Valid() && size > 0
      requires |draws| == size * size
      requires forall k :: 0 <= k < |draws| ==> 0.0 <= draws[k] < 1.0
      modifies board, random
      ensures Valid()
      ensures outcome == if 10 > size * size then Fail(TooManyHoles) else Pass
      ensures |solution| == size && forall i :: 0 <= i < size ==> |solution[i]| == size
      ensures filled ==> SolvedGrid(solution)
      ensures filled && outcome.Fail? ==> forall i, j :: 0 <= i < size && 0 <= j < size ==>
                board[i, j] == solution[i][j]
      ensures filled && outcome.Fail? ==> Filled()
      ensures filled && outcome.Pass? ==> forall i, j :: 0 <= i < size && 0 <= j < size ==>
                board[i, j] == if Cleared(10, draws, i, j) then 0 else solution[i][j]
      ensures filled && outcome.Pass? ==> forall i, j :: 0 <= i < size && 0 <= j < size ==>
                (board[i, j] == 0 <==> Cleared(10, draws, i, j))
      ensures filled && outcome.Pass? ==> 10 <= HoleCount() <= 11
      ensures filled && outcome.Pass? ==>
                ((forall k :: 0 <= k < |draws| ==> 0.0 < draws[k]) ==> HoleCount() == 10)
      ensures !filled ==> forall i, j :: 0 <= i < size && 0 <= j < size ==>
                board[i, j] == 0 || board[i, j] == old(board[i, j])
    {
      filled, outcome, solution := CreateBoard(10, draws);
    }

    /** A complete size x size grid of values in 1..size with no value twice
        in any row, column or block. */
    ghost predicate SolvedGrid(g: seq<seq<int>>)
      requires Shaped()
    {
      |g| == size && (forall i :: 0 <= i < size ==> |g[i]| == size) &&
      (forall i, j :: 0 <= i < size && 0 <= j < size ==> 1 <= g[i][j] <= size) &&
      (forall i, j1, j2 :: 0 <= i < size && 0 <= j1 < j2 < size ==> g[i][j1] != g[i][j2]) &&
      (forall i1, i2, j :: 0 <= i1 < i2 < size && 0 <= j < size ==> g[i1][j] != g[i2][j]) &&
      (forall i1, j1, i2, j2 ::
         0 <= i1 < size && 0 <= j1 < size && 0 <= i2 < size && 0 <= j2 < size &&
         (i1 != i2 || j1 != j2) && SameBlock(i1, i2) && SameBlock(j1, j2)
         ==> g[i1][j1] != g[i2][j2])
    }

    /** The board's current values, row by row. */
    ghost function Snapshot(): (g: seq<seq<int>>)
      reads board
      requires Shaped()
      ensures |g| == size && forall i :: 0 <= i < size ==> |g[i]| == size
      ensures forall i, j :: 0 <= i < size && 0 <= j < size ==> g[i][j] == board[i, j]
    {
      seq(size, i requires 0 <= i < size reads board => Row(i))
    }

    /** A filled board without duplicates, taken as values, is a solved grid. */
    lemma SnapshotSolved()
      requires Valid() && Filled()
      ensures SolvedGrid(Snapshot())
    {
      var g := Snapshot();
      forall i, j | 0 <= i < size && 0 <= j < size
        ensures 1 <= g[i][j] <= size
      {
        assert board[i, j] != 0;
      }
      forall i, j1, j2 | 0 <= i < size && 0 <= j1 < j2 < size
        ensures g[i][j1] != g[i][j2]
      {
        assert board[i, j1] != 0;
      }
      forall i1, i2, j | 0 <= i1 < i2 < size && 0 <= j < size
        ensures g[i1][j] != g[i2][j]
      {
        assert board[i1, j] != 0;
      }
      forall i1, j1, i2, j2 |
        0 <= i1 < size && 0 <= j1 < size && 0 <= i2 < size && 0 <= j2 < size &&
        (i1 != i2 || j1 != j2) && SameBlock(i1, i2) && SameBlock(j1, j2)
        ensures g[i1][j1] != g[i2][j2]
      {
        assert board[i1, j1] != 0;
      }
    }

    /** Every cell holds a value: the state a successful fill leaves. */
    ghost predicate Filled()
      reads board
      requires Shaped()
    {
      forall i, j :: 0 <= i < size && 0 <= j < size ==> board[i, j] != 0
    }

    /** The cell makeSpaces visits as number k. */
    ghost function CellAt(k: int): int
      reads board
      requires Shaped() && 0 <= k < size * size
    {
      FlatBounds(k, size);
      board[k / size, k % size]
    }

    /** The number of empty cells among the first k that makeSpaces visits. */
    ghost function ZerosUpTo(k: nat): nat
      reads board
      requires Shaped() && k <= size * size
    {
      if k == 0 then 0 else ZerosUpTo(k - 1) + if CellAt(k - 1) == 0 then 1 else 0
    }

    /** The number of empty cells on the board. */
    ghost function HoleCount(): nat
      reads board
      requires Shaped()
    {
      ZerosUpTo(size * size)
    }

    /** When the empty cells are exactly the ones makeSpaces cleared, there
        are as many of them as it cleared. */
    lemma {:induction false} HolesMatchClears(noOfHoles: int, draws: seq<real>, k: nat)
      requires Shaped() && |draws| == size * size && k <= size * size
      requires forall i, j :: 0 <= i < size && 0 <= j < size ==>
                 (board[i, j] == 0 <==> Cleared(noOfHoles, draws, i, j))
      ensures ZerosUpTo(k) == ClearedCount(noOfHoles, draws, k)
    {
      if k > 0 {
        HolesMatchClears(noOfHoles, draws, k - 1);
        FlatBounds(k - 1, size);
        assert Cleared(noOfHoles, draws, (k - 1) / size, (k - 1) % size) ==
               ClearsAt(noOfHoles, draws, k - 1);
      }
    }

    /** Row i holds value v. */
    ghost predicate RowHolds(i: int, v: int)
      reads board
      requires Shaped() && 0 <= i < size
    {
      exists j :: 0 <= j < size && board[i, j] == v
    }

    /** Column j holds value v. */
    ghost predicate ColumnHolds(j: int, v: int)
      reads board
      requires Shaped() && 0 <= j < size
    {
      exists i :: 0 <= i < size && board[i, j] == v
    }

    /** Block (p, q), the one whose cells (i, j) have i / blockLength == p
        and j / blockLength == q, holds value v. */
    ghost predicate BlockHolds(p: int, q: int, v: int)
      reads board
      requires Shaped() && blockLength > 0
    {
      exists i, j :: 0 <= i < size && 0 <= j < size &&
        i / blockLength == p && j / blockLength == q && board[i, j] == v
    }

    /** A filled board without duplicates holds each of 1..size in every
        row, every column and every block. */
    lemma FilledBoardIsSolved()
      requires Valid() && Filled()
      ensures forall i, v :: 0 <= i < size && 1 <= v <= size ==> RowHolds(i, v)
      ensures forall j, v :: 0 <= j < size && 1 <= v <= size ==> ColumnHolds(j, v)
      ensures blockLength > 0 ==>
                forall p, q, v :: 0 <= p < blockLength && 0 <= q < blockLength && 1 <= v <= size ==>
                  BlockHolds(p, q, v)
    {
      forall i, v | 0 <= i < size && 1 <= v <= size
        ensures RowHolds(i, v)
      {
        RowCovers(i, v);
      }
      forall j, v | 0 <= j < size && 1 <= v <= size
        ensures ColumnHolds(j, v)
      {
        ColumnCovers(j, v);
      }
      if blockLength > 0 {
        forall p, q, v | 0 <= p < blockLength && 0 <= q < blockLength && 1 <= v <= size
          ensures BlockHolds(p, q, v)
        {
          BlockCovers(p, q, v);
        }
      }
    }

    /** The values of row i, in order. */
    ghost function Row(i: int): (r: seq<int>)
      reads board
      requires Shaped() && 0 <= i < size
      ensures |r| == size && forall j :: 0 <= j < size ==> r[j] == board[i, j]
    {
      seq(size, j requires 0 <= j < size reads board => board[i, j])
    }

    /** The values of column j, in order. */
    ghost function Column(j: int): (c: seq<int>)
      reads board
      requires Shaped() && 0 <= j < size
      ensures |c| == size && forall i :: 0 <= i < size ==> c[i] == board[i, j]
    {
      seq(size, i requires 0 <= i < size reads board => board[i, j])
    }

    /** The row of the k-th cell (k < size) of a block in band p, cells taken
        row by row inside the block. */
    function BlockRow(p: int, k: int): (i: int)
      requires Shaped() && 0 <= p < blockLength && 0 <= k < size
      ensures 0 <= i < size && i / blockLength == p
    {
      FlatBounds(k, blockLength);
      CellIndexBound(p, k / blockLength, blockLength);
      DivUnique(p * blockLength + k / blockLength, blockLength, p);
      p * blockLength + k / blockLength
    }

    /** The column of the k-th cell (k < size) of a block in band q. */
    function BlockColumn(q: int, k: int): (j: int)
      requires Shaped() && 0 <= q < blockLength && 0 <= k < size
      ensures 0 <= j < size && j / blockLength == q
    {
      FlatBounds(k, blockLength);
      CellIndexBound(q, k % blockLength, blockLength);
      DivUnique(q * blockLength + k % blockLength, blockLength, q);
      q * blockLength + k % blockLength
    }

    /** Different positions of a block are different cells. */
    lemma BlockPositionsDistinct(p: int, q: int, k1: int, k2: int)
      requires Shaped() && 0 <= p < blockLength && 0 <= q < blockLength
      requires 0 <= k1 < size && 0 <= k2 < size && k1 != k2
      ensures BlockRow(p, k1) != BlockRow(p, k2) || BlockColumn(q, k1) != BlockColumn(q, k2)
    {
      FlatBounds(k1, blockLength);
      FlatBounds(k2, blockLength);
    }

    /** The values of block (p, q), its cells taken row by row. */
    ghost function Block(p: int, q: int): (b: seq<int>)
      reads board
      requires Shaped() && 0 <= p < blockLength && 0 <= q < blockLength
      ensures |b| == size
      ensures forall k :: 0 <= k < size ==> b[k] == board[BlockRow(p, k), BlockColumn(q, k)]
    {
      seq(size, k requires 0 <= k < size reads board => board[BlockRow(p, k), BlockColumn(q, k)])
    }

    lemma RowCovers(i: int, v: int)
      requires Shaped() && InRange() && RowsDistinct() && Filled()
      requires 0 <= i < size && 1 <= v <= size
      ensures RowHolds(i, v)
    {
      var r := Row(i);
      forall j1, j2 | 0 <= j1 < j2 < size
        ensures r[j1] != r[j2]
      {
        assert board[i, j1] != 0;
      }
      DistinctCovers(r, size);
      assert v in r;
      var j :| 0 <= j < size && r[j] == v;
    }

    lemma ColumnCovers(j: int, v: int)
      requires Shaped() && InRange() && ColumnsDistinct() && Filled()
      requires 0 <= j < size && 1 <= v <= size
      ensures ColumnHolds(j, v)
    {
      var c := Column(j);
      forall i1, i2 | 0 <= i1 < i2 < size
        ensures c[i1] != c[i2]
      {
        assert board[i1, j] != 0;
      }
      DistinctCovers(c, size);
      assert v in c;
      var i :| 0 <= i < size && c[i] == v;
    }

    lemma BlockCovers(p: int, q: int, v: int)
      requires Shaped() && InRange() && BlocksDistinct() && Filled()
      requires 0 <= p < blockLength && 0 <= q < blockLength && 1 <= v <= size
      ensures BlockHolds(p, q, v)
    {
      var b := Block(p, q);
      forall k1, k2 | 0 <= k1 < k2 < size
        ensures b[k1] != b[k2]
      {
        BlockPositionsDistinct(p, q, k1, k2);
        assert board[BlockRow(p, k1), BlockColumn(q, k1)] != 0;
      }
      DistinctCovers(b, size);
      assert v in b;
      var k :| 0 <= k < size && b[k] == v;
      assert board[BlockRow(p, k), BlockColumn(q, k)] == v;
    }

    /** Turning cells into holes never creates a duplicate. */
    twostate lemma ZeroingKeepsValid()
      requires old(Valid())
      requires forall i, j :: 0 <= i < size && 0 <= j < size ==>
                 board[i, j] == 0 || board[i, j] == old(board[i, j])
      ensures Valid()
    {
    }
  }
}
