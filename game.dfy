/**
 * The running game: the mutable `gameState` of the page script and the
 * functions that read and update it, each proved against the state
 * functions of `Rules`, `Cascade`, `Gravity` and `Matching`.
 */
module Game {
  import opened Board
  import opened Matching
  import opened Gravity
  import opened Cascade
  import opened Rules
  import opened RulesLaws

  class GameState {
    /** `config.rows`, `config.cols` and `config.maxMoves`. */
    const rows: nat
    const cols: nat
    const maxMoves: int
    /** `config.types` and the stream behind `Math.random`. */
    const src: TokenSource

    var board: array2<Cell>
    var score: int
    var moves: int
    var selected: Option<Pos>
    var isSwapping: bool
    var isChecking: bool
    /** How many times `getRandomCandy` has been called. */
    var draws: nat
    /** The board as a snapshot, kept equal to `board` cell by cell. */
    ghost var grid: Grid

    /** The board array and its snapshot have the configured size, and there
        is a candy kind to draw. */
    ghost predicate Shape()
      reads this
    {
      && rows > 0 && |src.types| > 0 && board.Length0 == rows && board.Length1 == cols
      && |grid| == rows && Rect(grid) && Width(grid) == cols
    }

    /** The snapshot holds what the board array holds. */
    ghost predicate Linked()
      reads this, board
    {
      Shape() && forall r, c :: 0 <= r < rows && 0 <= c < cols ==> grid[r][c] == board[r, c]
    }

    /** All of `gameState` as a value. */
    ghost function View(): State
      reads this
    {
      State(grid, score, moves, selected, isSwapping, isChecking, draws)
    }

    /** The state between two clicks: a full board and a selection on it. */
    ghost predicate Valid()
      reads this, board
    {
      Linked() && Wf(View(), rows, cols, src.types)
    }

    /** The page load: the configuration is fixed and `initGame` runs. */
    constructor (config: Config, rolls: seq<nat>, fuel: nat)
      requires config.rows > 0 && |config.types| > 0
      ensures rows == config.rows && cols == config.cols && maxMoves == config.maxMoves
      ensures src == TokenSource(config.types, rolls)
      ensures Valid()
      ensures View() == Init(rows, cols, maxMoves, src, 0, fuel)
    {
      rows, cols, maxMoves := config.rows, config.cols, config.maxMoves;
      src := TokenSource(config.types, rolls);
      board := new Cell[0, 0];
      grid := [];
      score, moves, selected := 0, config.maxMoves, None;
      isSwapping, isChecking := false, false;
      draws := 0;
      new;
      var settled := InitGame(fuel);
    }

    /** `getRandomCandy`: the next draw of the stream. */
    method GetRandomCandy() returns (candy: Token)
      requires |src.types| > 0
      modifies this`draws
      ensures candy == Draw(src, old(draws)) && candy in src.types
      ensures draws == old(draws) + 1
    {
      candy := Draw(src, draws);
      draws := draws + 1;
    }

    /** `createBoard`: a new board filled row by row with the next draws. */
    method CreateBoard()
      requires rows > 0 && |src.types| > 0
      modifies this`board, this`draws, this`grid
      ensures Linked() && fresh(board)
      ensures grid == Deal(src, old(draws), rows, cols)
      ensures draws == old(draws) + Cells(rows, cols)
    {
      ghost var d := draws;
      var a := new Cell[rows, cols];
      for row := 0 to rows
        invariant draws == d + row * cols
        invariant forall r, c :: 0 <= r < row && 0 <= c < cols ==> a[r, c] == Some(Draw(src, d + r * cols + c))
      {
        for col := 0 to cols
          invariant draws == d + row * cols + col
          invariant forall r, c :: 0 <= r < row && 0 <= c < cols ==> a[r, c] == Some(Draw(src, d + r * cols + c))
          invariant forall c :: 0 <= c < col ==> a[row, c] == Some(Draw(src, d + row * cols + c))
        {
          var candy := GetRandomCandy();
          a[row, col] := Some(candy);
        }
      }
      board := a;
      grid := Deal(src, d, rows, cols);
      forall r, c | 0 <= r < rows && 0 <= c < cols
        ensures grid[r][c] == board[r, c]
      {
        DealCell(src, d, rows, cols, r, c);
      }
    }

    /** `initGame`: reset the state, deal a board, and deal again while it
        has a match, at most `fuel` times more. `settled` tells whether the
        board kept has no match, as the loop of the source promises on exit. */
    method InitGame(fuel: nat) returns (settled: bool)
      requires rows > 0 && |src.types| > 0
      modifies this
      ensures Valid() && fresh(board)
      ensures View() == Init(rows, cols, maxMoves, src, old(draws), fuel)
      ensures settled <==> !HasMatch(grid)
    {
      ghost var d := draws;
      score, moves, selected := 0, maxMoves, None;
      isSwapping, isChecking := false, false;
      settled := DealUntilSettled(fuel);
      InitState(rows, cols, maxMoves, src, d, fuel);
    }

    /** `createBoard(); while (hasMatches()) createBoard();` with at most
        `fuel` boards thrown away. */
    method DealUntilSettled(fuel: nat) returns (settled: bool)
      requires rows > 0 && |src.types| > 0
      modifies this`board, this`draws, this`grid
      ensures Linked() && fresh(board)
      ensures grid == Deals(src, old(draws), rows, cols, fuel).grid
      ensures draws == Deals(src, old(draws), rows, cols, fuel).start + Cells(rows, cols)
      ensures settled <==> !HasMatch(grid)
    {
      ghost var d := draws;
      CreateBoard();
      ghost var start: nat := d;
      var found := HasMatches();
      var tries: nat := fuel;
      while found && tries > 0
        invariant Linked() && fresh(board)
        invariant Deals(src, d, rows, cols, fuel).start == Deals(src, start, rows, cols, tries).start
        invariant grid == Deal(src, start, rows, cols)
        invariant draws == start + Cells(rows, cols)
        invariant found <==> HasMatch(grid)
        decreases tries
      {
        assert Deals(src, start, rows, cols, tries).start == Deals(src, draws, rows, cols, tries - 1).start by {
          DealsAgain(src, start, rows, cols, tries);
        }
        ghost var next: nat := draws;
        CreateBoard();
        start := next;
        found := HasMatches();
        tries := tries - 1;
      }
      DealsDone(src, start, rows, cols, tries);
      DealsKept(src, d, rows, cols, fuel);
      settled := !found;
    }

    /** `hasMatches`: some row or column holds three equal candies in a row. */
    method HasMatches() returns (found: bool)
      requires Linked()
      ensures found <==> HasMatch(grid)
    {
      ghost var g := grid;
      for row := 0 to rows
        invariant forall r, s :: 0 <= r < row && 0 <= s && s + 2 < cols ==> !ThreeFrom(g[r], s)
      {
        ghost var line := g[row];
        var col := 0;
        while col < cols - 2
          invariant 0 <= col && (col <= cols - 2 || col == 0)
          invariant forall s :: 0 <= s < col ==> !ThreeFrom(line, s)
        {
          var candy := board[row, col];
          assert line[col] == candy && line[col + 1] == board[row, col + 1] && line[col + 2] == board[row, col + 2];
          if Truthy(candy) && candy == board[row, col + 1] && candy == board[row, col + 2] {
            assert ThreeFrom(g[row], col);
            HasMatchIffSomeThree(g);
            return true;
          }
          col := col + 1;
        }
      }
      for col := 0 to cols
        invariant forall c, s :: 0 <= c < col && 0 <= s && s + 2 < rows ==> !ThreeFrom(Col(g, c), s)
      {
        ghost var line := Col(g, col);
        var row := 0;
        while row < rows - 2
          invariant 0 <= row && (row <= rows - 2 || row == 0)
          invariant forall s :: 0 <= s < row ==> !ThreeFrom(line, s)
        {
          var candy := board[row, col];
          assert line[row] == candy && line[row + 1] == board[row + 1, col] && line[row + 2] == board[row + 2, col];
          if Truthy(candy) && candy == board[row + 1, col] && candy == board[row + 2, col] {
            assert ThreeFrom(Col(g, col), row);
            HasMatchIffSomeThree(g);
            return true;
          }
          row := row + 1;
        }
      }
      HasMatchIffSomeThree(g);
      return false;
    }

    /** The row scan of `findMatches`: it lists exactly the cells that lie in
        a horizontal run of three or more. */
    method FindRowMatches() returns (found: seq<Pos>)
      requires Linked()
      ensures forall p :: p in found <==> 0 <= p.row < rows && p.col in RunCells(grid[p.row])
    {
      ghost var g := grid;
      found := [];
      for row := 0 to rows
        invariant forall p :: p in found <==> 0 <= p.row < row && p.col in RunCells(g[p.row])
      {
        found := ScanRow(row, found);
      }
    }

    /** One row of the row scan: each start of three equal candies adds them
        and the equal candies after them. What it adds to `found` is exactly
        the cells of the row that lie in a horizontal run. */
    method ScanRow(row: int, found: seq<Pos>) returns (extended: seq<Pos>)
      requires Linked() && 0 <= row < rows
      ensures forall p :: p in extended <==> p in found || (p.row == row && p.col in RunCells(grid[row]))
    {
      ghost var line := grid[row];
      extended := found;
      var col := 0;
      while col < cols - 2
        invariant 0 <= col && (col <= cols - 2 || col == 0)
        invariant forall p :: p in found ==> p in extended
        invariant forall p :: p in extended ==> p in found || (p.row == row && p.col in RunCells(line))
        invariant forall c :: c in RunCellsBefore(line, col) ==> Pos(row, c) in extended
      {
        var candy := board[row, col];
        assert line[col] == candy && line[col + 1] == board[row, col + 1] && line[col + 2] == board[row, col + 2];
        if Truthy(candy) && candy == board[row, col + 1] && candy == board[row, col + 2] {
          var nextCol;
          extended, nextCol := CollectRowRun(row, col, extended);
          RowSpanMembers(row, col, nextCol);
          ScanHit(line, col, nextCol);
        } else {
          ScanMiss(line, col);
        }
        col := col + 1;
      }
      ScanDone(line, col);
    }

    /** The pushes of the row scan after the three-cell test succeeds at
        `(row, col)`: the three cells, then each following cell that holds
        the same candy, up to the first that does not. */
    method CollectRowRun(row: int, col: int, matches: seq<Pos>) returns (extended: seq<Pos>, nextCol: int)
      requires board.Length0 == rows && board.Length1 == cols
      requires 0 <= row < rows && 0 <= col && col + 2 < cols
      requires board[row, col] == board[row, col + 1] && board[row, col] == board[row, col + 2]
      ensures col + 3 <= nextCol <= cols
      ensures forall j :: col <= j < nextCol ==> board[row, j] == board[row, col]
      ensures nextCol == cols || board[row, nextCol] != board[row, col]
      ensures extended == matches + RowSpan(row, col, nextCol)
    {
      var candy := board[row, col];
      extended := matches + [Pos(row, col), Pos(row, col + 1), Pos(row, col + 2)];
      assert RowSpan(row, col, col + 1) == [Pos(row, col)];
      assert RowSpan(row, col, col + 3) == [Pos(row, col), Pos(row, col + 1), Pos(row, col + 2)];
      nextCol := col + 3;
      while nextCol < cols && board[row, nextCol] == candy
        invariant col + 3 <= nextCol <= cols
        invariant forall j :: col <= j < nextCol ==> board[row, j] == candy
        invariant extended == matches + RowSpan(row, col, nextCol)
      {
        extended := extended + [Pos(row, nextCol)];
        nextCol := nextCol + 1;
      }
    }

    /** The column scan of `findMatches`: it lists exactly the cells that lie
        in a vertical run of three or more. */
    method FindColumnMatches() returns (found: seq<Pos>)
      requires Linked()
      ensures forall p :: p in found <==> 0 <= p.col < cols && p.row in RunCells(Col(grid, p.col))
    {
      ghost var g := grid;
      found := [];
      for col := 0 to cols
        invariant forall p :: p in found <==> 0 <= p.col < col && p.row in RunCells(Col(g, p.col))
      {
        found := ScanColumn(col, found);
      }
    }

    /** One column of the column scan: what it adds to `found` is exactly the
        cells of the column that lie in a vertical run. */
    method ScanColumn(col: int, found: seq<Pos>) returns (extended: seq<Pos>)
      requires Linked() && 0 <= col < cols
      ensures forall p :: p in extended <==> p in found || (p.col == col && p.row in RunCells(Col(grid, col)))
    {
      ghost var line := Col(grid, col);
      extended := found;
      var row := 0;
      while row < rows - 2
        invariant 0 <= row && (row <= rows - 2 || row == 0)
        invariant forall p :: p in found ==> p in extended
        invariant forall p :: p in extended ==> p in found || (p.col == col && p.row in RunCells(line))
        invariant forall r :: r in RunCellsBefore(line, row) ==> Pos(r, col) in extended
      {
        var candy := board[row, col];
        assert line[row] == candy && line[row + 1] == board[row + 1, col] && line[row + 2] == board[row + 2, col];
        if Truthy(candy) && candy == board[row + 1, col] && candy == board[row + 2, col] {
          var nextRow;
          extended, nextRow := CollectColumnRun(row, col, extended);
          ColumnSpanMembers(col, row, nextRow);
          ScanHit(line, row, nextRow);
        } else {
          ScanMiss(line, row);
        }
        row := row + 1;
      }
      ScanDone(line, row);
    }

    /** The pushes of the column scan after the three-cell test succeeds at
        `(row, col)`: the three cells, then each following cell that holds
        the same candy, up to the first that does not. */
    method CollectColumnRun(row: int, col: int, matches: seq<Pos>) returns (extended: seq<Pos>, nextRow: int)
      requires board.Length0 == rows && board.Length1 == cols
      requires 0 <= col < cols && 0 <= row && row + 2 < rows
      requires board[row, col] == board[row + 1, col] && board[row, col] == board[row + 2, col]
      ensures row + 3 <= nextRow <= rows
      ensures forall j :: row <= j < nextRow ==> board[j, col] == board[row, col]
      ensures nextRow == rows || board[nextRow, col] != board[row, col]
      ensures extended == matches + ColumnSpan(col, row, nextRow)
    {
      var candy := board[row, col];
      extended := matches + [Pos(row, col), Pos(row + 1, col), Pos(row + 2, col)];
      assert ColumnSpan(col, row, row + 1) == [Pos(row, col)];
      assert ColumnSpan(col, row, row + 3) == [Pos(row, col), Pos(row + 1, col), Pos(row + 2, col)];
      nextRow := row + 3;
      while nextRow < rows && board[nextRow, col] == candy
        invariant row + 3 <= nextRow <= rows
        invariant forall j :: row <= j < nextRow ==> board[j, col] == candy
        invariant extended == matches + ColumnSpan(col, row, nextRow)
      {
        extended := extended + [Pos(nextRow, col)];
        nextRow := nextRow + 1;
      }
    }

    /** `findMatches`: the row scan, then the column scan, then duplicates
        removed. Every cell in a run is listed, each once, and nothing else. */
    method FindMatches() returns (matches: seq<Pos>)
      requires Linked()
      ensures NoDup(matches)
      ensures forall p :: p in matches <==> p in MatchSet(grid)
      ensures |matches| == |MatchSet(grid)|
    {
      var rowMatches := FindRowMatches();
      var colMatches := FindColumnMatches();
      matches := Dedup(rowMatches + colMatches);
      MatchSetMembers(grid);
      DistinctCount(matches, MatchSet(grid));
    }

    /** One column of `dropCandies` on the board `g`, when the draws for the
        whole board started at number `d`: settle the candies to the bottom,
        then fill the top cells with new draws. */
    method DropColumn(col: int, ghost g: Grid, ghost d: nat)
      requires Shape() && 0 <= col < cols && |g| == rows && Rect(g) && Width(g) == cols
      requires forall k :: 0 <= k < rows ==> g[k][col] == board[k, col]
      requires draws == d + NullsBefore(g, col)
      modifies board, this`draws
      ensures forall r :: 0 <= r < rows ==> board[r, col] == DroppedAt(g, src, d, r, col)
      ensures forall r, c :: 0 <= r < rows && 0 <= c < cols && c != col ==> board[r, c] == old(board[r, c])
      ensures draws == d + NullsBefore(g, col + 1)
    {
      ghost var line := Col(g, col);
      var emptySpaces := SettleColumn(col, line);
      RefillColumn(col, emptySpaces);
      forall r | 0 <= r < rows
        ensures board[r, col] == DroppedAt(g, src, d, r, col)
      {
        FallAt(line, src, d + NullsBefore(g, col), r);
      }
    }

    /** The upward scan of one column of `dropCandies`: count the empty cells
        and move each candy down by the count so far. The column's candies
        end up in its bottom rows, in order; the cells above them are left as
        they were and are overwritten by the refill. */
    method SettleColumn(col: int, ghost line: seq<Cell>) returns (emptySpaces: nat)
      requires Shape() && 0 <= col < cols
      requires |line| == rows && forall k :: 0 <= k < rows ==> line[k] == board[k, col]
      modifies board
      ensures emptySpaces == NullCount(line) && emptySpaces <= rows
      ensures forall k :: 0 <= k < emptySpaces ==> board[k, col] == line[k]
      ensures forall k :: 0 <= k < |NonNull(line)| ==> board[rows - |NonNull(line)| + k, col] == NonNull(line)[k]
      ensures forall r, c :: 0 <= r < rows && 0 <= c < cols && c != col ==> board[r, c] == old(board[r, c])
    {
      // `kept` holds the candies of the rows already scanned, top to bottom;
      // `now` is the column as the scan has left it so far.
      ghost var kept: seq<Cell> := [];
      ghost var now := line;
      emptySpaces := 0;
      var row := rows - 1;
      while row >= 0
        invariant -1 <= row < rows && |now| == rows
        invariant kept == KeptFrom(line, row + 1) && emptySpaces == NullsFrom(line, row + 1)
        invariant |kept| + emptySpaces == rows - 1 - row
        invariant now[rows - |kept|..] == kept
        invariant forall k :: 0 <= k < rows - |kept| ==> now[k] == line[k]
        invariant forall k :: 0 <= k < rows ==> board[k, col] == now[k]
        invariant forall r, c :: 0 <= r < rows && 0 <= c < cols && c != col ==> board[r, c] == old(board[r, c])
      {
        emptySpaces, now, kept := SettleCell(col, row, emptySpaces, line, now, kept);
        row := row - 1;
      }
      assert now[rows - |kept|..] == kept;
      forall k | 0 <= k < |kept|
        ensures board[rows - |kept| + k, col] == kept[k]
      {
        assert now[rows - |kept|..][k] == now[rows - |kept| + k];
      }
      ScanFrom(line, 0);
      assert line[0..] == line;
    }

    /** One step of the upward scan of `dropCandies` at `(row, col)`: an
        empty cell is counted, a candy moves down by the count so far. */
    method SettleCell(col: int, row: int, emptySpaces: nat, ghost line: seq<Cell>, ghost now: seq<Cell>, ghost kept: seq<Cell>)
        returns (emptySpaces': nat, ghost now': seq<Cell>, ghost kept': seq<Cell>)
      requires Shape() && 0 <= col < cols && 0 <= row < rows
      requires |line| == rows && |now| == rows && |kept| + emptySpaces == rows - 1 - row
      requires kept == KeptFrom(line, row + 1) && emptySpaces == NullsFrom(line, row + 1)
      requires now[rows - |kept|..] == kept
      requires forall k :: 0 <= k < rows - |kept| ==> now[k] == line[k]
      requires forall k :: 0 <= k < rows ==> board[k, col] == now[k]
      modifies board
      ensures |now'| == rows && |kept'| + emptySpaces' == rows - row
      ensures kept' == KeptFrom(line, row) && emptySpaces' == NullsFrom(line, row)
      ensures now'[rows - |kept'|..] == kept'
      ensures forall k :: 0 <= k < rows - |kept'| ==> now'[k] == line[k]
      ensures forall k :: 0 <= k < rows ==> board[k, col] == now'[k]
      ensures forall r, c :: 0 <= r < rows && 0 <= c < cols && c != col ==> board[r, c] == old(board[r, c])
    {
      var candy := board[row, col];
      ghost var e;
      assert now[..row + 1] == line[..row + 1];
      now', kept', e := SettleStep(line, now, kept, row, emptySpaces);
      assert candy == line[row];
      emptySpaces' := emptySpaces;
      if candy == None {
        emptySpaces' := emptySpaces + 1;
      } else if emptySpaces > 0 {
        board[row + emptySpaces, col] := candy;
      }
    }

    /** The refill of one column of `dropCandies`: its top `emptySpaces`
        cells get the next draws, top to bottom. */
    method RefillColumn(col: int, emptySpaces: nat)
      requires Shape() && 0 <= col < cols && emptySpaces <= rows
      modifies board, this`draws
      ensures forall k :: 0 <= k < emptySpaces ==> board[k, col] == Some(Draw(src, old(draws) + k))
      ensures forall r, c :: 0 <= r < rows && 0 <= c < cols && (c != col || r >= emptySpaces) ==> board[r, c] == old(board[r, c])
      ensures draws == old(draws) + emptySpaces
    {
      ghost var d := draws;
      for i := 0 to emptySpaces
        invariant draws == d + i
        invariant forall k :: 0 <= k < i ==> board[k, col] == Some(Draw(src, d + k))
        invariant forall r, c :: 0 <= r < rows && 0 <= c < cols && (c != col || r >= i) ==> board[r, c] == old(board[r, c])
      {
        var candy := GetRandomCandy();
        board[i, col] := Some(candy);
      }
    }

    /** `dropCandies`: gravity column by column, left to right. */
    method DropCandies()
      requires Linked()
      modifies board, this`draws, this`grid
      ensures Linked()
      ensures grid == Dropped(old(grid), src, old(draws))
      ensures draws == DropDraws(old(grid), old(draws))
    {
      ghost var g := grid;
      ghost var d := draws;
      DropColumns();
      grid := Dropped(g, src, d);
      forall r, c | 0 <= r < rows && 0 <= c < cols
        ensures grid[r][c] == board[r, c]
      {
        DroppedCell(g, src, d, r, c);
      }
    }

    /** The loop of `dropCandies` over the columns: each cell ends up as
        gravity leaves it, and the draws go to the columns left to right. */
    method DropColumns()
      requires Linked()
      modifies board, this`draws
      ensures Shape()
      ensures forall r, c :: 0 <= r < rows && 0 <= c < cols ==> board[r, c] == DroppedAt(grid, src, old(draws), r, c)
      ensures draws == old(draws) + NullsBefore(grid, cols)
    {
      ghost var d := draws;
      for col := 0 to cols
        invariant draws == d + NullsBefore(grid, col)
        invariant forall r, c :: 0 <= r < rows && 0 <= c < col ==> board[r, c] == DroppedAt(grid, src, d, r, c)
        invariant forall r, c :: 0 <= r < rows && col <= c < cols ==> board[r, c] == grid[r][c]
      {
        DropColumn(col, grid, d);
      }
    }

    /** `checkMatches`, with the re-check it schedules run at once, at most
        `fuel` times: score and clear the matched cells, drop, check again,
        and add the bonus when the re-check finds matches. */
    method CheckMatches(fuel: nat) returns (found: bool)
      requires Linked()
      modifies board, this`score, this`isChecking, this`draws, this`grid
      ensures Linked()
      ensures found <==> HasMatch(old(grid))
      ensures View() == AfterCheck(old(View()), src, fuel)
      decreases fuel
    {
      found := ClearMatched();
      if found {
        if fuel > 0 {
          var again := CheckMatches(fuel - 1);
          if again {
            score := score + CHAIN_BONUS;
          } else {
            isChecking := false;
          }
        }
      }
    }

    /** `checkMatches` up to its re-check: set `isChecking`, find the
        matches, and if there are any, score them, clear them and drop;
        otherwise clear `isChecking`. */
    method ClearMatched() returns (found: bool)
      requires Linked()
      modifies board, this`score, this`isChecking, this`draws, this`grid
      ensures Linked()
      ensures found <==> HasMatch(old(grid))
      ensures found ==> View() == CheckStep(old(View()), src)
      ensures !found ==> View() == old(View()).(isChecking := false)
    {
      ghost var g := grid;
      HasMatchIffSomeCell(g);
      isChecking := true;
      found := false;
      var matchedCandies := FindMatches();
      assert |matchedCandies| > 0 <==> HasMatch(g);
      if |matchedCandies| > 0 {
        found := true;
        ScoreMatches(matchedCandies);
        ClearMatches(matchedCandies);
        DropCandies();
      } else {
        isChecking := false;
      }
    }

    /** The scoring loop of `checkMatches`: ten points per matched cell. */
    method ScoreMatches(matchedCandies: seq<Pos>)
      modifies this`score
      ensures score == old(score) + MATCH_POINTS * |matchedCandies|
    {
      for i := 0 to |matchedCandies|
        invariant score == old(score) + MATCH_POINTS * i
      {
        score := score + MATCH_POINTS;
      }
    }

    /** The clearing of `checkMatches`: every matched cell is set to `null`,
        and no other cell changes. */
    method ClearMatches(matchedCandies: seq<Pos>)
      requires Linked()
      requires forall p :: p in matchedCandies <==> p in MatchSet(grid)
      modifies board, this`grid
      ensures Linked()
      ensures grid == Cleared(old(grid))
    {
      ghost var g := grid;
      MatchSetMembers(g);
      ClearCells(matchedCandies);
      grid := Cleared(g);
      forall r, c | 0 <= r < rows && 0 <= c < cols
        ensures grid[r][c] == board[r, c]
      {
        ClearedCell(g, r, c);
      }
    }

    /** The clearing loop of `checkMatches`: the listed cells are set to
        `null` one after another, and no other cell changes. */
    method ClearCells(cells: seq<Pos>)
      requires Shape()
      requires forall p :: p in cells ==> 0 <= p.row < rows && 0 <= p.col < cols
      modifies board
      ensures forall r, c :: 0 <= r < rows && 0 <= c < cols ==>
        board[r, c] == if Pos(r, c) in cells then None else old(board[r, c])
    {
      for i := 0 to |cells|
        invariant forall r, c :: 0 <= r < rows && 0 <= c < cols ==>
          board[r, c] == if Pos(r, c) in cells[..i] then None else old(board[r, c])
      {
        var p := cells[i];
        board[p.row, p.col] := None;
        assert cells[..i + 1] == cells[..i] + [p];
      }
      assert cells[..|cells|] == cells;
    }

    /** The exchange of two cells through `temp`. */
    method ExchangeCells(row1: int, col1: int, row2: int, col2: int)
      requires Linked() && 0 <= row1 < rows && 0 <= col1 < cols && 0 <= row2 < rows && 0 <= col2 < cols
      modifies board, this`grid
      ensures Linked()
      ensures grid == Swapped(old(grid), Pos(row1, col1), Pos(row2, col2))
    {
      var temp := board[row1, col1];
      board[row1, col1] := board[row2, col2];
      board[row2, col2] := temp;
      grid := Swapped(grid, Pos(row1, col1), Pos(row2, col2));
    }

    /** `swapCandies`: exchange, check, then spend a move on a match or
        exchange back without one. `endGame` tells whether `endGame` is
        scheduled. */
    method SwapCandies(row1: int, col1: int, row2: int, col2: int, fuel: nat) returns (endGame: bool)
      requires Linked() && 0 <= row1 < rows && 0 <= col1 < cols && 0 <= row2 < rows && 0 <= col2 < cols
      modifies board, this`score, this`moves, this`selected, this`isSwapping, this`isChecking, this`draws, this`grid
      ensures Linked()
      ensures View() == AfterSwap(old(View()), Pos(row1, col1), Pos(row2, col2), src, fuel)
      ensures endGame == SwapEndsGame(old(View()), Pos(row1, col1), Pos(row2, col2))
    {
      isSwapping := true;
      ExchangeCells(row1, col1, row2, col2);
      var matched := CheckMatches(fuel);
      endGame := FinishSwap(row1, col1, row2, col2, matched);
    }

    /** The second half of `swapCandies`, once the check has run: with a
        match one move is spent and `endGame` is scheduled when none is
        left; without one the two cells are exchanged back. The selection is
        dropped and `isSwapping` cleared either way. */
    method FinishSwap(row1: int, col1: int, row2: int, col2: int, matched: bool) returns (endGame: bool)
      requires Linked() && 0 <= row1 < rows && 0 <= col1 < cols && 0 <= row2 < rows && 0 <= col2 < cols
      modifies board, this`moves, this`selected, this`isSwapping, this`grid
      ensures Linked()
      ensures matched ==> View() == old(View()).(moves := old(moves) - 1, selected := None, isSwapping := false)
      ensures !matched ==> View() == old(View()).(grid := Swapped(old(grid), Pos(row1, col1), Pos(row2, col2)),
                                                  selected := None, isSwapping := false)
      ensures endGame <==> matched && old(moves) - 1 <= 0
    {
      endGame := false;
      if matched {
        moves := moves - 1;
        if moves <= 0 {
          endGame := true;
        }
      } else {
        ExchangeCells(row1, col1, row2, col2);
      }
      selected := None;
      isSwapping := false;
    }

    /** `handleCandyClick` on the cell `(row, col)`: ignored while a swap or
        a check is under way; otherwise select, swap with an adjacent
        selection, or move the selection. */
    method HandleCandyClick(row: int, col: int, fuel: nat) returns (endGame: bool)
      requires Valid() && 0 <= row < rows && 0 <= col < cols
      modifies board, this`score, this`moves, this`selected, this`isSwapping, this`isChecking, this`draws, this`grid
      ensures Valid()
      ensures View() == AfterClick(old(View()), row, col, src, fuel)
      ensures endGame == ClickEndsGame(old(View()), row, col)
    {
      ClickKeepsWf(View(), rows, cols, row, col, src, fuel);
      endGame := false;
      if isSwapping || isChecking {
        return;
      }
      if selected.None? {
        selected := Some(Pos(row, col));
      } else {
        var selectedRow := selected.value.row;
        var selectedCol := selected.value.col;
        if IsAdjacent(selectedRow, selectedCol, row, col) {
          endGame := SwapCandies(selectedRow, selectedCol, row, col, fuel);
        } else {
          selected := Some(Pos(row, col));
        }
      }
    }
  }
}
