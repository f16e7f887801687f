/**
 * The game state as a value, and what `initGame`, `checkMatches`,
 * `swapCandies` and `handleCandyClick` do to it. The class `GameState`
 * follows these functions; the properties of the game are proved about them.
 */
module Rules {
  import opened Board
  import opened Matching
  import opened Gravity
  import opened Cascade

  /** `config`: the board size, the candy kinds and the move allowance. */
  datatype Config = Config(rows: nat, cols: nat, types: seq<Token>, maxMoves: int)

  /** The configuration the game ships with: an 8 by 8 board, six fruit
      kinds and 30 moves. */
  const DEFAULT_CONFIG := Config(8, 8, ["\U{1F34E}", "\U{1F347}", "\U{1F34A}", "\U{1F353}", "\U{1F349}", "\U{1F34B}"], 30)

  /** The fields of `gameState`, together with the number of calls of
      `getRandomCandy` made so far (the position in the random stream). */
  datatype State = State(grid: Grid, score: int, moves: int, selected: Option<Pos>,
                         isSwapping: bool, isChecking: bool, draws: nat)

  /** A state between two events: a `rows` by `cols` board with a candy of
      `types` in every cell, and a selection, if any, on the board. */
  ghost predicate Wf(s: State, rows: nat, cols: nat, types: seq<Token>) {
    && rows > 0 && |s.grid| == rows && Rect(s.grid) && Width(s.grid) == cols
    && Full(s.grid, types)
    && (s.selected.Some? ==> InGrid(s.grid, s.selected.value.row, s.selected.value.col))
  }

  /** The board `createBoard` builds when the draws start at number `d`:
      `rows` rows of `cols` candies, filled row by row, left to right, each
      cell with the next draw. */
  ghost function Deal(src: TokenSource, d: nat, rows: nat, cols: nat): (g: Grid)
    requires |src.types| > 0
    ensures |g| == rows && Rect(g) && (rows > 0 ==> Width(g) == cols)
  {
    seq(rows, r requires 0 <= r < rows => DealRow(src, d + r * cols, cols))
  }

  /** One row of `createBoard`: `cols` candies from the draws starting at `start`. */
  ghost function DealRow(src: TokenSource, start: nat, cols: nat): (row: seq<Cell>)
    requires |src.types| > 0
    ensures |row| == cols
  {
    seq(cols, c requires 0 <= c < cols => Some(Draw(src, start + c)))
  }

  /** Cell `(r, c)` of a dealt board holds draw number `d + r * cols + c`. */
  lemma DealCell(src: TokenSource, d: nat, rows: nat, cols: nat, r: int, c: int)
    requires |src.types| > 0 && 0 <= r < rows && 0 <= c < cols
    ensures Deal(src, d, rows, cols)[r][c] == Some(Draw(src, d + r * cols + c))
  {
  }

  /** Every cell of a dealt board holds a candy of the configured kinds. */
  lemma DealFull(src: TokenSource, d: nat, rows: nat, cols: nat)
    requires |src.types| > 0
    ensures Full(Deal(src, d, rows, cols), src.types)
  {
    var g: Grid := Deal(src, d, rows, cols);
    forall r, c | 0 <= r < |g| && 0 <= c < |g[r]|
      ensures g[r][c].Some? && g[r][c].value in src.types
    {
      DealCell(src, d, rows, cols, r, c);
    }
  }

  /** The board `initGame` keeps, the number of the draw it starts with, and
      how many boards were dealt. */
  datatype Dealt = Dealt(grid: Grid, start: nat, deals: nat)

  /** `createBoard()` and then `while (hasMatches()) createBoard();`, with at
      most `fuel` boards thrown away: each deal takes the next `rows * cols`
      draws and the board kept is the last one dealt. */
  ghost function Deals(src: TokenSource, d: nat, rows: nat, cols: nat, fuel: nat): (res: Dealt)
    requires |src.types| > 0
    ensures Rect(res.grid)
    decreases fuel
  {
    var g := Deal(src, d, rows, cols);
    if !HasMatch(g) || fuel == 0 then Dealt(g, d, 1)
    else
      var rest := Deals(src, d + Cells(rows, cols), rows, cols, fuel - 1);
      Dealt(rest.grid, rest.start, rest.deals + 1)
  }

  /** Between one and `fuel + 1` boards are dealt, and the board kept is
      the deal of its own draws. */
  lemma {:induction false} DealsKept(src: TokenSource, d: nat, rows: nat, cols: nat, fuel: nat)
    requires |src.types| > 0
    ensures var res := Deals(src, d, rows, cols, fuel);
      1 <= res.deals <= fuel + 1 && res.start >= d && res.grid == Deal(src, res.start, rows, cols)
    decreases fuel
  {
    if HasMatch(Deal(src, d, rows, cols)) && fuel > 0 {
      DealsKept(src, d + Cells(rows, cols), rows, cols, fuel - 1);
    }
  }

  /** The board kept has a match only when all `fuel + 1` deals had one. */
  lemma {:induction false} DealsExhausted(src: TokenSource, d: nat, rows: nat, cols: nat, fuel: nat)
    requires |src.types| > 0
    ensures HasMatch(Deals(src, d, rows, cols, fuel).grid) ==> Deals(src, d, rows, cols, fuel).deals == fuel + 1
    decreases fuel
  {
    if HasMatch(Deal(src, d, rows, cols)) && fuel > 0 {
      DealsExhausted(src, d + Cells(rows, cols), rows, cols, fuel - 1);
    }
  }

  /** A deal with a match, with fuel left, is thrown away: the board kept
      is the one kept from the next deal on, and one more board was dealt. */
  lemma DealsAgain(src: TokenSource, d: nat, rows: nat, cols: nat, fuel: nat)
    requires |src.types| > 0 && fuel > 0 && HasMatch(Deal(src, d, rows, cols))
    ensures var rest := Deals(src, d + Cells(rows, cols), rows, cols, fuel - 1);
      Deals(src, d, rows, cols, fuel) == rest.(deals := rest.deals + 1)
  {
  }

  /** A deal without a match, or the last one allowed, is kept. */
  lemma DealsDone(src: TokenSource, d: nat, rows: nat, cols: nat, fuel: nat)
    requires |src.types| > 0 && (fuel == 0 || !HasMatch(Deal(src, d, rows, cols)))
    ensures Deals(src, d, rows, cols, fuel) == Dealt(Deal(src, d, rows, cols), d, 1)
  {
  }

  /** The number of cells of the board, and of draws one `createBoard` makes. */
  function Cells(rows: nat, cols: nat): nat {
    rows * cols
  }

  /** The state `initGame` leaves when the draw counter was `d`. */
  ghost function Init(rows: nat, cols: nat, maxMoves: int, src: TokenSource, d: nat, fuel: nat): (s: State)
    requires |src.types| > 0
  {
    var dealt := Deals(src, d, rows, cols, fuel);
    State(dealt.grid, 0, maxMoves, None, false, false, dealt.start + Cells(rows, cols))
  }

  /** One step of `checkMatches` on a board with a match, up to its
      re-check: ten points per matched cell, the matched cells cleared and
      gravity applied, and `isChecking` set. */
  ghost function CheckStep(s: State, src: TokenSource): (t: State)
    requires Rect(s.grid) && |src.types| > 0
    ensures |t.grid| == |s.grid| && Rect(t.grid) && Width(t.grid) == Width(s.grid)
  {
    var cleared := Cleared(s.grid);
    s.(grid := Dropped(cleared, src, s.draws), draws := DropDraws(cleared, s.draws),
       score := s.score + MATCH_POINTS * |MatchSet(s.grid)|, isChecking := true)
  }

  /** `checkMatches` and the re-checks it schedules, run one after another.
      Without a match it only clears `isChecking`. With one it takes a step
      and re-checks; a re-check that finds matches earns the bonus, one that
      finds none clears `isChecking`. `fuel` bounds the number of re-checks;
      when it runs out after a step, `isChecking` stays set. */
  ghost function AfterCheck(s: State, src: TokenSource, fuel: nat): (t: State)
    requires Rect(s.grid) && |src.types| > 0
    ensures |t.grid| == |s.grid| && Rect(t.grid) && Width(t.grid) == Width(s.grid)
    decreases fuel
  {
    if !HasMatch(s.grid) then s.(isChecking := false)
    else
      var next := CheckStep(s, src);
      if fuel == 0 then next
      else
        var t := AfterCheck(next, src, fuel - 1);
        if HasMatch(next.grid) then t.(score := t.score + CHAIN_BONUS) else t.(isChecking := false)
  }

  /** The number of cells each step of the cascade cleared. */
  ghost function Steps(s: State, src: TokenSource, fuel: nat): (steps: seq<nat>)
    requires Rect(s.grid) && |src.types| > 0
    decreases fuel
  {
    if !HasMatch(s.grid) then []
    else if fuel == 0 then [|MatchSet(s.grid)|]
    else [|MatchSet(s.grid)|] + Steps(CheckStep(s, src), src, fuel - 1)
  }

  /** `swapCandies(p, q)`: exchange the two cells and check; with a match
      one move is spent, without one the cells are exchanged back; either
      way the selection is dropped and `isSwapping` cleared. */
  ghost function AfterSwap(s: State, p: Pos, q: Pos, src: TokenSource, fuel: nat): (t: State)
    requires Rect(s.grid) && InGrid(s.grid, p.row, p.col) && InGrid(s.grid, q.row, q.col)
    requires |src.types| > 0
  {
    var swapped := Swapped(s.grid, p, q);
    var checked := AfterCheck(s.(grid := swapped, isSwapping := true), src, fuel);
    if HasMatch(swapped) then
      checked.(moves := checked.moves - 1, selected := None, isSwapping := false)
    else
      checked.(grid := Swapped(checked.grid, p, q), selected := None, isSwapping := false)
  }

  /** `swapCandies(p, q)` schedules `endGame`: the swap matched and spent the last move. */
  ghost predicate SwapEndsGame(s: State, p: Pos, q: Pos)
    requires Rect(s.grid) && InGrid(s.grid, p.row, p.col) && InGrid(s.grid, q.row, q.col)
  {
    HasMatch(Swapped(s.grid, p, q)) && s.moves - 1 <= 0
  }

  /** The precondition of a click: the clicked cell and the selection are on the board. */
  ghost predicate Clickable(s: State, row: int, col: int) {
    && Rect(s.grid) && InGrid(s.grid, row, col)
    && (s.selected.Some? ==> InGrid(s.grid, s.selected.value.row, s.selected.value.col))
  }

  /** `handleCandyClick` on the cell `(row, col)`. */
  ghost function AfterClick(s: State, row: int, col: int, src: TokenSource, fuel: nat): (t: State)
    requires Clickable(s, row, col) && |src.types| > 0
  {
    if s.isSwapping || s.isChecking then s
    else if s.selected.None? then s.(selected := Some(Pos(row, col)))
    else if IsAdjacent(s.selected.value.row, s.selected.value.col, row, col) then
      AfterSwap(s, s.selected.value, Pos(row, col), src, fuel)
    else s.(selected := Some(Pos(row, col)))
  }

  /** A click schedules `endGame` when it swaps and the swap ends the game. */
  ghost predicate ClickEndsGame(s: State, row: int, col: int)
    requires Clickable(s, row, col)
  {
    && !(s.isSwapping || s.isChecking) && s.selected.Some?
    && IsAdjacent(s.selected.value.row, s.selected.value.col, row, col)
    && SwapEndsGame(s, s.selected.value, Pos(row, col))
  }
}
