/**
 * Properties of the game's rules: what `initGame` leaves, what a swap does
 * with and without a match, when the game ends, and what every click keeps.
 */
module RulesLaws {
  import opened Board
  import opened Matching
  import opened Cascade
  import opened Rules

  /** A sum of step sizes is at least its first step. */
  lemma SumAtLeastHead(steps: seq<nat>)
    requires steps != []
    ensures Sum(steps) >= steps[0]
  {
  }

  /** `initGame` leaves a well-formed state with score 0, the full move
      allowance, nothing selected and both flags cleared; its board has no
      match unless every one of the `fuel + 1` boards it dealt had one. */
  lemma InitState(rows: nat, cols: nat, maxMoves: int, src: TokenSource, d: nat, fuel: nat)
    requires rows > 0 && |src.types| > 0
    ensures var s := Init(rows, cols, maxMoves, src, d, fuel);
      && Wf(s, rows, cols, src.types)
      && s.score == 0 && s.moves == maxMoves && s.selected == None
      && !s.isSwapping && !s.isChecking
      && (HasMatch(s.grid) ==> Deals(src, d, rows, cols, fuel).deals == fuel + 1)
  {
    DealsKept(src, d, rows, cols, fuel);
    DealsExhausted(src, d, rows, cols, fuel);
    DealFull(src, Deals(src, d, rows, cols, fuel).start, rows, cols);
  }

  /** The cascade changes nothing but the board, the score, the draw
      counter and `isChecking`; it never moves the random stream backwards
      and never lowers the score. */
  lemma {:induction false} CheckFrame(s: State, src: TokenSource, fuel: nat)
    requires Rect(s.grid) && |src.types| > 0
    ensures var t := AfterCheck(s, src, fuel);
      && t.moves == s.moves && t.selected == s.selected && t.isSwapping == s.isSwapping
      && t.draws >= s.draws && t.score >= s.score
    decreases fuel
  {
    if HasMatch(s.grid) && fuel > 0 {
      CheckFrame(CheckStep(s, src), src, fuel - 1);
    }
  }

  /** The cascade takes a step exactly when the board has a match, takes at
      most `fuel + 1` steps, its first step clears every matched cell, and
      every step clears at least three. */
  lemma {:induction false} CheckSteps(s: State, src: TokenSource, fuel: nat)
    requires Rect(s.grid) && |src.types| > 0
    ensures var steps := Steps(s, src, fuel);
      && (steps != [] <==> HasMatch(s.grid))
      && (steps != [] ==> steps[0] == |MatchSet(s.grid)|)
      && |steps| <= fuel + 1
      && AtLeastThree(steps)
    decreases fuel
  {
    if HasMatch(s.grid) {
      MatchSetAtLeastThree(s.grid);
      if fuel > 0 {
        CheckSteps(CheckStep(s, src), src, fuel - 1);
      }
    }
  }

  /** The score law of the cascade: ten points per cleared cell over all
      steps, plus the bonus for every step after the first. */
  lemma {:induction false} CheckScore(s: State, src: TokenSource, fuel: nat)
    requires Rect(s.grid) && |src.types| > 0
    ensures AfterCheck(s, src, fuel).score == s.score + ScoreOf(Steps(s, src, fuel))
    decreases fuel
  {
    if HasMatch(s.grid) {
      var k := |MatchSet(s.grid)|;
      if fuel == 0 {
        ScoreCons(k, []);
        assert [k] + [] == [k];
      } else {
        var next := CheckStep(s, src);
        var rest := Steps(next, src, fuel - 1);
        CheckScore(next, src, fuel - 1);
        CheckSteps(next, src, fuel - 1);
        ScoreCons(k, rest);
        assert Steps(s, src, fuel) == [k] + rest;
      }
    }
  }

  /** Once `isChecking` is cleared the board has no run of three left. */
  lemma {:induction false} CheckSettled(s: State, src: TokenSource, fuel: nat)
    requires Rect(s.grid) && |src.types| > 0
    ensures var t := AfterCheck(s, src, fuel);
      !t.isChecking ==> !HasMatch(t.grid)
    decreases fuel
  {
    if HasMatch(s.grid) && fuel > 0 {
      CheckSettled(CheckStep(s, src), src, fuel - 1);
    }
  }

  /** While `isChecking` is still set, the fuel ran out after `fuel + 1`
      steps that all found matches. */
  lemma {:induction false} CheckOutOfFuel(s: State, src: TokenSource, fuel: nat)
    requires Rect(s.grid) && |src.types| > 0
    ensures AfterCheck(s, src, fuel).isChecking ==> |Steps(s, src, fuel)| == fuel + 1
    decreases fuel
  {
    if HasMatch(s.grid) && fuel > 0 {
      CheckOutOfFuel(CheckStep(s, src), src, fuel - 1);
    }
  }

  /** The cascade keeps every cell a candy of `types`. */
  lemma {:induction false} CheckKeepsFull(s: State, src: TokenSource, fuel: nat)
    requires Rect(s.grid) && |src.types| > 0
    requires Full(s.grid, src.types)
    ensures Full(AfterCheck(s, src, fuel).grid, src.types)
    decreases fuel
  {
    if HasMatch(s.grid) {
      StepKeepsFull(s.grid, src, s.draws);
      if fuel > 0 {
        CheckKeepsFull(CheckStep(s, src), src, fuel - 1);
      }
    }
  }

  /** A swap that makes no match changes nothing but the selection and the
      two flags: the cells are exchanged back, the score, the moves and the
      random stream are as before. */
  lemma SwapWithoutMatch(s: State, p: Pos, q: Pos, src: TokenSource, fuel: nat)
    requires Rect(s.grid) && InGrid(s.grid, p.row, p.col) && InGrid(s.grid, q.row, q.col)
    requires |src.types| > 0
    requires !HasMatch(Swapped(s.grid, p, q))
    ensures AfterSwap(s, p, q, src, fuel) == s.(selected := None, isSwapping := false, isChecking := false)
  {
    SwapTwice(s.grid, p, q);
  }

  /** A swap that makes a match spends one move, scores what its cascade
      scores, at least 30 points, drops the selection and clears
      `isSwapping`; once `isChecking` is cleared the board has no run of
      three left. */
  lemma SwapWithMatch(s: State, p: Pos, q: Pos, src: TokenSource, fuel: nat)
    requires Rect(s.grid) && InGrid(s.grid, p.row, p.col) && InGrid(s.grid, q.row, q.col)
    requires |src.types| > 0
    requires HasMatch(Swapped(s.grid, p, q))
    ensures var t := AfterSwap(s, p, q, src, fuel);
      && t.moves == s.moves - 1
      && t.score == s.score + ScoreOf(Steps(s.(grid := Swapped(s.grid, p, q), isSwapping := true), src, fuel))
      && t.score >= s.score + 3 * MATCH_POINTS
      && t.selected == None && !t.isSwapping
      && t.draws >= s.draws
      && (!t.isChecking ==> !HasMatch(t.grid))
  {
    var s' := s.(grid := Swapped(s.grid, p, q), isSwapping := true);
    CheckFrame(s', src, fuel);
    CheckSteps(s', src, fuel);
    CheckScore(s', src, fuel);
    CheckSettled(s', src, fuel);
    SumAtLeastHead(Steps(s', src, fuel));
  }

  /** `endGame` is scheduled exactly when the swap spent a move and left
      none. */
  lemma SwapEndsGameIff(s: State, p: Pos, q: Pos, src: TokenSource, fuel: nat)
    requires Rect(s.grid) && InGrid(s.grid, p.row, p.col) && InGrid(s.grid, q.row, q.col)
    requires |src.types| > 0
    ensures var t := AfterSwap(s, p, q, src, fuel);
      SwapEndsGame(s, p, q) <==> t.moves < s.moves && t.moves <= 0
  {
    if HasMatch(Swapped(s.grid, p, q)) {
      SwapWithMatch(s, p, q, src, fuel);
    } else {
      SwapWithoutMatch(s, p, q, src, fuel);
    }
  }

  /** A click while a swap or a cascade is in progress does nothing; a
      click that does not swap only changes the selection, to the clicked
      cell. */
  lemma ClickWithoutSwap(s: State, row: int, col: int, src: TokenSource, fuel: nat)
    requires Clickable(s, row, col) && |src.types| > 0
    ensures s.isSwapping || s.isChecking ==> AfterClick(s, row, col, src, fuel) == s
    ensures (&& !(s.isSwapping || s.isChecking)
             && (s.selected.None? || !IsAdjacent(s.selected.value.row, s.selected.value.col, row, col)))
      ==> AfterClick(s, row, col, src, fuel) == s.(selected := Some(Pos(row, col)))
  {
  }

  /** Every click keeps the state well formed: the board stays full of
      candies of the configured kinds and the selection stays on it. */
  lemma ClickKeepsWf(s: State, rows: nat, cols: nat, row: int, col: int, src: TokenSource, fuel: nat)
    requires Wf(s, rows, cols, src.types) && InGrid(s.grid, row, col) && |src.types| > 0
    ensures Clickable(s, row, col)
    ensures Wf(AfterClick(s, row, col, src, fuel), rows, cols, src.types)
  {
    if !(s.isSwapping || s.isChecking) && s.selected.Some?
       && IsAdjacent(s.selected.value.row, s.selected.value.col, row, col) {
      var p, q := s.selected.value, Pos(row, col);
      if HasMatch(Swapped(s.grid, p, q)) {
        SwapKeepsFull(s.grid, p, q, src.types);
        CheckKeepsFull(s.(grid := Swapped(s.grid, p, q), isSwapping := true), src, fuel);
      } else {
        SwapWithoutMatch(s, p, q, src, fuel);
      }
    }
  }

  /** A click never lowers the score, spends at most one move and never
      moves the random stream backwards. */
  lemma ClickScoreAndMoves(s: State, row: int, col: int, src: TokenSource, fuel: nat)
    requires Clickable(s, row, col) && |src.types| > 0
    ensures var t := AfterClick(s, row, col, src, fuel);
      t.score >= s.score && s.moves - 1 <= t.moves <= s.moves && t.draws >= s.draws
  {
    if !(s.isSwapping || s.isChecking) && s.selected.Some?
       && IsAdjacent(s.selected.value.row, s.selected.value.col, row, col) {
      var p, q := s.selected.value, Pos(row, col);
      if HasMatch(Swapped(s.grid, p, q)) {
        SwapWithMatch(s, p, q, src, fuel);
      } else {
        SwapWithoutMatch(s, p, q, src, fuel);
      }
    }
  }
}
