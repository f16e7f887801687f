/**
 * The pieces of the cascade run by `checkMatches`: the clearing of the
 * matched cells and the score law, ten points per cleared cell with a flat
 * bonus for every later step that finds matches. `Rules.AfterCheck` strings
 * the steps together.
 */
module Cascade {
  import opened Board
  import opened Matching
  import opened Gravity

  /** Points per unique matched cell. */
  const MATCH_POINTS := 10
  /** Flat bonus for each later cascade step that finds matches. */
  const CHAIN_BONUS := 50

  /** The cell `(r, c)` after the matched cells are set to `null`. */
  ghost function ClearedAt(g: Grid, r: int, c: int): Cell
    requires Rect(g) && InGrid(g, r, c)
  {
    if Matched(g, r, c) then None else g[r][c]
  }

  /** Row `r` after the matched cells are set to `null`. */
  ghost function ClearedRow(g: Grid, r: int): (row: seq<Cell>)
    requires Rect(g) && 0 <= r < |g|
    ensures |row| == Width(g)
  {
    seq(Width(g), c requires 0 <= c < Width(g) => ClearedAt(g, r, c))
  }

  /** The first `n` rows after the matched cells are set to `null`. */
  ghost function ClearedRows(g: Grid, n: nat): (rows: Grid)
    requires Rect(g) && n <= |g|
    ensures |rows| == n && forall r :: 0 <= r < n ==> |rows[r]| == Width(g)
  {
    if n == 0 then [] else ClearedRows(g, n - 1) + [ClearedRow(g, n - 1)]
  }

  /** The board after every matched cell is set to `null`. */
  ghost function Cleared(g: Grid): (h: Grid)
    requires Rect(g)
    ensures |h| == |g| && Rect(h) && Width(h) == Width(g)
  {
    ClearedRows(g, |g|)
  }

  lemma {:induction false} ClearedRowsCell(g: Grid, n: nat, r: int, c: int)
    requires Rect(g) && n <= |g| && 0 <= r < n && 0 <= c < Width(g)
    ensures ClearedRows(g, n)[r][c] == ClearedAt(g, r, c)
    decreases n
  {
    if r < n - 1 {
      ClearedRowsCell(g, n - 1, r, c);
    }
  }

  /** Clearing empties exactly the matched cells and keeps every other cell. */
  lemma ClearedCell(g: Grid, r: int, c: int)
    requires Rect(g) && InGrid(g, r, c)
    ensures Cleared(g)[r][c] == (if Pos(r, c) in MatchSet(g) then None else g[r][c])
  {
    MatchSetMembers(g);
    ClearedRowsCell(g, |g|, r, c);
  }

  /** Clearing keeps every candy it leaves in place. */
  lemma ClearedDrawn(g: Grid, types: seq<Token>)
    requires Rect(g)
    requires Drawn(g, types)
    ensures Drawn(Cleared(g), types)
  {
    forall r, c | 0 <= r < |g| && 0 <= c < Width(g) && Cleared(g)[r][c].Some?
      ensures Cleared(g)[r][c].value in types
    {
      ClearedRowsCell(g, |g|, r, c);
    }
  }

  /** Each step clears at least three cells. */
  ghost predicate AtLeastThree(steps: seq<nat>) {
    forall i :: 0 <= i < |steps| ==> steps[i] >= 3
  }

  /** Ten points per cell over all steps, plus the bonus once for every
      step after the first. */
  function ScoreOf(steps: seq<nat>): int {
    if steps == [] then 0 else MATCH_POINTS * Sum(steps) + CHAIN_BONUS * (|steps| - 1)
  }

  function Sum(s: seq<nat>): nat {
    if s == [] then 0 else s[0] + Sum(s[1..])
  }

  lemma SumCons(k: nat, s: seq<nat>)
    ensures Sum([k] + s) == k + Sum(s)
  {
    assert ([k] + s)[1..] == s;
  }

  /** A step of `k` cells in front of later steps adds ten points per cell,
      and the bonus when later steps follow. */
  lemma ScoreCons(k: nat, rest: seq<nat>)
    ensures ScoreOf([k] + rest) == MATCH_POINTS * k + ScoreOf(rest) + (if rest != [] then CHAIN_BONUS else 0)
  {
    SumCons(k, rest);
  }

  /** One step of a cascade keeps every cell a candy of `types`. */
  lemma StepKeepsFull(g: Grid, src: TokenSource, d: nat)
    requires Rect(g) && |src.types| > 0
    ensures Full(g, src.types) ==> Full(Dropped(Cleared(g), src, d), src.types)
  {
    if Full(g, src.types) {
      ClearedDrawn(g, src.types);
      DroppedFull(Cleared(g), src, d);
    }
  }

}
