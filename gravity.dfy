/**
 * Gravity, the specification behind `dropCandies`: each column, on its own,
 * keeps its candies in order at the bottom and is refilled at the top from
 * the token source.
 */
module Gravity {
  import opened Board

  /** The candies of a column, top to bottom, with the empty cells left out. */
  ghost function NonNull(s: seq<Cell>): (t: seq<Cell>)
    ensures |t| <= |s|
    ensures forall i :: 0 <= i < |t| ==> t[i].Some?
    decreases |s|
  {
    if s == [] then []
    else (if s[0].Some? then [s[0]] else []) + NonNull(s[1..])
  }

  /** Every kept candy is a candy of the column. */
  lemma {:induction false} NonNullIn(s: seq<Cell>)
    ensures forall i :: 0 <= i < |NonNull(s)| ==> NonNull(s)[i] in s
    decreases |s|
  {
    if s != [] {
      NonNullIn(s[1..]);
      var t := NonNull(s[1..]);
      assert forall i :: 0 <= i < |t| ==> t[i] in s[1..];
      assert forall x :: x in s[1..] ==> x in s;
    }
  }

  /** The number of empty cells in a column. */
  ghost function NullCount(s: seq<Cell>): nat
    decreases |s|
  {
    if s == [] then 0
    else (if s[0].None? then 1 else 0) + NullCount(s[1..])
  }

  /** Every cell is either kept or counted as empty. */
  lemma {:induction false} NonNullLength(s: seq<Cell>)
    ensures |NonNull(s)| + NullCount(s) == |s|
    decreases |s|
  {
    if s != [] {
      NonNullLength(s[1..]);
    }
  }

  /** The candies of `s` from index `i` down, in order: what the upward
      scan of `dropCandies` has passed over when it is at row `i - 1`. */
  ghost function KeptFrom(s: seq<Cell>, i: nat): (t: seq<Cell>)
    decreases |s| - i
  {
    if i >= |s| then [] else (if s[i].Some? then [s[i]] else []) + KeptFrom(s, i + 1)
  }

  /** The empty cells of `s` from index `i` down. */
  ghost function NullsFrom(s: seq<Cell>, i: nat): nat
    decreases |s| - i
  {
    if i >= |s| then 0 else (if s[i].None? then 1 else 0) + NullsFrom(s, i + 1)
  }

  /** The scan from index `i` computes the candies and the empty cells of the
      suffix `s[i..]`. */
  lemma {:induction false} ScanFrom(s: seq<Cell>, i: nat)
    requires i <= |s|
    ensures KeptFrom(s, i) == NonNull(s[i..]) && NullsFrom(s, i) == NullCount(s[i..])
    decreases |s| - i
  {
    if i < |s| {
      ScanFrom(s, i + 1);
      assert s[i..][1..] == s[i + 1..];
    } else {
      assert s[i..] == [];
    }
  }

  /** One step of the upward scan of `dropCandies` at row `row`, on the
      column as the scan has left it (`now`): an empty cell is counted, a
      candy moves down by the count so far. Above the scan the column is
      untouched, and the candies scanned so far fill its bottom rows. */
  lemma SettleStep(line: seq<Cell>, now: seq<Cell>, kept: seq<Cell>, row: nat, e: nat)
      returns (now': seq<Cell>, kept': seq<Cell>, e': nat)
    requires |now| == |line| && row < |line| && |kept| + e == |line| - 1 - row
    requires kept == KeptFrom(line, row + 1) && e == NullsFrom(line, row + 1)
    requires now[..row + 1] == line[..row + 1] && now[|line| - |kept|..] == kept
    requires forall k :: 0 <= k < |line| - |kept| ==> now[k] == line[k]
    ensures now[row] == line[row]
    ensures now' == if line[row].Some? && e > 0 then now[row + e := line[row]] else now
    ensures kept' == if line[row].Some? then [line[row]] + kept else kept
    ensures e' == if line[row].None? then e + 1 else e
    ensures |now'| == |line| && |kept'| + e' == |line| - row
    ensures kept' == KeptFrom(line, row) && e' == NullsFrom(line, row)
    ensures now'[..row] == line[..row]
    ensures now'[|line| - |kept'|..] == kept'
    ensures forall k :: 0 <= k < |line| - |kept'| ==> now'[k] == line[k]
  {
    assert now[row] == line[row] by {
      assert now[..row + 1][row] == line[..row + 1][row];
    }
    assert now[..row] == now[..row + 1][..row];
    assert line[..row] == line[..row + 1][..row];
    if line[row].None? {
      now', kept', e' := now, kept, e + 1;
    } else {
      now' := if e > 0 then now[row + e := line[row]] else now;
      kept', e' := [line[row]] + kept, e;
      assert now'[..row] == now[..row];
      assert now'[row + e + 1..] == now[row + e + 1..] == kept;
      assert now'[row + e..] == [line[row]] + now'[row + e + 1..];
    }
  }

  /** A column without empty cells is kept as it is. */
  lemma {:induction false} NonNullOfFull(s: seq<Cell>)
    requires forall i :: 0 <= i < |s| ==> s[i].Some?
    ensures NonNull(s) == s && NullCount(s) == 0
    decreases |s|
  {
    if s != [] {
      NonNullOfFull(s[1..]);
    }
  }

  /** `k` candies drawn from the source, starting with draw number `d`. */
  ghost function Refill(src: TokenSource, d: nat, k: nat): (t: seq<Cell>)
    requires |src.types| > 0
    ensures |t| == k
  {
    seq(k, i requires 0 <= i < k => Some(Draw(src, d + i)))
  }

  /** A column after gravity: as many fresh candies as it had empty cells,
      on top of its own candies in their original order. */
  ghost function Fall(col: seq<Cell>, src: TokenSource, d: nat): (t: seq<Cell>)
    requires |src.types| > 0
    ensures |t| == |col|
  {
    NonNullLength(col);
    Refill(src, d, NullCount(col)) + NonNull(col)
  }

  /** After gravity no cell of the column is empty, the column's candies fill
      its bottom rows in their original order, and the top `NullCount(col)`
      rows hold the next draws of the source. */
  lemma FallSettles(col: seq<Cell>, src: TokenSource, d: nat)
    requires |src.types| > 0
    ensures var t := Fall(col, src, d);
      && (forall i :: 0 <= i < |t| ==> t[i].Some?)
      && t[NullCount(col)..] == NonNull(col)
      && (forall i :: 0 <= i < NullCount(col) ==> t[i] == Some(Draw(src, d + i)))
      && |NonNull(col)| == |col| - NullCount(col)
  {
    NonNullLength(col);
    var t := Fall(col, src, d);
    assert t[NullCount(col)..] == NonNull(col);
  }

  /** Row `k` of a column after gravity: a fresh draw above the kept
      candies, or the kept candy that lands there. */
  lemma FallAt(col: seq<Cell>, src: TokenSource, d: nat, k: int)
    requires |src.types| > 0 && 0 <= k < |col|
    ensures Fall(col, src, d)[k] ==
      if k < NullCount(col) then Some(Draw(src, d + k)) else NonNull(col)[k - NullCount(col)]
  {
    FallSettles(col, src, d);
    var n := NullCount(col);
    if k >= n {
      assert Fall(col, src, d)[k] == Fall(col, src, d)[n..][k - n];
    }
  }

  /** A column without empty cells is left as it is and makes no draw. */
  lemma FallOfFull(col: seq<Cell>, src: TokenSource, d: nat)
    requires |src.types| > 0
    requires forall i :: 0 <= i < |col| ==> col[i].Some?
    ensures NullCount(col) == 0 && Fall(col, src, d) == col
  {
    NonNullOfFull(col);
    assert Refill(src, d, 0) + col == col;
  }

  /** The number of empty cells in the columns left of `c`: the draws that
      `dropCandies` makes before it reaches column `c`. */
  ghost function NullsBefore(g: Grid, c: int): nat
    requires Rect(g) && 0 <= c <= Width(g)
  {
    if c == 0 then 0 else NullsBefore(g, c - 1) + NullCount(Col(g, c - 1))
  }

  /** The draw counter after `dropCandies` on `g`, which makes one draw per
      empty cell, when it started at `d`. */
  ghost function DropDraws(g: Grid, d: nat): (n: nat)
    requires Rect(g)
    ensures n >= d
  {
    d + NullsBefore(g, Width(g))
  }

  /** A column counts no empty cell only when every cell holds a candy. */
  lemma {:induction false} NullCountZero(s: seq<Cell>)
    requires NullCount(s) == 0
    ensures forall i :: 0 <= i < |s| ==> s[i].Some?
    decreases |s|
  {
    if s != [] {
      NullCountZero(s[1..]);
      forall i | 0 <= i < |s|
        ensures s[i].Some?
      {
        if i > 0 {
          assert s[i] == s[1..][i - 1];
        }
      }
    }
  }

  /** The columns left of `c` make at most one draw per cell. */
  lemma {:induction false} NullsBeforeBound(g: Grid, c: int)
    requires Rect(g) && 0 <= c <= Width(g)
    ensures NullsBefore(g, c) <= c * |g|
    decreases c
  {
    if c > 0 {
      NullsBeforeBound(g, c - 1);
      NonNullLength(Col(g, c - 1));
      assert (c - 1) * |g| + |g| == c * |g|;
    }
  }

  /** The columns left of `c` make no draw exactly when none of their
      cells is empty. */
  lemma {:induction false} NullsBeforeZero(g: Grid, c: int)
    requires Rect(g) && 0 <= c <= Width(g)
    ensures NullsBefore(g, c) == 0 <==>
      forall r, k :: 0 <= r < |g| && 0 <= k < c ==> g[r][k].Some?
    decreases c
  {
    if c > 0 {
      var col := Col(g, c - 1);
      NullsBeforeZero(g, c - 1);
      if NullsBefore(g, c) == 0 {
        NullCountZero(col);
        forall r, k | 0 <= r < |g| && 0 <= k < c
          ensures g[r][k].Some?
        {
          if k == c - 1 {
            assert col[r] == g[r][k];
          }
        }
      } else if forall r :: 0 <= r < |g| ==> g[r][c - 1].Some? {
        NonNullOfFull(col);
      }
    }
  }

  /** `dropCandies` makes at most one draw per cell of the board, and it
      makes no draw exactly when no cell is empty. */
  lemma DropDrawsBounds(g: Grid, d: nat)
    requires Rect(g)
    ensures d <= DropDraws(g, d) <= d + |g| * Width(g)
    ensures DropDraws(g, d) == d <==>
      forall r, k :: 0 <= r < |g| && 0 <= k < Width(g) ==> g[r][k].Some?
  {
    NullsBeforeBound(g, Width(g));
    NullsBeforeZero(g, Width(g));
  }

  /** Row `r` of column `c` after gravity, when the draws start at number `d`. */
  ghost function DroppedAt(g: Grid, src: TokenSource, d: nat, r: int, c: int): Cell
    requires Rect(g) && |src.types| > 0 && InGrid(g, r, c)
  {
    Fall(Col(g, c), src, d + NullsBefore(g, c))[r]
  }

  /** Row `r` after gravity. */
  ghost function DroppedRow(g: Grid, src: TokenSource, d: nat, r: int): (row: seq<Cell>)
    requires Rect(g) && |src.types| > 0 && 0 <= r < |g|
    ensures |row| == Width(g)
  {
    seq(Width(g), c requires 0 <= c < Width(g) => DroppedAt(g, src, d, r, c))
  }

  /** The first `n` rows after gravity. */
  ghost function DroppedRows(g: Grid, src: TokenSource, d: nat, n: nat): (rows: Grid)
    requires Rect(g) && |src.types| > 0 && n <= |g|
    ensures |rows| == n && forall r :: 0 <= r < n ==> |rows[r]| == Width(g)
  {
    if n == 0 then [] else DroppedRows(g, src, d, n - 1) + [DroppedRow(g, src, d, n - 1)]
  }

  /** The board after gravity: every column falls on its own, and the
      columns draw their new candies left to right. */
  ghost function Dropped(g: Grid, src: TokenSource, d: nat): (h: Grid)
    requires Rect(g) && |src.types| > 0
    ensures |h| == |g| && Rect(h) && Width(h) == Width(g)
  {
    DroppedRows(g, src, d, |g|)
  }

  lemma {:induction false} DroppedRowsCell(g: Grid, src: TokenSource, d: nat, n: nat, r: int, c: int)
    requires Rect(g) && |src.types| > 0 && n <= |g| && 0 <= r < n && 0 <= c < Width(g)
    ensures DroppedRows(g, src, d, n)[r][c] == DroppedAt(g, src, d, r, c)
    decreases n
  {
    if r < n - 1 {
      DroppedRowsCell(g, src, d, n - 1, r, c);
    }
  }

  lemma DroppedCell(g: Grid, src: TokenSource, d: nat, r: int, c: int)
    requires Rect(g) && |src.types| > 0 && InGrid(g, r, c)
    ensures Dropped(g, src, d)[r][c] == DroppedAt(g, src, d, r, c)
  {
    DroppedRowsCell(g, src, d, |g|, r, c);
  }

  /** Columns do not affect each other: each column of the dropped board is its
      own column after gravity (the other columns only move where its draws start). */
  lemma DroppedColumn(g: Grid, src: TokenSource, d: nat, c: int)
    requires Rect(g) && |src.types| > 0 && 0 <= c < Width(g)
    ensures Col(Dropped(g, src, d), c) == Fall(Col(g, c), src, d + NullsBefore(g, c))
  {
    var h: Grid := Dropped(g, src, d);
    var col, t := Col(h, c), Fall(Col(g, c), src, d + NullsBefore(g, c));
    forall r | 0 <= r < |g|
      ensures col[r] == t[r]
    {
      DroppedCell(g, src, d, r, c);
      assert col[r] == h[r][c];
    }
    assert col == t;
  }

  /** Gravity leaves no empty cell, and every candy comes from `types`. */
  lemma DroppedFull(g: Grid, src: TokenSource, d: nat)
    requires Rect(g) && |src.types| > 0
    requires Drawn(g, src.types)
    ensures Full(Dropped(g, src, d), src.types)
  {
    var h: Grid := Dropped(g, src, d);
    forall r, c | 0 <= r < |h| && 0 <= c < |h[r]|
      ensures h[r][c].Some? && h[r][c].value in src.types
    {
      var col := Col(g, c);
      var dc := d + NullsBefore(g, c);
      FallSettles(col, src, dc);
      var t := Fall(col, src, dc);
      DroppedCell(g, src, d, r, c);
      assert h[r][c] == t[r];
      if r >= NullCount(col) {
        NonNullIn(col);
        assert t[r] == NonNull(col)[r - NullCount(col)];
        assert t[r] in col;
      }
    }
  }
}
