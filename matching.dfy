/**
 * Run detection, the specification behind `findMatches` and `hasMatches`.
 * Both scans look at one line at a time: a row `g[r]`, read left to right,
 * or a column `Col(g, c)`, read top to bottom.
 */
module Matching {
  import opened Board

  /** The first index of the block of equal cells through `i`. */
  ghost function LeftEnd(line: seq<Cell>, i: int): (l: int)
    requires 0 <= i < |line|
    ensures 0 <= l <= i
    ensures forall k :: l <= k <= i ==> line[k] == line[i]
    decreases i
  {
    if i > 0 && line[i - 1] == line[i] then LeftEnd(line, i - 1) else i
  }

  /** The last index of the block of equal cells through `i`. */
  ghost function RightEnd(line: seq<Cell>, i: int): (e: int)
    requires 0 <= i < |line|
    ensures i <= e < |line|
    ensures forall k :: i <= k <= e ==> line[k] == line[i]
    decreases |line| - i
  {
    if i + 1 < |line| && line[i + 1] == line[i] then RightEnd(line, i + 1) else i
  }

  /** Cell `i` holds a truthy candy and its block of equal candies is at least three long. */
  ghost predicate InRun(line: seq<Cell>, i: int)
    requires 0 <= i < |line|
  {
    Truthy(line[i]) && RightEnd(line, i) - LeftEnd(line, i) >= 2
  }

  /** Cells `s..e` form a run: at least three equal truthy candies. */
  ghost predicate IsRun(line: seq<Cell>, s: int, e: int) {
    && 0 <= s && e < |line| && e - s >= 2
    && Truthy(line[s])
    && forall k :: s <= k <= e ==> line[k] == line[s]
  }

  /** The three-cell test both scans apply at `s`:
      `candy && candy === line[s + 1] && candy === line[s + 2]`. */
  ghost predicate ThreeFrom(line: seq<Cell>, s: int)
    requires 0 <= s && s + 2 < |line|
  {
    Truthy(line[s]) && line[s] == line[s + 1] && line[s] == line[s + 2]
  }

  /** A cell is in a run exactly when some run of three or more contains it. */
  lemma InRunIffInSomeRun(line: seq<Cell>, i: int)
    requires 0 <= i < |line|
    ensures InRun(line, i) <==> exists s, e :: s <= i <= e && IsRun(line, s, e)
  {
    if InRun(line, i) {
      var s, e := LeftEnd(line, i), RightEnd(line, i);
      assert IsRun(line, s, e);
    }
    if exists s, e :: s <= i <= e && IsRun(line, s, e) {
      var s, e :| s <= i <= e && IsRun(line, s, e);
      BlockWithin(line, s, e, i);
    }
  }

  /** A block of equal cells lies inside the maximal block of each of its cells. */
  lemma BlockWithin(line: seq<Cell>, s: int, e: int, i: int)
    requires 0 <= s <= i <= e < |line|
    requires forall k :: s <= k <= e ==> line[k] == line[i]
    ensures LeftEnd(line, i) <= s && e <= RightEnd(line, i)
  {
    LeftWithin(line, s, e, i);
    RightWithin(line, s, e, i);
  }

  lemma {:induction false} LeftWithin(line: seq<Cell>, s: int, e: int, i: int)
    requires 0 <= s <= i <= e < |line|
    requires forall k :: s <= k <= e ==> line[k] == line[i]
    ensures LeftEnd(line, i) <= s
    decreases i - s
  {
    if i > s {
      assert line[i - 1] == line[i];
      LeftWithin(line, s, e, i - 1);
    }
  }

  lemma {:induction false} RightWithin(line: seq<Cell>, s: int, e: int, i: int)
    requires 0 <= s <= i <= e < |line|
    requires forall k :: s <= k <= e ==> line[k] == line[i]
    ensures e <= RightEnd(line, i)
    decreases e - i
  {
    if i < e {
      assert line[i + 1] == line[i];
      RightWithin(line, s, e, i + 1);
    }
  }

  /** A run of three found by the scans marks each of its three cells. */
  lemma ThreeFromInRun(line: seq<Cell>, s: int)
    requires 0 <= s && s + 2 < |line|
    requires ThreeFrom(line, s)
    ensures InRun(line, s) && InRun(line, s + 1) && InRun(line, s + 2)
  {
    BlockWithin(line, s, s + 2, s);
    BlockWithin(line, s, s + 2, s + 1);
    BlockWithin(line, s, s + 2, s + 2);
  }

  /** Every cell of a run is reached from the run's first cell, where the
      three-cell test succeeds and which lies before `|line| - 2`. */
  lemma RunStart(line: seq<Cell>, i: int)
    requires 0 <= i < |line|
    requires InRun(line, i)
    ensures LeftEnd(line, i) + 2 <= RightEnd(line, i)
    ensures LeftEnd(line, i) + 2 < |line| && ThreeFrom(line, LeftEnd(line, i))
  {
    var l := LeftEnd(line, i);
    assert line[l] == line[i];
    assert line[l + 1] == line[i] && line[l + 2] == line[i];
  }

  /** The cells after a successful three-cell test at `s` that the scan's
      inner loop adds, while they equal the candy at `s`, are all in a run. */
  lemma ExtendInRun(line: seq<Cell>, s: int, k: int)
    requires 0 <= s && s + 2 < |line| && ThreeFrom(line, s)
    requires s <= k < |line|
    requires forall j :: s <= j <= k ==> line[j] == line[s]
    ensures InRun(line, k)
  {
    if k <= s + 2 {
      ThreeFromInRun(line, s);
    } else {
      BlockWithin(line, s, k, k);
    }
  }

  /** A run whose first cell is `s` ends before the first cell after `s`
      that differs from it: the scan's inner loop reaches every cell of it. */
  lemma RunCovered(line: seq<Cell>, s: int, e: int, c: int)
    requires 0 <= c < |line| && LeftEnd(line, c) == s
    requires s < e <= |line|
    requires forall j :: s <= j < e ==> line[j] == line[s]
    requires e == |line| || line[e] != line[s]
    ensures c < e
  {
  }

  /** The cells of a line that lie in a run. */
  ghost function RunCells(line: seq<Cell>): set<int> {
    set i | 0 <= i < |line| && InRun(line, i)
  }

  /** The cells of a line whose run starts before `k`: what a scan has
      listed once it has tried the starts `0..k-1`. */
  ghost function RunCellsBefore(line: seq<Cell>, k: int): set<int> {
    set i | 0 <= i < |line| && InRun(line, i) && LeftEnd(line, i) < k
  }

  /** A start where the three-cell test fails begins no run. */
  lemma ScanMiss(line: seq<Cell>, k: int)
    requires 0 <= k && k + 2 < |line| && !ThreeFrom(line, k)
    ensures RunCellsBefore(line, k + 1) == RunCellsBefore(line, k)
  {
    forall i | i in RunCellsBefore(line, k + 1)
      ensures LeftEnd(line, i) != k
    {
      RunStart(line, i);
    }
  }

  /** A start where the three-cell test succeeds: the cells the inner loop
      lists, up to `e`, the first cell that differs, are all in a run, and
      they hold every cell whose run starts at `k`. */
  lemma ScanHit(line: seq<Cell>, k: int, e: int)
    requires 0 <= k && k + 2 < |line| && ThreeFrom(line, k)
    requires k + 3 <= e <= |line|
    requires forall j :: k <= j < e ==> line[j] == line[k]
    requires e == |line| || line[e] != line[k]
    ensures forall i :: k <= i < e ==> i in RunCells(line)
    ensures forall i :: i in RunCellsBefore(line, k + 1) ==> i in RunCellsBefore(line, k) || k <= i < e
  {
    forall i | k <= i < e
      ensures i in RunCells(line)
    {
      ExtendInRun(line, k, i);
    }
    forall i | i in RunCellsBefore(line, k + 1) && LeftEnd(line, i) == k
      ensures i < e
    {
      RunCovered(line, k, e, i);
    }
  }

  /** Once every start up to `|line| - 3` is tried, every cell of a run is listed. */
  lemma ScanDone(line: seq<Cell>, k: int)
    requires 0 <= k && |line| <= k + 2
    ensures RunCellsBefore(line, k) == RunCells(line)
  {
    forall i | i in RunCells(line)
      ensures LeftEnd(line, i) < k
    {
      RunStart(line, i);
    }
  }

  /** Cell `(r, c)` lies in a horizontal or a vertical run. */
  ghost predicate Matched(g: Grid, r: int, c: int)
    requires Rect(g) && InGrid(g, r, c)
  {
    InRun(g[r], c) || InRun(Col(g, c), r)
  }

  /** Some cell starts three equal candies to its right or below it: the
      test `hasMatches` applies at every start of every row and column. */
  ghost predicate HasMatch(g: Grid)
    requires Rect(g)
  {
    exists r, c :: 0 <= r < |g| && 0 <= c < Width(g) && ThreeAt(g, r, c)
  }

  /** The candy at `(r, c)` and the next two to its right, or the next two
      below it, are equal. */
  ghost predicate ThreeAt(g: Grid, r: int, c: int)
    requires Rect(g) && InGrid(g, r, c)
  {
    && Truthy(g[r][c])
    && (|| (c + 2 < Width(g) && g[r][c] == g[r][c + 1] && g[r][c] == g[r][c + 2])
        || (r + 2 < |g| && g[r][c] == g[r + 1][c] && g[r][c] == g[r + 2][c]))
  }

  /** The cells in a run, each once. */
  ghost function MatchSet(g: Grid): set<Pos>
    requires Rect(g)
  {
    set r, c | 0 <= r < |g| && 0 <= c < Width(g) && Matched(g, r, c) :: Pos(r, c)
  }

  /** The set holds exactly the cells that lie in a run. */
  lemma MatchSetMembers(g: Grid)
    requires Rect(g)
    ensures forall p :: p in MatchSet(g) <==> 0 <= p.row < |g| && 0 <= p.col < Width(g) && Matched(g, p.row, p.col)
  {
  }

  /** The board has three equal candies in a line exactly when some cell
      lies in a run. */
  lemma HasMatchIffMatched(g: Grid)
    requires Rect(g)
    ensures HasMatch(g) <==> exists r, c :: 0 <= r < |g| && 0 <= c < Width(g) && Matched(g, r, c)
  {
    if HasMatch(g) {
      var r, c :| 0 <= r < |g| && 0 <= c < Width(g) && ThreeAt(g, r, c);
      if c + 2 < Width(g) && g[r][c] == g[r][c + 1] && g[r][c] == g[r][c + 2] {
        assert ThreeFrom(g[r], c);
        ThreeFromInRun(g[r], c);
      } else {
        var line := Col(g, c);
        assert ThreeFrom(line, r);
        ThreeFromInRun(line, r);
      }
      assert Matched(g, r, c);
    }
    if exists r, c :: 0 <= r < |g| && 0 <= c < Width(g) && Matched(g, r, c) {
      var r, c :| 0 <= r < |g| && 0 <= c < Width(g) && Matched(g, r, c);
      if InRun(g[r], c) {
        RunStart(g[r], c);
        var l := LeftEnd(g[r], c);
        assert ThreeAt(g, r, l);
      } else {
        var line := Col(g, c);
        RunStart(line, r);
        var l := LeftEnd(line, r);
        assert ThreeAt(g, l, c);
      }
    }
  }

  /** `findMatches` returns something exactly when `hasMatches` holds. */
  lemma HasMatchIffSomeCell(g: Grid)
    requires Rect(g)
    ensures HasMatch(g) <==> MatchSet(g) != {}
  {
    MatchSetMembers(g);
    HasMatchIffMatched(g);
    if HasMatch(g) {
      var r, c :| 0 <= r < |g| && 0 <= c < Width(g) && Matched(g, r, c);
      assert Pos(r, c) in MatchSet(g);
    }
  }

  /** The test `hasMatches` applies: the three-cell test succeeds somewhere
      in a row or somewhere in a column. */
  ghost predicate SomeThree(g: Grid)
    requires Rect(g)
  {
    || (exists r, s :: 0 <= r < |g| && 0 <= s && s + 2 < Width(g) && ThreeFrom(g[r], s))
    || (exists c, s :: 0 <= c < Width(g) && 0 <= s && s + 2 < |g| && ThreeFrom(Col(g, c), s))
  }

  /** Testing every start of every row, left to right, and of every column,
      top to bottom, for three equal candies is the test `HasMatch`. */
  lemma HasMatchIffSomeThree(g: Grid)
    requires Rect(g)
    ensures HasMatch(g) <==> SomeThree(g)
  {
    if HasMatch(g) {
      var r, c :| 0 <= r < |g| && 0 <= c < Width(g) && ThreeAt(g, r, c);
      if c + 2 < Width(g) && g[r][c] == g[r][c + 1] && g[r][c] == g[r][c + 2] {
        assert ThreeFrom(g[r], c);
      } else {
        assert ThreeFrom(Col(g, c), r);
      }
    }
    if exists r, s :: 0 <= r < |g| && 0 <= s && s + 2 < Width(g) && ThreeFrom(g[r], s) {
      var r, s :| 0 <= r < |g| && 0 <= s && s + 2 < Width(g) && ThreeFrom(g[r], s);
      assert ThreeAt(g, r, s);
    } else if exists c, s :: 0 <= c < Width(g) && 0 <= s && s + 2 < |g| && ThreeFrom(Col(g, c), s) {
      var c, s :| 0 <= c < Width(g) && 0 <= s && s + 2 < |g| && ThreeFrom(Col(g, c), s);
      assert ThreeAt(g, s, c);
    }
  }

  /** A board with a match has at least three matched cells. */
  lemma MatchSetAtLeastThree(g: Grid)
    requires Rect(g)
    requires HasMatch(g)
    ensures |MatchSet(g)| >= 3
  {
    HasMatchIffMatched(g);
    var r, c :| 0 <= r < |g| && 0 <= c < Width(g) && Matched(g, r, c);
    if InRun(g[r], c) {
      RowRunThree(g, r, c);
    } else {
      ColRunThree(g, r, c);
    }
  }

  lemma RowRunThree(g: Grid, r: int, c: int)
    requires Rect(g) && InGrid(g, r, c)
    requires InRun(g[r], c)
    ensures |MatchSet(g)| >= 3
  {
    RunStart(g[r], c);
    var l := LeftEnd(g[r], c);
    ThreeFromInRun(g[r], l);
    MatchSetHas(g, r, l);
    MatchSetHas(g, r, l + 1);
    MatchSetHas(g, r, l + 2);
    ThreeDistinct(Pos(r, l), Pos(r, l + 1), Pos(r, l + 2), MatchSet(g));
  }

  lemma ColRunThree(g: Grid, r: int, c: int)
    requires Rect(g) && InGrid(g, r, c)
    requires InRun(Col(g, c), r)
    ensures |MatchSet(g)| >= 3
  {
    var line := Col(g, c);
    RunStart(line, r);
    var l := LeftEnd(line, r);
    ThreeFromInRun(line, l);
    MatchSetHas(g, l, c);
    MatchSetHas(g, l + 1, c);
    MatchSetHas(g, l + 2, c);
    ThreeDistinct(Pos(l, c), Pos(l + 1, c), Pos(l + 2, c), MatchSet(g));
  }

  lemma MatchSetHas(g: Grid, r: int, c: int)
    requires Rect(g) && InGrid(g, r, c)
    requires InRun(g[r], c) || InRun(Col(g, c), r)
    ensures Pos(r, c) in MatchSet(g)
  {
    MatchSetMembers(g);
  }

  lemma ThreeDistinct(a: Pos, b: Pos, c: Pos, m: set<Pos>)
    requires a != b && b != c && a != c
    requires a in m && b in m && c in m
    ensures |m| >= 3
  {
    var three := {a, b, c};
    assert |three| == 3;
    assert m == three + (m - three);
  }

  /** Each cell occurs at most once. */
  predicate NoDup(s: seq<Pos>) {
    forall i, j :: 0 <= i < j < |s| ==> s[i] != s[j]
  }

  /** `matches.filter((match, index, self) => index === self.findIndex(...))`:
      keeps the first occurrence of each cell, in order. */
  function Dedup(s: seq<Pos>): (r: seq<Pos>)
    ensures NoDup(r)
    ensures forall p :: p in r <==> p in s
    ensures |r| <= |s|
  {
    if s == [] then []
    else
      var last := s[|s| - 1];
      var rest := Dedup(s[..|s| - 1]);
      if last in s[..|s| - 1] then rest else rest + [last]
  }

  /** A list without repetitions has as many entries as the set of its cells. */
  lemma {:induction false} DistinctCount(s: seq<Pos>, m: set<Pos>)
    requires NoDup(s)
    requires forall p :: p in s <==> p in m
    ensures |s| == |m|
  {
    if s != [] {
      var last := s[|s| - 1];
      var init := s[..|s| - 1];
      assert last !in init;
      assert forall p :: p in init <==> p in m - {last};
      DistinctCount(init, m - {last});
    }
  }
}
