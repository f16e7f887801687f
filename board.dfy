/**
 * The board of the match-3 game: candies, cells, positions, board snapshots,
 * the token source behind `getRandomCandy`, the adjacency test and the
 * exchange of two cells.
 */
module Board {

  datatype Option<T> = None | Some(value: T)

  /** A candy kind. */
  type Token = string

  /** One cell of the board: a candy, or `None` for a cell that a cascade has
      just cleared (the `null` of the board array). */
  type Cell = Option<Token>

  /** The truthiness test `candy && ...` of the scans: `null` and the empty
      string are falsy. */
  predicate Truthy(c: Cell) {
    c.Some? && c.value != ""
  }

  /** A cell coordinate `{ row, col }`. */
  datatype Pos = Pos(row: int, col: int)

  /** The cells `(row, s)`, ..., `(row, e - 1)`, left to right. */
  function RowSpan(row: int, s: int, e: int): (span: seq<Pos>)
    requires s <= e
    ensures |span| == e - s
    decreases e - s
  {
    if s == e then [] else RowSpan(row, s, e - 1) + [Pos(row, e - 1)]
  }

  /** A row span holds exactly the cells of its row from `s` up to `e`. */
  lemma {:induction false} RowSpanMembers(row: int, s: int, e: int)
    requires s <= e
    ensures forall p :: p in RowSpan(row, s, e) <==> p.row == row && s <= p.col < e
    decreases e - s
  {
    if s < e {
      RowSpanMembers(row, s, e - 1);
    }
  }

  /** The cells `(s, col)`, ..., `(e - 1, col)`, top to bottom. */
  function ColumnSpan(col: int, s: int, e: int): (span: seq<Pos>)
    requires s <= e
    ensures |span| == e - s
    decreases e - s
  {
    if s == e then [] else ColumnSpan(col, s, e - 1) + [Pos(e - 1, col)]
  }

  /** A column span holds exactly the cells of its column from `s` up to `e`. */
  lemma {:induction false} ColumnSpanMembers(col: int, s: int, e: int)
    requires s <= e
    ensures forall p :: p in ColumnSpan(col, s, e) <==> p.col == col && s <= p.row < e
    decreases e - s
  {
    if s < e {
      ColumnSpanMembers(col, s, e - 1);
    }
  }

  /** A snapshot of the board, row by row: `g[row][col]`. */
  type Grid = seq<seq<Cell>>

  function Width(g: Grid): nat {
    if |g| == 0 then 0 else |g[0]|
  }

  /** All rows have the same length. */
  ghost predicate Rect(g: Grid) {
    forall r :: 0 <= r < |g| ==> |g[r]| == Width(g)
  }

  predicate InGrid(g: Grid, r: int, c: int) {
    0 <= r < |g| && 0 <= c < Width(g)
  }

  /** Column `c` of `g`, top to bottom. */
  ghost function Col(g: Grid, c: int): (line: seq<Cell>)
    requires Rect(g) && 0 <= c < Width(g)
    ensures |line| == |g|
    ensures forall r :: 0 <= r < |g| ==> line[r] == g[r][c]
  {
    seq(|g|, r requires 0 <= r < |g| => g[r][c])
  }

  /** Every cell holds a candy of `types` (no cell is empty). */
  ghost predicate Full(g: Grid, types: seq<Token>) {
    forall r, c :: 0 <= r < |g| && 0 <= c < |g[r]| ==> g[r][c].Some? && g[r][c].value in types
  }

  /** Every non-empty cell holds a candy of `types`. */
  ghost predicate Drawn(g: Grid, types: seq<Token>) {
    forall r, c :: 0 <= r < |g| && 0 <= c < |g[r]| && g[r][c].Some? ==> g[r][c].value in types
  }

  /** Two snapshots with the same shape and the same cells are equal. */
  lemma SameGrid(g: Grid, h: Grid)
    requires |g| == |h|
    requires forall r :: 0 <= r < |g| ==> |g[r]| == |h[r]|
    requires forall r, c :: 0 <= r < |g| && 0 <= c < |g[r]| ==> g[r][c] == h[r][c]
    ensures g == h
  {
    forall r | 0 <= r < |g|
      ensures g[r] == h[r]
    {
      assert |g[r]| == |h[r]|;
    }
  }

  /** The random source of `getRandomCandy`: the k-th call takes the index
      `Math.floor(Math.random() * types.length)`. The rolls a run consumes are
      given as a sequence of naturals, each taken modulo the number of kinds;
      past its end the source yields 0. */
  datatype TokenSource = TokenSource(types: seq<Token>, rolls: seq<nat>)

  /** The k-th roll of the source. */
  function Roll(src: TokenSource, k: nat): nat {
    if k < |src.rolls| then src.rolls[k] else 0
  }

  /** The candy returned by the k-th call of `getRandomCandy`. */
  function Draw(src: TokenSource, k: nat): (t: Token)
    requires |src.types| > 0
    ensures t in src.types
  {
    src.types[Roll(src, k) % |src.types|]
  }

  function Abs(x: int): nat {
    if x < 0 then -x else x
  }

  /** `isAdjacent`: one coordinate differs by exactly one and the other is equal. */
  function IsAdjacent(row1: int, col1: int, row2: int, col2: int): (adjacent: bool)
    ensures adjacent <==> Abs(row1 - row2) + Abs(col1 - col2) == 1
  {
    (Abs(row1 - row2) == 1 && col1 == col2) || (Abs(col1 - col2) == 1 && row1 == row2)
  }

  /** Adjacency is symmetric and never relates a cell to itself. */
  lemma AdjacencySymmetricIrreflexive(row1: int, col1: int, row2: int, col2: int)
    ensures IsAdjacent(row1, col1, row2, col2) == IsAdjacent(row2, col2, row1, col1)
    ensures !IsAdjacent(row1, col1, row1, col1)
    ensures IsAdjacent(row1, col1, row2, col2) ==> Pos(row1, col1) != Pos(row2, col2)
  {
  }

  /** The board after the three-assignment exchange through `temp` of the cells `p` and `q`. */
  function Swapped(g: Grid, p: Pos, q: Pos): (h: Grid)
    requires Rect(g) && InGrid(g, p.row, p.col) && InGrid(g, q.row, q.col)
    ensures |h| == |g| && Rect(h) && Width(h) == Width(g)
    ensures h[p.row][p.col] == g[q.row][q.col] && h[q.row][q.col] == g[p.row][p.col]
    ensures forall r, c :: 0 <= r < |g| && 0 <= c < Width(g) && Pos(r, c) != p && Pos(r, c) != q ==> h[r][c] == g[r][c]
  {
    var temp := g[p.row][p.col];
    var g1 := g[p.row := g[p.row][p.col := g[q.row][q.col]]];
    g1[q.row := g1[q.row][q.col := temp]]
  }

  /** Swapping back restores the board exactly. */
  lemma SwapTwice(g: Grid, p: Pos, q: Pos)
    requires Rect(g) && InGrid(g, p.row, p.col) && InGrid(g, q.row, q.col)
    ensures Swapped(Swapped(g, p, q), p, q) == g
  {
    var h := Swapped(Swapped(g, p, q), p, q);
    SameGrid(h, g);
  }

  /** Exchanging two cells keeps a full board full. */
  lemma SwapKeepsFull(g: Grid, p: Pos, q: Pos, types: seq<Token>)
    requires Rect(g) && InGrid(g, p.row, p.col) && InGrid(g, q.row, q.col)
    requires Full(g, types)
    ensures Full(Swapped(g, p, q), types)
  {
    var h: Grid := Swapped(g, p, q);
    forall r, c | 0 <= r < |h| && 0 <= c < |h[r]|
      ensures h[r][c].Some? && h[r][c].value in types
    {
      if Pos(r, c) != p && Pos(r, c) != q {
        assert h[r][c] == g[r][c];
      }
    }
  }
}
