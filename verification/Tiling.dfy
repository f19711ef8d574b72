/** The arithmetic of tiling: how many columns and rows, and where each tile lies. */
module Tiling {
  import opened Words

  const SCREEN_WIDTH: nat := 1280
  const SCREEN_HEIGHT: nat := 720

  /** The loop that looks for the number of columns, from `cols` on. */
  function ColsFrom(n: nat, cols: nat): nat
    requires cols >= 1
    decreases n - cols
  {
    if cols * cols >= n then cols
    else
      SquareAtLeast(cols);
      ColsFrom(n, cols + 1)
  }

  lemma SquareAtLeast(c: nat)
    ensures c >= 1 ==> c * c >= c
  {
  }

  function Cols(n: nat): nat {
    ColsFrom(n, 1)
  }

  function Rows(n: nat): nat
    requires Cols(n) > 0
  {
    (n + Cols(n) - 1) / Cols(n)
  }

  lemma {:induction false} ColsFromLeast(n: nat, cols: nat)
    requires cols >= 1 && (cols == 1 || (cols - 1) * (cols - 1) < n)
    ensures var c := ColsFrom(n, cols); c >= cols && c * c >= n && (c == 1 || (c - 1) * (c - 1) < n)
    decreases n - cols
  {
    if cols * cols < n {
      SquareAtLeast(cols);
      ColsFromLeast(n, cols + 1);
    }
  }

  /** cols is the least positive number whose square is at least n. */
  lemma ColsIsLeast(n: nat)
    ensures Cols(n) >= 1 && Cols(n) * Cols(n) >= n
    ensures forall c: nat :: 1 <= c && c * c >= n ==> Cols(n) <= c
  {
    ColsFromLeast(n, 1);
    var k := Cols(n);
    forall c: nat | 1 <= c && c * c >= n ensures k <= c {
      if c < k {
        SquareMonotone(c, k - 1);
      }
    }
  }

  lemma SquareMonotone(a: nat, b: nat)
    requires a <= b
    ensures a * a <= b * b
  {
    assert a * a <= a * b;
    assert a * b <= b * b;
  }

  lemma MulMonotone(a: nat, b: nat, c: nat)
    requires a <= b
    ensures a * c <= b * c
  {
  }

  lemma RoundedUp(n: nat, c: nat, r: int, rest: nat)
    requires n >= 1 && r * c == n + c - 1 - rest && rest < c && c * c >= n
    ensures r >= 1 && r * c >= n && (r - 1) * c < n && r <= c
  {
    Distribute(r, -1, c);
    if r < 1 {
      Distribute(-r, r, c);
      MulMonotone(0, -r, c);
    } else if r > c {
      MulMonotone(c, r - 1, c);
    }
  }

  /** The rows suffice, one fewer would not, and there are no more of them than columns. */
  lemma RowsFit(n: nat)
    requires n >= 1
    ensures Cols(n) >= 1 && Rows(n) >= 1
    ensures Rows(n) * Cols(n) >= n && (Rows(n) - 1) * Cols(n) < n && Rows(n) <= Cols(n)
  {
    ColsIsLeast(n);
    var c := Cols(n);
    DivModIs(n + c - 1, c);
    RoundedUp(n, c, Rows(n), (n + c - 1) % c);
  }

  datatype Rect = Rect(x: int, y: int, width: int, height: int)

  /** The tile of width w and height h in this column and row. */
  function At(col: nat, row: nat, w: nat, h: nat): Rect {
    Rect(col * w, row * h, w, h)
  }

  /** The i-th tile of a grid, dealt row by row. */
  function GridTile(cols: nat, rows: nat, i: nat): Rect
    requires cols > 0 && rows > 0
  {
    At(i % cols, i / cols, SCREEN_WIDTH / cols, SCREEN_HEIGHT / rows)
  }

  /** The tile of the i-th window of the list. */
  function Tile(n: nat, i: nat): Rect
    requires Cols(n) > 0 && Rows(n) > 0
  {
    GridTile(Cols(n), Rows(n), i)
  }

  predicate OnScreen(t: Rect) {
    0 <= t.x && 0 <= t.width && t.x + t.width <= 1280 &&
    0 <= t.y && 0 <= t.height && t.y + t.height <= 720
  }

  /** Two rectangles without a common point of the interior. */
  predicate Apart(s: Rect, t: Rect) {
    s.x + s.width <= t.x || t.x + t.width <= s.x || s.y + s.height <= t.y || t.y + t.height <= s.y
  }

  /** k strips of size total / parts fit side by side. */
  lemma StripFits(total: nat, parts: nat, k: nat)
    requires k < parts
    ensures 0 <= k * (total / parts) && k * (total / parts) + total / parts <= total
  {
    var s := total / parts;
    MulMonotone(0, k, s);
    DivModIs(total, parts);
    MulMonotone(k + 1, parts, s);
    Distribute(k, 1, s);
    assert parts * s == s * parts;
  }

  lemma StripsApart(j: nat, k: nat, s: nat)
    requires j < k
    ensures j * s + s <= k * s
  {
    MulMonotone(j + 1, k, s);
    Distribute(j, 1, s);
  }

  lemma RowInRange(n: nat, i: nat)
    requires i < n && Cols(n) >= 1 && Rows(n) * Cols(n) >= n
    ensures i / Cols(n) < Rows(n)
  {
    var c, r := Cols(n), Rows(n);
    DivModIs(i, c);
    if i / c >= r {
      MulMonotone(r, i / c, c);
    }
  }

  lemma TileFits(cols: nat, rows: nat, col: nat, row: nat)
    requires col < cols && row < rows
    ensures OnScreen(At(col, row, SCREEN_WIDTH / cols, SCREEN_HEIGHT / rows))
  {
    StripFits(SCREEN_WIDTH, cols, col);
    StripFits(SCREEN_HEIGHT, rows, row);
  }

  /** Every window gets a tile on the screen. */
  lemma TilesOnScreen(n: nat, i: nat)
    requires i < n
    ensures Cols(n) > 0 && Rows(n) > 0 && OnScreen(Tile(n, i))
  {
    RowsFit(n);
    RowInRange(n, i);
    TileFits(Cols(n), Rows(n), i % Cols(n), i / Cols(n));
  }

  /** On a desktop with as many windows as it can hold, tiles are still at least 213 by 120. */
  lemma TilesNotEmpty(n: nat, i: nat)
    requires i < n <= 36
    ensures Cols(n) > 0 && Rows(n) > 0 && Tile(n, i).width >= 213 && Tile(n, i).height >= 120
  {
    RowsFit(n);
    ColsIsLeast(n);
    var six: nat := 6;
    assert six * six >= n;
    assert Cols(n) <= six;
    Shares(Cols(n));
    Shares(Rows(n));
  }

  lemma Shares(k: nat)
    requires 1 <= k <= 6
    ensures SCREEN_WIDTH / k >= 213 && SCREEN_HEIGHT / k >= 120
  {
  }

  lemma LaterQuotient(q: nat, r: nat, q2: nat, r2: nat, c: nat)
    requires r < c && q * c + r < q2 * c + r2 && r2 < c
    ensures q < q2 || (q == q2 && r < r2)
  {
    if q > q2 {
      StripsApart(q2, q, c);
    }
  }

  /** Dealing row by row: a later position is in a later row, or further along in the same one. */
  lemma DealtInOrder(c: nat, i: nat, j: nat)
    requires c >= 1 && i < j
    ensures i / c < j / c || (i / c == j / c && i % c < j % c)
  {
    DivModIs(i, c);
    DivModIs(j, c);
    LaterQuotient(i / c, i % c, j / c, j % c, c);
  }

  lemma GridApart(c: nat, r: nat, i: nat, j: nat)
    requires c >= 1 && r >= 1 && i < j
    ensures Apart(GridTile(c, r, i), GridTile(c, r, j))
  {
    DealtInOrder(c, i, j);
    TilesApartAt(i % c, i / c, j % c, j / c, SCREEN_WIDTH / c, SCREEN_HEIGHT / r);
  }

  /** Tiles of different windows do not overlap. */
  lemma TilesApart(n: nat, i: nat, j: nat)
    requires i < j < n
    ensures Cols(n) > 0 && Rows(n) > 0 && Apart(Tile(n, i), Tile(n, j))
  {
    RowsFit(n);
    GridApart(Cols(n), Rows(n), i, j);
  }

  lemma TilesApartAt(col: nat, row: nat, col2: nat, row2: nat, w: nat, h: nat)
    requires row < row2 || (row == row2 && col < col2)
    ensures Apart(At(col, row, w, h), At(col2, row2, w, h))
  {
    if row < row2 {
      StripsApart(row, row2, h);
    } else {
      StripsApart(col, col2, w);
    }
  }
}
