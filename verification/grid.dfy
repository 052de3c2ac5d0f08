/** The integer arithmetic of a labelled collage: tile `i` of an `n`-tile
    grid with `columns` columns sits in row `i / columns` and column
    `i % columns`, at pixel offset `(col * tileSize, row * tileSize)`, is
    labelled with the decimal text of `i + 1`, and the canvas is `columns`
    tiles wide and ceil(n / columns) tiles high. */
module Grid {
  import opened Decimal

  datatype Tile = Tile(x: int, y: int, text: string)

  datatype Layout = Layout(columns: nat, rows: nat, tileSize: nat, width: nat, height: nat, tiles: seq<Tile>)

  /** `math.ceil(n / columns)`: the fewest rows of `columns` that hold `n` tiles. */
  function Rows(n: nat, columns: nat): (rows: nat)
    requires columns > 0
    ensures rows * columns >= n
    ensures rows > 0 ==> (rows - 1) * columns < n
    ensures rows == 0 <==> n == 0
  {
    var a := n + columns - 1;
    var q, r := a / columns, a % columns;
    assert a == q * columns + r && 0 <= r < columns;
    assert (q - 1) * columns == q * columns - columns;
    q
  }

  /** Tile `i` sits in cell `(i / columns, i % columns)` and is labelled with
      the decimal text of `i + 1`; `TileInsideCanvas`, `TilesDisjoint` and
      `LabelsOneToN` state what that placement and labelling guarantee. */
  function TileAt(i: nat, tileSize: nat, columns: nat): Tile
    requires columns > 0
  {
    Tile((i % columns) * tileSize, (i / columns) * tileSize, ShowNat(i + 1))
  }

  function GridLayout(n: nat, tileSize: nat, columns: nat): (g: Layout)
    requires columns > 0
    ensures |g.tiles| == n
    ensures g.width == columns * tileSize && g.height == g.rows * tileSize
  {
    var rows := Rows(n, columns);
    Layout(columns, rows, tileSize, columns * tileSize, rows * tileSize,
           seq(n, i requires 0 <= i => TileAt(i, tileSize, columns)))
  }

  /** The canvas has exactly ceil(n / columns) rows: the fewest that hold
      every tile, so it is `Rows(n, columns) * tileSize` pixels high. */
  lemma LayoutRows(n: nat, tileSize: nat, columns: nat)
    requires columns > 0
    ensures GridLayout(n, tileSize, columns).rows == Rows(n, columns)
    ensures GridLayout(n, tileSize, columns).height == Rows(n, columns) * tileSize
  {
  }

  lemma MulMono(a: int, b: int, t: nat)
    requires a <= b
    ensures a * t <= b * t
  {
    assert b * t - a * t == (b - a) * t;
  }

  /** The row of tile `i` is one of the canvas's rows, and its column one of the columns. */
  lemma {:induction false} RowColumnInRange(n: nat, columns: nat, i: nat)
    requires columns > 0 && i < n
    ensures i / columns < Rows(n, columns)
    ensures i % columns < columns
  {
    var row, rows := i / columns, Rows(n, columns);
    assert row * columns <= i;
    if row >= rows {
      MulMono(rows, row, columns);
      assert false;
    }
  }

  /** Every tile lies wholly inside the canvas. */
  lemma {:induction false} TileInsideCanvas(n: nat, tileSize: nat, columns: nat, i: nat)
    requires columns > 0 && i < n
    ensures Inside(GridLayout(n, tileSize, columns).tiles[i], GridLayout(n, tileSize, columns))
  {
    var g := GridLayout(n, tileSize, columns);
    var row, col := TileCell(n, tileSize, columns, i);
    CellInside(row, col, g.rows, columns, tileSize, g.tiles[i], g);
  }

  /** Tile `i` occupies a cell of the canvas's grid. */
  lemma TileCell(n: nat, tileSize: nat, columns: nat, i: nat) returns (row: nat, col: nat)
    requires columns > 0 && i < n
    ensures row < GridLayout(n, tileSize, columns).rows && col < columns
    ensures GridLayout(n, tileSize, columns).tiles[i].x == col * tileSize
    ensures GridLayout(n, tileSize, columns).tiles[i].y == row * tileSize
  {
    row, col := i / columns, i % columns;
    RowColumnInRange(n, columns, i);
  }

  /** A tile's square lies within the canvas. */
  predicate Inside(a: Tile, g: Layout)
  {
    && 0 <= a.x && a.x + g.tileSize <= g.width
    && 0 <= a.y && a.y + g.tileSize <= g.height
  }

  lemma CellInside(row: nat, col: nat, rows: nat, columns: nat, t: nat, a: Tile, g: Layout)
    requires row < rows && col < columns
    requires a.x == col * t && a.y == row * t
    requires g.tileSize == t && g.width == columns * t && g.height == rows * t
    ensures Inside(a, g)
  {
    MulMono(0, col, t);
    MulMono(col + 1, columns, t);
    MulMono(0, row, t);
    MulMono(row + 1, rows, t);
  }

  /** Two squares of side `t` at the tiles' offsets do not overlap: one lies
      wholly left of, right of, above or below the other. */
  predicate Apart(a: Tile, b: Tile, t: nat)
  {
    || a.x + t <= b.x || b.x + t <= a.x
    || a.y + t <= b.y || b.y + t <= a.y
  }

  /** Different tiles do not overlap. */
  lemma {:induction false} TilesDisjoint(n: nat, tileSize: nat, columns: nat, i: nat, j: nat)
    requires columns > 0 && i < n && j < n && i != j
    ensures Apart(GridLayout(n, tileSize, columns).tiles[i], GridLayout(n, tileSize, columns).tiles[j], tileSize)
  {
    var g := GridLayout(n, tileSize, columns);
    var a, b := TileAt(i, tileSize, columns), TileAt(j, tileSize, columns);
    assert g.tiles[i] == a && g.tiles[j] == b;
    var ri, ci, rj, cj := CellsOf(i, j, columns);
    CellsApart(ri, ci, rj, cj, tileSize, a, b);
  }

  /** Distinct indices occupy distinct (row, column) cells. */
  lemma CellsOf(i: nat, j: nat, c: nat) returns (ri: nat, ci: nat, rj: nat, cj: nat)
    requires c > 0 && i != j
    ensures ri == i / c && ci == i % c && rj == j / c && cj == j % c
    ensures ri != rj || ci != cj
  {
    ri, ci, rj, cj := i / c, i % c, j / c, j % c;
  }

  lemma CellsApart(ri: nat, ci: nat, rj: nat, cj: nat, t: nat, a: Tile, b: Tile)
    requires ri != rj || ci != cj
    requires a.x == ci * t && b.x == cj * t && a.y == ri * t && b.y == rj * t
    ensures Apart(a, b, t)
  {
    if ri < rj {
      MulMono(ri + 1, rj, t);
    } else if rj < ri {
      MulMono(rj + 1, ri, t);
    } else if ci < cj {
      MulMono(ci + 1, cj, t);
    } else {
      MulMono(cj + 1, ci, t);
    }
  }

  /** Tile `i` is labelled `i + 1`: reading its label back gives `i + 1`, so the
      labels are exactly 1..n, each used once. */
  lemma LabelsOneToN(n: nat, tileSize: nat, columns: nat, i: nat)
    requires columns > 0 && i < n
    ensures IsDigits(GridLayout(n, tileSize, columns).tiles[i].text)
    ensures ParseNat(GridLayout(n, tileSize, columns).tiles[i].text) == i + 1
  {
    ParseShow(i + 1);
  }

  lemma LabelsDistinct(n: nat, tileSize: nat, columns: nat, i: nat, j: nat)
    requires columns > 0 && i < n && j < n && i != j
    ensures GridLayout(n, tileSize, columns).tiles[i].text != GridLayout(n, tileSize, columns).tiles[j].text
  {
    ShowInjective(i + 1, j + 1);
  }
}
