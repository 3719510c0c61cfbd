/** Rows of cells: what terminals do to them. */
module Grid {

  predicate Rectangular<T>(cells: seq<seq<T>>, columns: nat, rows: nat) {
    |cells| == rows && forall y | 0 <= y < rows :: |cells[y]| == columns
  }

  function Row<T>(blank: T, n: nat): (r: seq<T>)
    ensures |r| == n && forall i | 0 <= i < n :: r[i] == blank
  {
    seq(n, i => blank)
  }

  function Rows<T>(blank: T, columns: nat, n: nat): (r: seq<seq<T>>)
    ensures |r| == n && forall y | 0 <= y < n :: r[y] == Row(blank, columns)
  {
    seq(n, i => Row(blank, columns))
  }

  function Put<T>(cells: seq<seq<T>>, x: nat, y: nat, b: T): (r: seq<seq<T>>)
    requires y < |cells| && x < |cells[y]|
    ensures |r| == |cells| && forall v | 0 <= v < |r| :: |r[v]| == |cells[v]|
    ensures forall u, v | 0 <= v < |r| && 0 <= u < |r[v]| :: r[v][u] == if u == x && v == y then b else cells[v][u]
  {
    cells[y := cells[y][..x] + [b] + cells[y][x + 1..]]
  }

  /** Blank `n` cells of a row, beginning at `x`. */
  function Erased<T>(row: seq<T>, x: nat, n: nat, blank: T): (r: seq<T>)
    requires x + n <= |row|
    ensures |r| == |row|
    ensures forall i | 0 <= i < |r| :: r[i] == if x <= i < x + n then blank else row[i]
  {
    row[..x] + Row(blank, n) + row[x + n..]
  }

  function WithErased<T>(cells: seq<seq<T>>, y: nat, x: nat, n: nat, blank: T): (r: seq<seq<T>>)
    requires y < |cells| && x + n <= |cells[y]|
  {
    cells[y := Erased(cells[y], x, n, blank)]
  }

  /** Without row `top`, and with a blank row in front of row `bottom`. */
  function Scrolled<T>(cells: seq<seq<T>>, top: nat, bottom: nat, columns: nat, blank: T): (r: seq<seq<T>>)
    requires top < bottom <= |cells|
    ensures |r| == |cells|
    ensures forall y | 0 <= y < |r| ::
              r[y] == if y < top || y >= bottom then cells[y]
                else if y == bottom - 1 then Row(blank, columns) else cells[y + 1]
  {
    cells[..top] + cells[top + 1..bottom] + [Row(blank, columns)] + cells[bottom..]
  }

  /** The cells from (x, y) to the beginning of row `to` are blank. */
  function Cleared<T>(cells: seq<seq<T>>, x: nat, y: nat, to: nat, columns: nat, blank: T): (r: seq<seq<T>>)
    requires y < to <= |cells| && x <= columns == |cells[y]|
    ensures |r| == |cells|
  {
    cells[..y] + [Erased(cells[y], x, columns - x, blank)] + Rows(blank, columns, to - y - 1) + cells[to..]
  }

  lemma NothingErased<T>(cells: seq<seq<T>>, y: nat, x: nat, blank: T)
    requires y < |cells| && x <= |cells[y]|
    ensures WithErased(cells, y, x, 0, blank) == cells
  {
    assert Erased(cells[y], x, 0, blank) == cells[y];
  }

  lemma OneMoreErased<T>(cells: seq<seq<T>>, y: nat, x: nat, n: nat, blank: T)
    requires y < |cells| && x + n < |cells[y]|
    ensures Put(WithErased(cells, y, x, n, blank), x + n, y, blank) == WithErased(cells, y, x, n + 1, blank)
  {
    var row := Erased(cells[y], x, n, blank);
    assert row[..x + n] + [blank] + row[x + n + 1..] == Erased(cells[y], x, n + 1, blank);
  }

  lemma RowsOfCleared<T>(cells: seq<seq<T>>, x: nat, y: nat, to: nat, columns: nat, blank: T)
    requires y < to <= |cells| && x <= columns == |cells[y]|
    ensures forall v | 0 <= v < |cells| ::
              Cleared(cells, x, y, to, columns, blank)[v] ==
                if v < y || v >= to then cells[v]
                else if v == y then Erased(cells[y], x, columns - x, blank) else Row(blank, columns)
  {
  }

  lemma FirstCleared<T>(cells: seq<seq<T>>, x: nat, y: nat, columns: nat, blank: T)
    requires y < |cells| && x <= columns == |cells[y]|
    ensures Cleared(cells, x, y, y + 1, columns, blank) == WithErased(cells, y, x, columns - x, blank)
  {
  }

  lemma OneMoreCleared<T>(cells: seq<seq<T>>, x: nat, y: nat, to: nat, columns: nat, blank: T)
    requires y < to < |cells| && Rectangular(cells, columns, |cells|) && x <= columns
    ensures Rectangular(Cleared(cells, x, y, to, columns, blank), columns, |cells|)
    ensures WithErased(Cleared(cells, x, y, to, columns, blank), to, 0, columns, blank)
            == Cleared(cells, x, y, to + 1, columns, blank)
  {
    var m := Cleared(cells, x, y, to, columns, blank);
    RowsOfCleared(cells, x, y, to, columns, blank);
    RowsOfCleared(cells, x, y, to + 1, columns, blank);
    assert Erased(m[to], 0, columns, blank) == Row(blank, columns);
  }

  lemma AllCleared<T>(cells: seq<seq<T>>, columns: nat, rows: nat, blank: T)
    requires Rectangular(cells, columns, rows) && rows > 0
    ensures Cleared(cells, 0, 0, rows, columns, blank) == Rows(blank, columns, rows)
  {
    RowsOfCleared(cells, 0, 0, rows, columns, blank);
    assert Erased(cells[0], 0, columns, blank) == Row(blank, columns);
  }
}
