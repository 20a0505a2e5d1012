/**
 * `Sudoku`: the plain n-by-n grid problem. Cells are (row, column) pairs
 * with rows and columns 1..n, every cell takes a value in 1..n, and two
 * cells are neighbours exactly when they share a row or a column; every
 * neighbour pair carries the not-equal predicate. There is no box rule.
 */
module Sudoku {
  import opened Wrappers
  import opened Seqs
  import opened Constraints
  import opened Csp

  type Cell = (int, int)

  /** `[(i, y) for y in ys]`. */
  function RowOf(i: int, ys: seq<int>): (r: seq<Cell>)
    ensures |r| == |ys| && forall k :: 0 <= k < |ys| ==> r[k] == (i, ys[k])
    ensures forall p :: p in r <==> p.0 == i && p.1 in ys
  {
    seq(|ys|, k requires 0 <= k < |ys| => (i, ys[k]))
  }

  /** `[(x, j) for x in xs]`. */
  function ColOf(xs: seq<int>, j: int): (r: seq<Cell>)
    ensures |r| == |xs| && forall k :: 0 <= k < |xs| ==> r[k] == (xs[k], j)
    ensures forall p :: p in r <==> p.0 in xs && p.1 == j
  {
    seq(|xs|, k requires 0 <= k < |xs| => (xs[k], j))
  }

  /** Pairing a duplicate-free list with a fixed row keeps it duplicate-free. */
  lemma RowOfDistinct(i: int, ys: seq<int>)
    requires Distinct(ys)
    ensures Distinct(RowOf(i, ys))
  {
    var r := RowOf(i, ys);
    forall k, l | 0 <= k < l < |r| ensures r[k] != r[l] {
      assert r[k].1 == ys[k] && r[l].1 == ys[l];
    }
  }

  /** Pairing a duplicate-free list with a fixed column keeps it duplicate-free. */
  lemma ColOfDistinct(xs: seq<int>, j: int)
    requires Distinct(xs)
    ensures Distinct(ColOf(xs, j))
  {
    var r := ColOf(xs, j);
    forall k, l | 0 <= k < l < |r| ensures r[k] != r[l] {
      assert r[k].0 == xs[k] && r[l].0 == xs[l];
    }
  }

  /** `itertools.product(rows, cols)`: row-major pairs. */
  function Grid(rows: seq<int>, cols: seq<int>): (r: seq<Cell>)
    ensures |r| == |rows| * |cols|
    ensures forall p :: p in r <==> p.0 in rows && p.1 in cols
  {
    if rows == [] then []
    else
      var rest := Grid(rows[1..], cols);
      assert forall x :: x in rows <==> x == rows[0] || x in rows[1..] by {
        assert rows == [rows[0]] + rows[1..];
      }
      RowOf(rows[0], cols) + rest
  }

  /** The product of two duplicate-free lists lists every pair once. */
  lemma {:induction false} GridDistinct(rows: seq<int>, cols: seq<int>)
    requires Distinct(rows) && Distinct(cols)
    ensures Distinct(Grid(rows, cols))
  {
    if rows != [] {
      var tail := rows[1..];
      assert Distinct(tail) by {
        forall i, j | 0 <= i < j < |tail| ensures tail[i] != tail[j] {
          assert tail[i] == rows[i + 1] && tail[j] == rows[j + 1];
        }
      }
      GridDistinct(tail, cols);
      assert rows[0] !in tail by {
        forall k | 0 <= k < |tail| ensures tail[k] != rows[0] {
          assert tail[k] == rows[k + 1];
        }
      }
      RowOfDistinct(rows[0], cols);
      DistinctConcat(RowOf(rows[0], cols), Grid(tail, cols));
    }
  }

  /** A cell of the n-by-n grid. */
  predicate InGrid(n: int, v: Cell) {
    1 <= v.0 <= n && 1 <= v.1 <= n
  }

  /** The variables: every cell, row by row. */
  function Variables(n: int): (r: seq<Cell>)
    ensures forall v :: v in r <==> InGrid(n, v)
  {
    Grid(Range(1, n + 1), Range(1, n + 1))
  }

  /**
   * A cell's neighbour list: the other cells of its row, left to right,
   * then the other cells of its column, top to bottom.
   */
  function Neighbors(n: int, v: Cell): seq<Cell> {
    RowOf(v.0, Without(Range(1, n + 1), v.1)) + ColOf(Without(Range(1, n + 1), v.0), v.1)
  }

  /** The neighbours of a grid cell are exactly the other grid cells in its row or column. */
  lemma NeighborsExactly(n: int, v: Cell, u: Cell)
    requires InGrid(n, v)
    ensures u in Neighbors(n, v) <==> InGrid(n, u) && u != v && (u.0 == v.0 || u.1 == v.1)
  {
  }

  /** No cell neighbours itself, and the neighbour relation is symmetric. */
  lemma NeighborsIrreflexiveSymmetric(n: int, u: Cell, v: Cell)
    requires InGrid(n, u) && InGrid(n, v)
    ensures u !in Neighbors(n, u)
    ensures u in Neighbors(n, v) <==> v in Neighbors(n, u)
  {
    NeighborsExactly(n, u, u);
    NeighborsExactly(n, u, v);
    NeighborsExactly(n, v, u);
  }

  /** Every grid cell has 2(n-1) neighbours, none listed twice. */
  lemma NeighborCount(n: int, v: Cell)
    requires InGrid(n, v)
    ensures Distinct(Neighbors(n, v)) && |Neighbors(n, v)| == 2 * (n - 1)
  {
    var all := Range(1, n + 1);
    RangeDistinct(1, n + 1);
    var ys := Without(all, v.1);
    var xs := Without(all, v.0);
    var left := RowOf(v.0, ys);
    var right := ColOf(xs, v.1);
    RowOfDistinct(v.0, ys);
    ColOfDistinct(xs, v.1);
    DistinctConcat(left, right);
  }

  /** `neighbor`: every variable's neighbour list. */
  function NeighborMap(n: int): (r: map<Cell, seq<Cell>>)
    ensures r.Keys == set v | v in Variables(n)
  {
    map v | v in Variables(n) :: Neighbors(n, v)
  }

  /** `domain`: every cell starts with all of 1..n. */
  function Domains(n: int): (r: map<Cell, set<int>>)
    ensures r.Keys == set v | v in Variables(n)
  {
    map v | v in Variables(n) :: ElemSet(Range(1, n + 1))
  }

  /** Every cell's starting domain is exactly 1..n. */
  lemma DomainsExactly(n: int, v: Cell, x: int)
    requires v in Domains(n)
    ensures x in Domains(n)[v] <==> 1 <= x <= n
  {
    assert Domains(n)[v] == ElemSet(Range(1, n + 1));
  }

  /** The ordered pairs (x, y) with y a neighbour of x. */
  function Edges(n: int): set<(Cell, Cell)> {
    set x, y | x in Variables(n) && y in Neighbors(n, x) :: (x, y)
  }

  /** `constraints`: the not-equal predicate on every ordered neighbour pair. */
  function ConstraintMap(n: int): (r: map<(Cell, Cell), set<Constraint>>)
    ensures r.Keys == Edges(n)
  {
    map e | e in Edges(n) :: {NotEqual}
  }

  /**
   * The constraint map has an entry for (x, y) exactly when y is a
   * neighbour of the grid cell x, and that entry is not-equal alone.
   */
  lemma ConstraintMapExactly(n: int, x: Cell, y: Cell)
    ensures (x, y) in ConstraintMap(n) <==> InGrid(n, x) && y in Neighbors(n, x)
    ensures (x, y) in ConstraintMap(n) ==> ConstraintMap(n)[(x, y)] == {NotEqual}
  {
    if InGrid(n, x) && y in Neighbors(n, x) {
      assert x in Variables(n);
      assert (x, y) in Edges(n);
    }
  }

  /** Every cell is listed once. */
  lemma VariablesDistinct(n: int)
    ensures Distinct(Variables(n))
  {
    RangeDistinct(1, n + 1);
    GridDistinct(Range(1, n + 1), Range(1, n + 1));
  }

  /** A listed neighbour has a domain and constrains the cell that lists it. */
  lemma NeighborMapClosed(n: int, v: Cell, nb: Cell)
    requires v in NeighborMap(n) && nb in NeighborMap(n)[v]
    ensures (nb, v) in ConstraintMap(n) && nb in Domains(n)
  {
    assert v in Variables(n);
    assert NeighborMap(n)[v] == Neighbors(n, v);
    NeighborsExactly(n, v, nb);
    assert nb in Variables(n);
    NeighborsIrreflexiveSymmetric(n, v, nb);
    ConstraintMapExactly(n, nb, v);
  }

  /**
   * Forward checking prunes the neighbours of the variable just assigned and
   * never re-checks that variable's own value. When u, a cell of v's row or
   * column, is assigned val, the check for u removes from v's domain val and
   * nothing else, whatever v holds. So when the same val is preassigned to
   * u and then to v, each check only takes val out of the other cell's
   * domain, nothing is wiped out while the domains hold a second value, and
   * `preassign` accepts the two equal values.
   */
  lemma SharedLinePrunesOnlyValue(n: int, csp: CSP<Cell>, a: map<Cell, int>, u: Cell, v: Cell, values: set<int>)
    requires csp.constraints == ConstraintMap(n)
    requires InGrid(n, u) && InGrid(n, v) && u != v && (u.0 == v.0 || u.1 == v.1) && u in a
    ensures csp.NonViable(a, u, v, values, None) == values * {a[u]}
  {
    NeighborsExactly(n, v, u);
    ConstraintMapExactly(n, v, u);
    csp.NonViableNotEqual(a, u, v, values, None);
  }

  /** `Sudoku(n)`: the grid as a CSP, well formed for the engine. */
  method NewSudoku(n: int) returns (csp: CSP<Cell>)
    ensures fresh(csp)
    ensures csp.variables == Variables(n) && csp.neighbors == NeighborMap(n)
    ensures csp.domain == Domains(n) && csp.constraints == ConstraintMap(n)
    ensures csp.Valid()
  {
    var nbs := NeighborMap(n);
    var cs := ConstraintMap(n);
    var ds := Domains(n);
    VariablesDistinct(n);
    forall v, nb | v in nbs && nb in nbs[v] ensures (nb, v) in cs && nb in ds {
      NeighborMapClosed(n, v, nb);
    }
    csp := new CSP(Variables(n), nbs, ds, cs);
  }
}
