/**
 * `ColoredSudoku`: an n-by-n grid in which every position has two
 * variables, a number facet with values 1..n and a colour facet with values
 * 1..m. Number facets follow the Sudoku row and column rule; colour facets
 * neighbour the colour facets orthogonally next to them. Every neighbour
 * pair carries not-equal, and pairs of orthogonally next positions also
 * carry the colour-number comparison, which reads each side's partner
 * facet through the couple map.
 */
module ColoredSudoku {
  import opened Wrappers
  import opened Seqs
  import opened Constraints
  import opened Csp
  import S = Sudoku

  /** `(is_number, row, column)`. */
  datatype Cell = Cell(isNum: bool, row: int, col: int)

  /** A position of the n-by-n grid. */
  predicate InGrid(n: int, v: Cell) {
    1 <= v.row <= n && 1 <= v.col <= n
  }

  /** The grid pairs of a list turned into cells of one facet. */
  function Lift(isNum: bool, cells: seq<S.Cell>): (r: seq<Cell>)
    ensures |r| == |cells| && forall k :: 0 <= k < |cells| ==> r[k] == Cell(isNum, cells[k].0, cells[k].1)
    ensures forall c :: c in r <==> c.isNum == isNum && (c.row, c.col) in cells
  {
    var r := seq(|cells|, k requires 0 <= k < |cells| => Cell(isNum, cells[k].0, cells[k].1));
    assert forall c :: c in r ==> (c.row, c.col) in cells by {
      forall c | c in r ensures (c.row, c.col) in cells {
        var k :| 0 <= k < |r| && r[k] == c;
        assert cells[k] == (c.row, c.col);
      }
    }
    assert forall c: Cell :: c.isNum == isNum && (c.row, c.col) in cells ==> c in r by {
      forall c: Cell | c.isNum == isNum && (c.row, c.col) in cells ensures c in r {
        var k :| 0 <= k < |cells| && cells[k] == (c.row, c.col);
        assert r[k] == c;
      }
    }
    r
  }

  /** Lifting keeps a list duplicate-free. */
  lemma LiftDistinct(isNum: bool, cells: seq<S.Cell>)
    requires Distinct(cells)
    ensures Distinct(Lift(isNum, cells))
  {
    var r := Lift(isNum, cells);
    forall k, l | 0 <= k < l < |r| ensures r[k] != r[l] {
      assert r[k] == Cell(isNum, cells[k].0, cells[k].1) && r[l] == Cell(isNum, cells[l].0, cells[l].1);
    }
  }

  /** The variables: every number facet row by row, then every colour facet row by row. */
  function Variables(n: int): (r: seq<Cell>)
    ensures forall v :: v in r <==> InGrid(n, v)
  {
    Lift(true, S.Variables(n)) + Lift(false, S.Variables(n))
  }

  /** `couple`: a variable's other facet at the same position. */
  function Partner(v: Cell): Cell {
    Cell(!v.isNum, v.row, v.col)
  }

  /** The couple map over every variable. */
  function Couple(n: int): (r: map<Cell, Cell>)
    ensures r.Keys == set v | v in Variables(n)
  {
    map v | v in Variables(n) :: Partner(v)
  }

  /** The couple map is an involution without fixed points that keeps the position. */
  lemma CoupleInvolution(n: int, v: Cell)
    requires v in Variables(n)
    ensures v in Couple(n) && Couple(n)[v] in Couple(n)
    ensures Couple(n)[Couple(n)[v]] == v && Couple(n)[v] != v
    ensures Couple(n)[v].row == v.row && Couple(n)[v].col == v.col
  {
  }

  /** `[b + x for x in [-1, +1] if 0 < b + x <= n]`. */
  function Steps(n: int, b: int): (r: seq<int>)
    ensures forall y :: y in r <==> 0 < y <= n && (y == b - 1 || y == b + 1)
  {
    (if 0 < b - 1 <= n then [b - 1] else []) + (if 0 < b + 1 <= n then [b + 1] else [])
  }

  /**
   * A variable's neighbour list. A number facet lists the other number
   * facets of its row and then of its column, in the Sudoku order; a colour
   * facet lists the colour facets above and below it and then those left
   * and right of it, those inside the grid only.
   */
  function Neighbors(n: int, v: Cell): seq<Cell> {
    if v.isNum then
      Lift(true, S.Neighbors(n, (v.row, v.col)))
    else
      Lift(false, S.ColOf(Steps(n, v.row), v.col) + S.RowOf(v.row, Steps(n, v.col)))
  }

  /**
   * The colour-number comparison's guard as written: the column difference
   * and row difference form a unit step.
   */
  predicate Adjacent(v: Cell, nb: Cell) {
    (v.col - nb.col, v.row - nb.row) in [(1, 0), (0, 1), (-1, 0), (0, -1)]
  }

  function Abs(x: int): nat {
    if x < 0 then -x else x
  }

  /** The guard holds exactly for positions at Manhattan distance one. */
  lemma AdjacentIff(v: Cell, nb: Cell)
    ensures Adjacent(v, nb) <==> Abs(v.row - nb.row) + Abs(v.col - nb.col) == 1
  {
  }

  /**
   * The neighbours of a grid variable are the other variables of the same
   * facet in the grid that share a row or column (number facets) or sit
   * orthogonally next to it (colour facets).
   */
  lemma NeighborsExactly(n: int, v: Cell, u: Cell)
    requires InGrid(n, v)
    ensures u in Neighbors(n, v) <==>
      && InGrid(n, u) && u.isNum == v.isNum && u != v
      && (if v.isNum then u.row == v.row || u.col == v.col else Adjacent(u, v))
  {
    if v.isNum {
      S.NeighborsExactly(n, (v.row, v.col), (u.row, u.col));
    }
  }

  /** No variable neighbours itself, and the neighbour relation is symmetric. */
  lemma NeighborsIrreflexiveSymmetric(n: int, u: Cell, v: Cell)
    requires InGrid(n, u) && InGrid(n, v)
    ensures u !in Neighbors(n, u)
    ensures u in Neighbors(n, v) <==> v in Neighbors(n, u)
  {
    NeighborsExactly(n, u, u);
    NeighborsExactly(n, u, v);
    NeighborsExactly(n, v, u);
  }

  /** A number facet has 2(n-1) neighbours and a colour facet at most 4, none listed twice. */
  lemma NeighborCount(n: int, v: Cell)
    requires InGrid(n, v)
    ensures Distinct(Neighbors(n, v))
    ensures v.isNum ==> |Neighbors(n, v)| == 2 * (n - 1)
    ensures !v.isNum ==> |Neighbors(n, v)| <= 4
  {
    if v.isNum {
      S.NeighborCount(n, (v.row, v.col));
      LiftDistinct(true, S.Neighbors(n, (v.row, v.col)));
    } else {
      var up := S.ColOf(Steps(n, v.row), v.col);
      var side := S.RowOf(v.row, Steps(n, v.col));
      S.ColOfDistinct(Steps(n, v.row), v.col);
      S.RowOfDistinct(v.row, Steps(n, v.col));
      DistinctConcat(up, side);
      LiftDistinct(false, up + side);
    }
  }

  /** `neighbor`: every variable's neighbour list. */
  function NeighborMap(n: int): (r: map<Cell, seq<Cell>>)
    ensures r.Keys == set v | v in Variables(n)
  {
    map v | v in Variables(n) :: Neighbors(n, v)
  }

  /** `domain`: number facets start with 1..n and colour facets with 1..m. */
  function Domains(n: int, m: int): (r: map<Cell, set<int>>)
    ensures r.Keys == set v | v in Variables(n)
  {
    map v | v in Variables(n) :: if v.isNum then ElemSet(Range(1, n + 1)) else ElemSet(Range(1, m + 1))
  }

  /** A number facet's starting domain is exactly 1..n, a colour facet's exactly 1..m. */
  lemma DomainsExactly(n: int, m: int, v: Cell, x: int)
    requires v in Domains(n, m)
    ensures x in Domains(n, m)[v] <==> 1 <= x <= (if v.isNum then n else m)
  {
    var bound := if v.isNum then n else m;
    assert Domains(n, m)[v] == ElemSet(Range(1, bound + 1));
    assert x in ElemSet(Range(1, bound + 1)) <==> x in Range(1, bound + 1);
  }

  /** The predicates put on the ordered neighbour pair (v, nb). */
  function ConstraintsFor(v: Cell, nb: Cell): set<Constraint> {
    {NotEqual} + (if Adjacent(v, nb) then {SComp} else {})
  }

  /** The ordered pairs (x, y) with y a neighbour of x. */
  function Edges(n: int): set<(Cell, Cell)> {
    set x, y | x in Variables(n) && y in Neighbors(n, x) :: (x, y)
  }

  /** `constraints`: the predicate set of every ordered neighbour pair. */
  function ConstraintMap(n: int): (r: map<(Cell, Cell), set<Constraint>>)
    ensures r.Keys == Edges(n)
  {
    map e | e in Edges(n) :: ConstraintsFor(e.0, e.1)
  }

  /** The constraint map has an entry for (x, y) exactly when y is a neighbour of the grid variable x. */
  lemma ConstraintMapKeys(n: int, x: Cell, y: Cell)
    ensures (x, y) in ConstraintMap(n) <==> InGrid(n, x) && y in Neighbors(n, x)
  {
    if InGrid(n, x) && y in Neighbors(n, x) {
      assert x in Variables(n);
      assert (x, y) in Edges(n);
    }
  }

  /**
   * Every neighbour pair carries not-equal, and it carries the colour-number
   * comparison exactly when its positions are orthogonally next to each
   * other: between colour facets always, between number facets only for
   * next-door cells of a row or column.
   */
  lemma ConstraintStructure(n: int, x: Cell, y: Cell)
    requires (x, y) in ConstraintMap(n)
    ensures NotEqual in ConstraintMap(n)[(x, y)]
    ensures SComp in ConstraintMap(n)[(x, y)] <==> Abs(x.row - y.row) + Abs(x.col - y.col) == 1
    ensures !x.isNum ==> SComp in ConstraintMap(n)[(x, y)]
  {
    var r := ConstraintMap(n);
    ConstraintMapKeys(n, x, y);
    assert r[(x, y)] == ConstraintsFor(x, y);
    AdjacentIff(x, y);
    if !x.isNum {
      NeighborsExactly(n, x, y);
      AdjacentIff(y, x);
    }
  }

  /** A listed neighbour has a domain and constrains the variable that lists it. */
  lemma NeighborMapClosed(n: int, m: int, v: Cell, nb: Cell)
    requires v in NeighborMap(n) && nb in NeighborMap(n)[v]
    ensures (nb, v) in ConstraintMap(n) && nb in Domains(n, m)
  {
    assert v in Variables(n);
    assert NeighborMap(n)[v] == Neighbors(n, v);
    NeighborsExactly(n, v, nb);
    assert nb in Variables(n);
    NeighborsIrreflexiveSymmetric(n, v, nb);
    ConstraintMapKeys(n, nb, v);
  }

  /** `ColoredSudoku(n, m)`: the puzzle as a CSP and its couple map, well formed for the engine. */
  method NewColoredSudoku(n: int, m: int) returns (csp: CSP<Cell>, couple: map<Cell, Cell>)
    ensures fresh(csp)
    ensures csp.variables == Variables(n) && csp.neighbors == NeighborMap(n)
    ensures csp.domain == Domains(n, m) && csp.constraints == ConstraintMap(n)
    ensures couple == Couple(n)
    ensures csp.Valid() && csp.CoupleOk(Some(couple))
  {
    couple := Couple(n);
    var nbs := NeighborMap(n);
    var cs := ConstraintMap(n);
    var ds := Domains(n, m);
    VariablesDistinct(n);
    forall v, nb | v in nbs && nb in nbs[v] ensures (nb, v) in cs && nb in ds {
      NeighborMapClosed(n, m, v, nb);
    }
    csp := new CSP(Variables(n), nbs, ds, cs);
  }

  /** Every variable is listed once. */
  lemma VariablesDistinct(n: int)
    ensures Distinct(Variables(n))
  {
    RangeDistinct(1, n + 1);
    S.GridDistinct(Range(1, n + 1), Range(1, n + 1));
    var g := S.Variables(n);
    LiftDistinct(true, g);
    LiftDistinct(false, g);
    DistinctConcat(Lift(true, g), Lift(false, g));
  }
}
