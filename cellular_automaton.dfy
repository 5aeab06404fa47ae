/**
  The two-state cellular automaton engine: a toroidal grid of booleans, a
  transition rule, and the generation step that reports the cells it flips.

  The first half of the module is a value model of a grid (`Board`) with the
  specification functions of one generation; the class
  `TwoStateCellularAutomaton` at the end holds the grid in an `array2<bool>`
  and is proved against those functions.
 */
module CellularAutomaton {

  /** One cell that flips during a generation step, and the state it flips to. */
  datatype ChangeTarget = ChangeTarget(row: int, column: int, nextState: bool)

  /** A transition rule: current state and number of live neighbours give the next state. */
  type Rule = (bool, int) -> bool

  /** A value snapshot of a `rows` x `columns` grid. */
  datatype Board = Board(rows: nat, columns: nat, cells: seq<seq<bool>>)
  {
    predicate Valid() {
      |cells| == rows && forall r :: 0 <= r < rows ==> |cells[r]| == columns
    }

    predicate Contains(r: int, c: int) {
      0 <= r < rows && 0 <= c < columns
    }
  }

  predicate AllCells(b: Board, v: bool)
    requires b.Valid()
  {
    forall r, c :: 0 <= r < b.rows && 0 <= c < b.columns ==> b.cells[r][c] == v
  }

  // ---------------------------------------------------------------------------
  // The Life rule

  /** Conway's Life: birth on exactly 3 live neighbours, survival on 2 or 3. */
  function LifeGame(isLive: bool, liveNeighbours: int): (next: bool)
    ensures next <==> liveNeighbours == 3 || (isLive && liveNeighbours == 2)
  {
    if !isLive && liveNeighbours == 3 then true
    else if isLive && (liveNeighbours == 2 || liveNeighbours == 3) then true
    else if isLive && liveNeighbours <= 1 then false
    else if isLive && liveNeighbours >= 4 then false
    else isLive
  }

  // ---------------------------------------------------------------------------
  // Toroidal neighbour lookup

  /** The index before `k` on a ring of `n` positions (`left` and `top`). */
  function WrapBefore(k: int, n: int): (r: int)
    requires 0 <= k < n
    ensures 0 <= r < n
    ensures (r + 1) % n == k
  {
    if k == 0 then n - 1 else k - 1
  }

  /** The index after `k` on a ring of `n` positions (`right` and `bottom`). */
  function WrapAfter(k: int, n: int): (r: int)
    requires 0 <= k < n
    ensures 0 <= r < n
    ensures r == (k + 1) % n
  {
    if k == n - 1 then 0 else k + 1
  }

  predicate InRange(ks: seq<int>, n: int) {
    forall t :: 0 <= t < |ks| ==> 0 <= ks[t] < n
  }

  /** The three coordinates looked up along one axis: before, itself, after. */
  function Around(k: int, n: int): (ks: seq<int>)
    requires 0 <= k < n
    ensures |ks| == 3 && ks[1] == k && InRange(ks, n)
  {
    [WrapBefore(k, n), k, WrapAfter(k, n)]
  }

  /** How many of the first `d` entries of `ks` equal `k`. */
  function Hits(k: int, ks: seq<int>, d: int): (h: nat)
    requires 0 <= d <= |ks|
    ensures h <= d
  {
    if d == 0 then 0 else Hits(k, ks, d - 1) + if ks[d - 1] == k then 1 else 0
  }

  /** Live cells read in row `r` at the first `d` columns of `cs`, skipping each
      lookup whose coordinates equal `(i, j)` as values. */
  function CountInRow(b: Board, i: int, j: int, r: int, cs: seq<int>, d: int): nat
    requires b.Valid() && 0 <= r < b.rows && InRange(cs, b.columns) && 0 <= d <= |cs|
  {
    if d == 0 then 0
    else
      var c := cs[d - 1];
      CountInRow(b, i, j, r, cs, d - 1) + if (r != i || c != j) && b.cells[r][c] then 1 else 0
  }

  /** A row contributes at most one per lookup, and nothing for the lookups
      that land on the cell's own coordinates. */
  lemma {:induction false} CountInRowBound(b: Board, i: int, j: int, r: int, cs: seq<int>, d: int)
    requires b.Valid() && 0 <= r < b.rows && InRange(cs, b.columns) && 0 <= d <= |cs|
    ensures CountInRow(b, i, j, r, cs, d) <= d - if r == i then Hits(j, cs, d) else 0
  {
    if d > 0 {
      CountInRowBound(b, i, j, r, cs, d - 1);
    }
  }

  /** Live cells read at the first `a` rows of `rs`, each against all of `cs`,
      skipping lookups at `(i, j)`. */
  function CountIn(b: Board, i: int, j: int, rs: seq<int>, cs: seq<int>, a: int): nat
    requires b.Valid() && InRange(rs, b.rows) && InRange(cs, b.columns) && 0 <= a <= |rs|
  {
    if a == 0 then 0
    else CountIn(b, i, j, rs, cs, a - 1) + CountInRow(b, i, j, rs[a - 1], cs, |cs|)
  }

  lemma CountInThreeRows(b: Board, i: int, j: int, rs: seq<int>, cs: seq<int>)
    requires b.Valid() && |rs| == 3 && InRange(rs, b.rows) && InRange(cs, b.columns)
    ensures CountIn(b, i, j, rs, cs, 3)
      == CountInRow(b, i, j, rs[0], cs, |cs|) + CountInRow(b, i, j, rs[1], cs, |cs|) + CountInRow(b, i, j, rs[2], cs, |cs|)
  {
    assert CountIn(b, i, j, rs, cs, 1) == CountInRow(b, i, j, rs[0], cs, |cs|);
    assert CountIn(b, i, j, rs, cs, 2) == CountIn(b, i, j, rs, cs, 1) + CountInRow(b, i, j, rs[1], cs, |cs|);
  }

  /** The number of live neighbours of `(i, j)`: the 3 x 3 lookup around the cell
      with wrapped coordinates, the cell's own coordinates excluded by value. */
  function NeighbourCount(b: Board, i: int, j: int): (n: nat)
    requires b.Valid() && b.Contains(i, j)
    ensures n <= 8
  {
    var rs := Around(i, b.rows);
    var cs := Around(j, b.columns);
    CountInThreeRows(b, i, j, rs, cs);
    CountInRowBound(b, i, j, rs[0], cs, 3);
    CountInRowBound(b, i, j, rs[1], cs, 3);
    CountInRowBound(b, i, j, rs[2], cs, 3);
    assert Hits(j, cs, 3) >= Hits(j, cs, 2) >= Hits(j, cs, 1) + 1;
    CountIn(b, i, j, rs, cs, 3)
  }

  function Live(b: Board, r: int, c: int): nat
    requires b.Valid() && b.Contains(r, c)
  {
    if b.cells[r][c] then 1 else 0
  }

  /** The usual toroidal Moore neighbourhood, as an independent reference: the
      eight cells at offsets -1, 0, +1 around `(i, j)`, wrapped modulo the
      dimensions, the centre left out. */
  function OffsetCount(b: Board, i: int, j: int): nat
    requires b.Valid() && b.Contains(i, j)
  {
    var up, down := (i - 1) % b.rows, (i + 1) % b.rows;
    var left, right := (j - 1) % b.columns, (j + 1) % b.columns;
    Live(b, up, left) + Live(b, up, j) + Live(b, up, right)
    + Live(b, i, left) + Live(b, i, right)
    + Live(b, down, left) + Live(b, down, j) + Live(b, down, right)
  }

  lemma CountInRowThree(b: Board, i: int, j: int, r: int, cs: seq<int>)
    requires b.Valid() && 0 <= r < b.rows && |cs| == 3 && InRange(cs, b.columns)
    ensures CountInRow(b, i, j, r, cs, 3)
      == (if (r != i || cs[0] != j) then Live(b, r, cs[0]) else 0)
       + (if (r != i || cs[1] != j) then Live(b, r, cs[1]) else 0)
       + (if (r != i || cs[2] != j) then Live(b, r, cs[2]) else 0)
  {
    assert CountInRow(b, i, j, r, cs, 1) == if (r != i || cs[0] != j) then Live(b, r, cs[0]) else 0;
    assert CountInRow(b, i, j, r, cs, 2) == CountInRow(b, i, j, r, cs, 1)
      + if (r != i || cs[1] != j) then Live(b, r, cs[1]) else 0;
  }

  /** The wrapped lookups are the coordinates one before and one after, modulo `n`. */
  lemma AroundIsModular(k: int, n: int)
    requires 0 <= k < n
    ensures Around(k, n) == [(k - 1) % n, k, (k + 1) % n]
  {
    if k == 0 {
      assert (k - 1) % n == n - 1;
    } else {
      assert (k - 1) % n == k - 1;
    }
    if k == n - 1 {
      assert (k + 1) % n == 0;
    } else {
      assert (k + 1) % n == k + 1;
    }
  }

  /** On grids at least two cells wide in both directions the literal lookup
      counts exactly the Moore neighbourhood (on a two-wide axis the cells
      before and after coincide and are counted twice by both). */
  lemma NeighbourCountIsOffsetCount(b: Board, i: int, j: int)
    requires b.Valid() && b.Contains(i, j) && b.rows >= 2 && b.columns >= 2
    ensures NeighbourCount(b, i, j) == OffsetCount(b, i, j)
  {
    var rs, cs := Around(i, b.rows), Around(j, b.columns);
    AroundIsModular(i, b.rows);
    AroundIsModular(j, b.columns);
    assert rs[0] != i && rs[2] != i && cs[0] != j && cs[2] != j;
    CountInThreeRows(b, i, j, rs, cs);
    CountInRowThree(b, i, j, rs[0], cs);
    CountInRowThree(b, i, j, rs[1], cs);
    CountInRowThree(b, i, j, rs[2], cs);
  }

  // ---------------------------------------------------------------------------
  // One generation, as values

  function NextState(b: Board, rule: Rule, i: int, j: int): bool
    requires b.Valid() && b.Contains(i, j)
  {
    rule(b.cells[i][j], NeighbourCount(b, i, j))
  }

  /** The grid after one simultaneous step: every cell evaluated on `b`. */
  function Step(b: Board, rule: Rule): (b': Board)
    requires b.Valid()
    ensures b'.Valid() && b'.rows == b.rows && b'.columns == b.columns
  {
    Board(b.rows, b.columns,
          seq(b.rows, i requires 0 <= i < b.rows =>
            seq(b.columns, j requires 0 <= j < b.columns => NextState(b, rule, i, j))))
  }

  /** `ct` names a cell of `b` whose next state differs from its current one. */
  predicate IsChange(b: Board, rule: Rule, ct: ChangeTarget)
    requires b.Valid()
  {
    b.Contains(ct.row, ct.column)
    && ct.nextState == NextState(b, rule, ct.row, ct.column)
    && ct.nextState != b.cells[ct.row][ct.column]
  }

  /** Row-major order: row ascending, then column ascending. */
  predicate Precedes(x: ChangeTarget, y: ChangeTarget) {
    x.row < y.row || (x.row == y.row && x.column < y.column)
  }

  predicate RowMajor(cts: seq<ChangeTarget>) {
    forall p, q :: 0 <= p < q < |cts| ==> Precedes(cts[p], cts[q])
  }

  /** `ct` names a cell before `(i, j)` in row-major order. */
  predicate Earlier(ct: ChangeTarget, i: int, j: int) {
    ct.row < i || (ct.row == i && ct.column < j)
  }

  predicate Position(b: Board, i: int, j: int) {
    0 <= i <= b.rows && 0 <= j <= b.columns && (i == b.rows ==> j == 0)
  }

  /** The change targets of the cells before `(i, j)`, in row-major order. */
  function ChangesBefore(b: Board, rule: Rule, i: int, j: int): seq<ChangeTarget>
    requires b.Valid() && Position(b, i, j)
    decreases i, j
  {
    if j > 0 then
      var s := NextState(b, rule, i, j - 1);
      ChangesBefore(b, rule, i, j - 1) + if s != b.cells[i][j - 1] then [ChangeTarget(i, j - 1, s)] else []
    else if i > 0 then
      ChangesBefore(b, rule, i - 1, b.columns)
    else
      []
  }

  /** The list one generation step reports. */
  function Changes(b: Board, rule: Rule): seq<ChangeTarget>
    requires b.Valid()
  {
    ChangesBefore(b, rule, b.rows, 0)
  }

  lemma {:induction false} ChangesBeforeListsFlips(b: Board, rule: Rule, i: int, j: int)
    requires b.Valid() && Position(b, i, j)
    ensures forall ct :: ct in ChangesBefore(b, rule, i, j) <==> Earlier(ct, i, j) && IsChange(b, rule, ct)
    ensures RowMajor(ChangesBefore(b, rule, i, j))
    decreases i, j
  {
    if j > 0 {
      ChangesBeforeListsFlips(b, rule, i, j - 1);
      var front := ChangesBefore(b, rule, i, j - 1);
      assert forall p :: 0 <= p < |front| ==> front[p] in front;
    } else if i > 0 {
      ChangesBeforeListsFlips(b, rule, i - 1, b.columns);
    }
  }

  /** The reported list names exactly the cells whose next state differs from
      their current one, each with that next state, in row-major order. */
  lemma ChangesListsFlips(b: Board, rule: Rule)
    requires b.Valid()
    ensures forall ct :: ct in Changes(b, rule) <==> IsChange(b, rule, ct)
    ensures RowMajor(Changes(b, rule))
    ensures Targets(b, Changes(b, rule))
  {
    ChangesBeforeListsFlips(b, rule, b.rows, 0);
    var cts := Changes(b, rule);
    assert forall t :: 0 <= t < |cts| ==> cts[t] in cts;
  }

  // ---------------------------------------------------------------------------
  // Writing change targets into a grid

  predicate Targets(b: Board, cts: seq<ChangeTarget>) {
    forall t :: 0 <= t < |cts| ==> b.Contains(cts[t].row, cts[t].column)
  }

  predicate Names(ct: ChangeTarget, r: int, c: int) {
    ct.row == r && ct.column == c
  }

  /** `b` with the cell `(r, c)` set to `v`. */
  function Set(b: Board, r: int, c: int, v: bool): (b': Board)
    requires b.Valid() && b.Contains(r, c)
    ensures b'.Valid() && b'.rows == b.rows && b'.columns == b.columns
    ensures b'.cells[r][c] == v
    ensures forall r', c' :: b.Contains(r', c') && (r' != r || c' != c) ==> b'.cells[r'][c'] == b.cells[r'][c']
  {
    b.(cells := b.cells[r := b.cells[r][c := v]])
  }

  /** `b` after writing the targets `cts` one after the other. */
  function Apply(b: Board, cts: seq<ChangeTarget>): (b': Board)
    requires b.Valid() && Targets(b, cts)
    ensures b'.Valid() && b'.rows == b.rows && b'.columns == b.columns
    decreases |cts|
  {
    if cts == [] then b
    else
      var last := cts[|cts| - 1];
      Set(Apply(b, cts[..|cts| - 1]), last.row, last.column, last.nextState)
  }

  lemma ApplyExtend(b: Board, cts: seq<ChangeTarget>, k: int)
    requires b.Valid() && Targets(b, cts) && 0 <= k < |cts|
    ensures Targets(b, cts[..k]) && Targets(b, cts[..k + 1])
    ensures Apply(b, cts[..k + 1]) == Set(Apply(b, cts[..k]), cts[k].row, cts[k].column, cts[k].nextState)
  {
    assert cts[..k + 1][..k] == cts[..k];
  }

  /** Two valid boards of the same size that agree on every cell are equal. */
  lemma SameBoard(x: Board, y: Board)
    requires x.Valid() && y.Valid() && x.rows == y.rows && x.columns == y.columns
    requires forall r, c :: 0 <= r < x.rows && 0 <= c < x.columns ==> x.cells[r][c] == y.cells[r][c]
    ensures x == y
  {
    forall r | 0 <= r < x.rows ensures x.cells[r] == y.cells[r] {
      assert forall c :: 0 <= c < x.columns ==> x.cells[r][c] == y.cells[r][c];
    }
  }

  /** A cell no target names keeps its value; a cell a target names ends with
      that target's state (the targets name distinct cells). */
  lemma {:induction false} ApplyAt(b: Board, cts: seq<ChangeTarget>, r: int, c: int)
    requires b.Valid() && Targets(b, cts) && RowMajor(cts) && b.Contains(r, c)
    ensures (forall t :: 0 <= t < |cts| ==> !Names(cts[t], r, c)) ==> Apply(b, cts).cells[r][c] == b.cells[r][c]
    ensures forall t :: 0 <= t < |cts| && Names(cts[t], r, c) ==> Apply(b, cts).cells[r][c] == cts[t].nextState
  {
    if cts != [] {
      var front := cts[..|cts| - 1];
      ApplyAt(b, front, r, c);
      forall t | 0 <= t < |front| ensures front[t] == cts[t] && Precedes(cts[t], cts[|cts| - 1]) { }
    }
  }

  /** Writing the reported changes into the old grid yields the simultaneous step. */
  lemma ApplyChangesIsStep(b: Board, rule: Rule)
    requires b.Valid()
    ensures Targets(b, Changes(b, rule))
    ensures Apply(b, Changes(b, rule)) == Step(b, rule)
  {
    ChangesListsFlips(b, rule);
    var cts := Changes(b, rule);
    var a := Apply(b, cts);
    var s := Step(b, rule);
    forall r | 0 <= r < b.rows ensures a.cells[r] == s.cells[r] {
      forall c | 0 <= c < b.columns ensures a.cells[r][c] == s.cells[r][c] {
        ApplyAt(b, cts, r, c);
        var ns := NextState(b, rule, r, c);
        if ns != b.cells[r][c] {
          assert ChangeTarget(r, c, ns) in cts;
        } else {
          forall t | 0 <= t < |cts| ensures !Names(cts[t], r, c) {
            assert cts[t] in cts;
          }
        }
      }
    }
  }

  /** A cell flips in the step exactly when the list names it, with its new state. */
  lemma ListedIffChanged(b: Board, rule: Rule, r: int, c: int)
    requires b.Valid() && b.Contains(r, c)
    ensures ChangeTarget(r, c, Step(b, rule).cells[r][c]) in Changes(b, rule)
            <==> Step(b, rule).cells[r][c] != b.cells[r][c]
    ensures (forall t :: 0 <= t < |Changes(b, rule)| ==> !Names(Changes(b, rule)[t], r, c))
            ==> Step(b, rule).cells[r][c] == b.cells[r][c]
  {
    ChangesListsFlips(b, rule);
    var cts := Changes(b, rule);
    if Step(b, rule).cells[r][c] != b.cells[r][c] {
      var ct := ChangeTarget(r, c, Step(b, rule).cells[r][c]);
      assert ct in cts;
      var t :| 0 <= t < |cts| && cts[t] == ct;
      assert Names(cts[t], r, c);
    }
  }

  /** The list never names a cell twice. */
  lemma ChangesDistinct(b: Board, rule: Rule)
    requires b.Valid()
    ensures forall p, q :: 0 <= p < q < |Changes(b, rule)| ==>
      (Changes(b, rule)[p].row, Changes(b, rule)[p].column) != (Changes(b, rule)[q].row, Changes(b, rule)[q].column)
  {
    ChangesListsFlips(b, rule);
  }

  // ---------------------------------------------------------------------------
  // The neighbour count never reads the cell itself

  lemma {:induction false} CountInRowIgnoresSelf(b: Board, i: int, j: int, v: bool, r: int, cs: seq<int>, d: int)
    requires b.Valid() && b.Contains(i, j) && 0 <= r < b.rows && InRange(cs, b.columns) && 0 <= d <= |cs|
    ensures CountInRow(Set(b, i, j, v), i, j, r, cs, d) == CountInRow(b, i, j, r, cs, d)
  {
    if d > 0 {
      CountInRowIgnoresSelf(b, i, j, v, r, cs, d - 1);
    }
  }

  lemma {:induction false} CountInIgnoresSelf(b: Board, i: int, j: int, v: bool, rs: seq<int>, cs: seq<int>, a: int)
    requires b.Valid() && b.Contains(i, j) && InRange(rs, b.rows) && InRange(cs, b.columns) && 0 <= a <= |rs|
    ensures CountIn(Set(b, i, j, v), i, j, rs, cs, a) == CountIn(b, i, j, rs, cs, a)
  {
    if a > 0 {
      CountInIgnoresSelf(b, i, j, v, rs, cs, a - 1);
      CountInRowIgnoresSelf(b, i, j, v, rs[a - 1], cs, |cs|);
    }
  }

  /** Whatever the grid size, the count of `(i, j)` does not depend on the cell
      `(i, j)` itself, even where wrapped lookups coincide with its row or column. */
  lemma NeighbourCountIgnoresSelf(b: Board, i: int, j: int, v: bool)
    requires b.Valid() && b.Contains(i, j)
    ensures NeighbourCount(Set(b, i, j, v), i, j) == NeighbourCount(b, i, j)
  {
    CountInIgnoresSelf(b, i, j, v, Around(i, b.rows), Around(j, b.columns), 3);
  }

  // ---------------------------------------------------------------------------
  // Uniform grids

  lemma {:induction false} CountInRowUniform(b: Board, v: bool, i: int, j: int, r: int, cs: seq<int>, d: int)
    requires b.Valid() && AllCells(b, v) && 0 <= r < b.rows && InRange(cs, b.columns) && 0 <= d <= |cs|
    ensures CountInRow(b, i, j, r, cs, d) == if v then d - (if r == i then Hits(j, cs, d) else 0) else 0
  {
    if d > 0 {
      CountInRowUniform(b, v, i, j, r, cs, d - 1);
    }
  }

  /** How often the wrapped lookups along one axis hit the cell's own coordinate. */
  function SelfHits(n: int): nat {
    if n == 1 then 3 else 1
  }

  lemma AroundSelfHits(k: int, n: int)
    requires 0 <= k < n
    ensures Hits(k, Around(k, n), 3) == SelfHits(n)
  {
    var ks := Around(k, n);
    assert Hits(k, ks, 3) == Hits(k, ks, 2) + (if ks[2] == k then 1 else 0);
    assert Hits(k, ks, 2) == Hits(k, ks, 1) + 1;
    assert Hits(k, ks, 1) == if ks[0] == k then 1 else 0;
  }

  /** On an all-live grid the count is 8, or 6 when one dimension is 1, or 0 on
      a 1 x 1 grid: each lookup landing on the cell's own coordinates is skipped. */
  lemma FullBoardCount(b: Board, i: int, j: int)
    requires b.Valid() && AllCells(b, true) && b.Contains(i, j)
    ensures NeighbourCount(b, i, j) == 9 - SelfHits(b.rows) * SelfHits(b.columns)
  {
    var rs, cs := Around(i, b.rows), Around(j, b.columns);
    CountInThreeRows(b, i, j, rs, cs);
    CountInRowUniform(b, true, i, j, rs[0], cs, 3);
    CountInRowUniform(b, true, i, j, rs[1], cs, 3);
    CountInRowUniform(b, true, i, j, rs[2], cs, 3);
    AroundSelfHits(j, b.columns);
    if b.rows == 1 {
      assert rs[0] == i && rs[2] == i;
    } else {
      assert rs[0] != i && rs[2] != i;
    }
  }

  lemma DeadBoardCount(b: Board, i: int, j: int)
    requires b.Valid() && AllCells(b, false) && b.Contains(i, j)
    ensures NeighbourCount(b, i, j) == 0
  {
    var rs, cs := Around(i, b.rows), Around(j, b.columns);
    CountInThreeRows(b, i, j, rs, cs);
    CountInRowUniform(b, false, i, j, rs[0], cs, 3);
    CountInRowUniform(b, false, i, j, rs[1], cs, 3);
    CountInRowUniform(b, false, i, j, rs[2], cs, 3);
  }

  /** With the Life rule, an all-dead grid reports no change and stays as it is. */
  lemma DeadBoardIsStill(b: Board)
    requires b.Valid() && AllCells(b, false)
    ensures Changes(b, LifeGame) == []
    ensures Step(b, LifeGame) == b
  {
    var s := Step(b, LifeGame);
    forall r | 0 <= r < b.rows ensures s.cells[r] == b.cells[r] {
      forall c | 0 <= c < b.columns ensures s.cells[r][c] == b.cells[r][c] {
        DeadBoardCount(b, r, c);
      }
    }
    assert s.cells == b.cells;
    var cts := Changes(b, LifeGame);
    if cts != [] {
      ChangesListsFlips(b, LifeGame);
      assert cts[0] in cts;
      DeadBoardCount(b, cts[0].row, cts[0].column);
    }
  }

  lemma {:induction false} ChangesBeforeAll(b: Board, rule: Rule, i: int, j: int)
    requires b.Valid() && Position(b, i, j)
    requires forall r, c {:trigger NextState(b, rule, r, c)} :: b.Contains(r, c) ==> NextState(b, rule, r, c) != b.cells[r][c]
    ensures |ChangesBefore(b, rule, i, j)| == Area(i, b.columns) + j
    decreases i, j
  {
    if j > 0 {
      ChangesBeforeAll(b, rule, i, j - 1);
    } else if i > 0 {
      ChangesBeforeAll(b, rule, i - 1, b.columns);
    }
  }

  /** `m * n`, counted row by row. */
  function Area(m: nat, n: nat): nat {
    if m == 0 then 0 else Area(m - 1, n) + n
  }

  lemma {:induction false} AreaIsProduct(m: nat, n: nat)
    ensures Area(m, n) == m * n
  {
    if m > 0 {
      AreaIsProduct(m - 1, n);
    }
  }

  /** With the Life rule every cell of an all-live grid dies at once: the list
      holds one entry per cell, each to dead. */
  lemma FullBoardDies(b: Board)
    requires b.Valid() && AllCells(b, true)
    ensures AllCells(Step(b, LifeGame), false)
    ensures |Changes(b, LifeGame)| == b.rows * b.columns
    ensures forall ct :: ct in Changes(b, LifeGame) ==> !ct.nextState
  {
    forall r, c | b.Contains(r, c) ensures !NextState(b, LifeGame, r, c) {
      FullBoardCount(b, r, c);
    }
    ChangesBeforeAll(b, LifeGame, b.rows, 0);
    ChangesListsFlips(b, LifeGame);
    AreaIsProduct(b.rows, b.columns);
  }

  // ---------------------------------------------------------------------------
  // The engine

  class TwoStateCellularAutomaton {
    /** The grid, exposed to callers, which may write single cells. */
    const cells: array2<bool>
    const rowCount: nat
    const columnCount: nat
    const rule: Rule

    ghost predicate Valid() {
      cells.Length0 == rowCount && cells.Length1 == columnCount
    }

    /** The grid as a value. */
    ghost function Snapshot(): (b: Board)
      reads cells
      requires Valid()
      ensures b.Valid() && b.rows == rowCount && b.columns == columnCount
      ensures forall r, c :: b.Contains(r, c) ==> b.cells[r][c] == cells[r, c]
    {
      Board(rowCount, columnCount,
            seq(rowCount, r reads cells requires 0 <= r < rowCount =>
              seq(columnCount, c reads cells requires 0 <= c < columnCount => cells[r, c])))
    }

    constructor (rowCount: nat, columnCount: nat, rule: Rule)
      ensures Valid() && fresh(cells)
      ensures this.rowCount == rowCount && this.columnCount == columnCount && this.rule == rule
      ensures AllCells(Snapshot(), false)
    {
      this.rowCount := rowCount;
      this.columnCount := columnCount;
      this.rule := rule;
      cells := new bool[rowCount, columnCount]((r, c) => false);
    }

    /** The engine with the Life rule. */
    constructor Life(rowCount: nat, columnCount: nat)
      ensures Valid() && fresh(cells)
      ensures this.rowCount == rowCount && this.columnCount == columnCount
      ensures rule == LifeGame
      ensures AllCells(Snapshot(), false)
    {
      this.rowCount := rowCount;
      this.columnCount := columnCount;
      this.rule := LifeGame;
      cells := new bool[rowCount, columnCount]((r, c) => false);
    }

    /** Counts the live neighbours of `(i, j)` by the literal 3 x 3 lookup. */
    method CountNeighbourTrueCell(i: int, j: int) returns (count: int)
      requires Valid() && 0 <= i < rowCount && 0 <= j < columnCount
      ensures count == NeighbourCount(Snapshot(), i, j)
    {
      ghost var b := Snapshot();
      var left := if j == 0 then columnCount - 1 else j - 1;
      var right := if j == columnCount - 1 then 0 else j + 1;
      var top := if i == 0 then rowCount - 1 else i - 1;
      var bottom := if i == rowCount - 1 then 0 else i + 1;
      var rs := [top, i, bottom];
      var cs := [left, j, right];
      assert rs == Around(i, rowCount) && cs == Around(j, columnCount);

      count := 0;
      var a := 0;
      while a < 3
        invariant 0 <= a <= 3
        invariant count == CountIn(b, i, j, rs, cs, a)
      {
        var r := rs[a];
        var d := 0;
        while d < 3
          invariant 0 <= d <= 3
          invariant count == CountIn(b, i, j, rs, cs, a) + CountInRow(b, i, j, r, cs, d)
        {
          var c := cs[d];
          if r != i || c != j {
            count := count + if cells[r, c] then 1 else 0;
          }
          d := d + 1;
        }
        a := a + 1;
      }
    }

    /** The first phase of a step: evaluates the rule at every cell against the
        unmodified grid and collects the cells that flip, in row-major order. */
    method CollectChangeTargets() returns (list: seq<ChangeTarget>)
      requires Valid()
      ensures list == Changes(Snapshot(), rule)
    {
      ghost var b := Snapshot();
      list := [];
      var i := 0;
      while i < rowCount
        invariant 0 <= i <= rowCount
        invariant list == ChangesBefore(b, rule, i, 0)
      {
        var j := 0;
        while j < columnCount
          invariant 0 <= j <= columnCount
          invariant list == ChangesBefore(b, rule, i, j)
        {
          var numOfNeighbourTrueCell := CountNeighbourTrueCell(i, j);
          var nextState := rule(cells[i, j], numOfNeighbourTrueCell);
          if nextState != cells[i, j] {
            list := list + [ChangeTarget(i, j, nextState)];
          }
          j := j + 1;
        }
        i := i + 1;
      }
    }

    /** One generation: collects the change targets, then writes them into the
        grid. Returns the list it wrote. */
    method Next() returns (changes: seq<ChangeTarget>)
      requires Valid()
      modifies cells
      ensures changes == Changes(old(Snapshot()), rule)
      ensures Snapshot() == Step(old(Snapshot()), rule)
      ensures forall r, c :: 0 <= r < rowCount && 0 <= c < columnCount
                && (forall t :: 0 <= t < |changes| ==> !Names(changes[t], r, c))
                ==> cells[r, c] == old(cells[r, c])
    {
      ghost var b := Snapshot();
      changes := CollectChangeTargets();
      ChangesListsFlips(b, rule);
      ApplyChangesIsStep(b, rule);

      var k := 0;
      while k < |changes|
        invariant 0 <= k <= |changes|
        invariant forall r, c :: 0 <= r < rowCount && 0 <= c < columnCount ==>
          cells[r, c] == Apply(b, changes[..k]).cells[r][c]
      {
        var ct := changes[k];
        cells[ct.row, ct.column] := ct.nextState;
        ApplyExtend(b, changes, k);
        k := k + 1;
      }
      assert changes[..k] == changes;
      SameBoard(Snapshot(), Step(b, rule));
      forall r, c | 0 <= r < rowCount && 0 <= c < columnCount
        && (forall t :: 0 <= t < |changes| ==> !Names(changes[t], r, c))
        ensures cells[r, c] == old(cells[r, c])
      {
        ApplyAt(b, changes, r, c);
      }
    }
  }
}
