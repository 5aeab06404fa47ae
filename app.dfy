/**
  The console front end's sequential logic: the mapping between console
  cursor positions and grid indices, the toroidal cursor movement, the cell
  flip under the cursor, and the key dispatch that is gated on whether the
  automaton is currently running.

  The console itself is not modelled: the cursor position, the key read and
  the running flag arrive as plain inputs.
 */
module App {
  import opened CellularAutomaton

  /** Each cell is drawn as one full-width square, two console columns wide. */
  const SquareWidth: int := 2

  /** Where the top-left cell of the grid is drawn on the console. */
  datatype Layout = Layout(cellCursorTop: int, cellCursorLeft: int)

  /** A console cursor position. */
  datatype CursorPos = CursorPos(top: int, left: int)

  /** A grid index as computed from a cursor position. */
  datatype CellIndex = CellIndex(row: int, col: int)

  // ---------------------------------------------------------------------------
  // Cursor <-> index

  /** Integer division rounding toward zero, as the host language's `/` on
      `int` does (Dafny's own `/` is Euclidean). */
  function TruncDiv(a: int, d: int): (q: int)
    requires d > 0
    ensures a >= 0 ==> 0 <= a - q * d < d
    ensures a < 0 ==> -d < a - q * d <= 0
  {
    if a >= 0 then a / d else -((-a) / d)
  }

  /** The cell under a cursor position: the row is the line offset from the
      grid's first line, the column is the square the offset falls in. */
  function FromCursorPos(layout: Layout, pos: CursorPos): (ix: CellIndex)
    ensures ix.row + layout.cellCursorTop == pos.top
    ensures var off := pos.left - layout.cellCursorLeft;
      off >= 0 ==> SquareWidth * ix.col <= off < SquareWidth * ix.col + SquareWidth
  {
    CellIndex(pos.top - layout.cellCursorTop,
              TruncDiv(pos.left - layout.cellCursorLeft, SquareWidth))
  }

  /** The cursor position of the left half of a cell's square. */
  function ToCursorPos(layout: Layout, ix: CellIndex): CursorPos {
    CursorPos(layout.cellCursorTop + ix.row, layout.cellCursorLeft + ix.col * SquareWidth)
  }

  /** Converting an index to a position and back gives the index, for any row and column. */
  lemma FromToCursorPos(layout: Layout, ix: CellIndex)
    ensures FromCursorPos(layout, ToCursorPos(layout, ix)) == ix
  {
    var off := ix.col * SquareWidth;
    if off < 0 {
      assert -off == (-ix.col) * SquareWidth;
      assert (-off) / SquareWidth == -ix.col;
    } else {
      assert off / SquareWidth == ix.col;
    }
  }

  /** A position survives the opposite round trip exactly when it is on the
      left half of a square. */
  lemma ToFromCursorPos(layout: Layout, pos: CursorPos)
    ensures ToCursorPos(layout, FromCursorPos(layout, pos)) == pos
            <==> (pos.left - layout.cellCursorLeft) % SquareWidth == 0
  {
    var off := pos.left - layout.cellCursorLeft;
    var col := FromCursorPos(layout, pos).col;
    assert off - col * SquareWidth == 0 <==> off % SquareWidth == 0;
  }

  /** The cursor is over a cell of a `rows` x `columns` grid. */
  predicate OnGrid(layout: Layout, rows: int, columns: int, pos: CursorPos) {
    var ix := FromCursorPos(layout, pos);
    0 <= ix.row < rows && 0 <= ix.col < columns
  }

  // ---------------------------------------------------------------------------
  // Cursor movement

  /** One coordinate of a cursor move on a torus of `n` rows (or columns):
      below zero wraps to the far end, past the far end wraps to zero. */
  function WrapMove(k: int, delta: int, n: int): (m: int)
    ensures -n <= k + delta < 2 * n ==> 0 <= m < n && m == (k + delta) % n
    ensures 0 <= k + delta < n ==> m == k + delta
    ensures n > 0 && k == 0 && delta == -1 ==> m == n - 1
    ensures n > 0 && k == n - 1 && delta == 1 ==> m == 0
  {
    if k + delta < 0 then n + (k + delta)
    else if k + delta > n - 1 then k + delta - n
    else k + delta
  }

  /** The cursor's wrap agrees with the neighbour lookup of the engine. */
  lemma WrapMoveIsNeighbour(k: int, n: int)
    requires 0 <= k < n
    ensures WrapMove(k, -1, n) == WrapBefore(k, n)
    ensures WrapMove(k, 1, n) == WrapAfter(k, n)
    ensures WrapMove(k, 0, n) == k
  {
  }

  /** A move followed by the opposite move returns to the start. */
  lemma WrapMoveBack(k: int, delta: int, n: int)
    requires 0 <= k < n && -1 <= delta <= 1
    ensures WrapMove(WrapMove(k, delta, n), -delta, n) == k
  {
    var m := WrapMove(k, delta, n);
    assert 0 <= m < n;
  }

  /** The cursor after moving `deltaRow` rows and `deltaCol` columns from `pos`. */
  function MoveCursor(layout: Layout, rows: int, columns: int, pos: CursorPos,
                      deltaRow: int, deltaCol: int): (moved: CursorPos)
    ensures var ix := FromCursorPos(layout, pos);
      0 <= ix.row < rows && 0 <= ix.col < columns && -1 <= deltaRow <= 1 && -1 <= deltaCol <= 1 ==>
        OnGrid(layout, rows, columns, moved) &&
        FromCursorPos(layout, moved) == CellIndex((ix.row + deltaRow) % rows, (ix.col + deltaCol) % columns) &&
        (moved.left - layout.cellCursorLeft) % SquareWidth == 0
  {
    var ix := FromCursorPos(layout, pos);
    var movedRow := WrapMove(ix.row, deltaRow, rows);
    var movedCol := WrapMove(ix.col, deltaCol, columns);
    FromToCursorPos(layout, CellIndex(movedRow, movedCol));
    ToCursorPos(layout, CellIndex(movedRow, movedCol))
  }

  /** Moving back undoes a move, up to snapping the cursor onto the left half
      of its square. */
  lemma MoveCursorBack(layout: Layout, rows: int, columns: int, pos: CursorPos,
                       deltaRow: int, deltaCol: int)
    requires OnGrid(layout, rows, columns, pos)
    requires -1 <= deltaRow <= 1 && -1 <= deltaCol <= 1
    ensures MoveCursor(layout, rows, columns, MoveCursor(layout, rows, columns, pos, deltaRow, deltaCol),
                       -deltaRow, -deltaCol)
            == ToCursorPos(layout, FromCursorPos(layout, pos))
  {
    var ix := FromCursorPos(layout, pos);
    var moved := MoveCursor(layout, rows, columns, pos, deltaRow, deltaCol);
    FromToCursorPos(layout, CellIndex(WrapMove(ix.row, deltaRow, rows), WrapMove(ix.col, deltaCol, columns)));
    WrapMoveBack(ix.row, deltaRow, rows);
    WrapMoveBack(ix.col, deltaCol, columns);
  }

  // ---------------------------------------------------------------------------
  // Flipping the cell under the cursor

  /** `b` with the cell `(r, c)` inverted. */
  function Flip(b: Board, r: int, c: int): (b': Board)
    requires b.Valid() && b.Contains(r, c)
    ensures b'.Valid() && b'.rows == b.rows && b'.columns == b.columns
    ensures b'.cells[r][c] != b.cells[r][c]
    ensures forall r', c' :: b.Contains(r', c') && (r' != r || c' != c) ==> b'.cells[r'][c'] == b.cells[r'][c']
  {
    Set(b, r, c, !b.cells[r][c])
  }

  /** Flipping the same cell twice restores the grid. */
  lemma FlipTwice(b: Board, r: int, c: int)
    requires b.Valid() && b.Contains(r, c)
    ensures Flip(Flip(b, r, c), r, c) == b
  {
    SameBoard(Flip(Flip(b, r, c), r, c), b);
  }

  /** Inverts the cell under the cursor in the engine's grid and returns its new state. */
  method UpdateCurrentCell(ca: TwoStateCellularAutomaton, layout: Layout, cursor: CursorPos)
    returns (state: bool)
    requires ca.Valid() && OnGrid(layout, ca.rowCount, ca.columnCount, cursor)
    modifies ca.cells
    ensures var ix := FromCursorPos(layout, cursor);
      ca.Snapshot() == Flip(old(ca.Snapshot()), ix.row, ix.col) &&
      state == ca.cells[ix.row, ix.col] && state == !old(ca.cells[ix.row, ix.col])
  {
    ghost var b := ca.Snapshot();
    var ix := FromCursorPos(layout, cursor);
    ca.cells[ix.row, ix.col] := !ca.cells[ix.row, ix.col];
    state := ca.cells[ix.row, ix.col];
    SameBoard(ca.Snapshot(), Flip(b, ix.row, ix.col));
  }

  // ---------------------------------------------------------------------------
  // Key dispatch

  datatype Key = R | C | UpArrow | DownArrow | LeftArrow | RightArrow | U | E | OtherKey

  /** What a key press asks of the application. */
  datatype Command =
    | StartWorker
    | CancelWorker
    | Move(deltaRow: int, deltaCol: int)
    | UpdateCell
    | Exit(cancelWorker: bool)
    | Ignore

  /** The command for `key`, given whether the automaton is running. Starting
      is refused while running and cancelling while stopped; the cursor and
      the grid are left alone while running; exit always exits. */
  function Dispatch(key: Key, isRunningCA: bool): (cmd: Command)
    ensures cmd.StartWorker? <==> key == R && !isRunningCA
    ensures cmd.CancelWorker? <==> key == C && isRunningCA
    ensures cmd.Move? <==> key in {UpArrow, DownArrow, LeftArrow, RightArrow} && !isRunningCA
    ensures cmd.UpdateCell? <==> key == U && !isRunningCA
    ensures cmd.Exit? <==> key == E
    ensures cmd.Exit? ==> cmd.cancelWorker == isRunningCA
    ensures cmd.Move? ==> -1 <= cmd.deltaRow <= 1 && -1 <= cmd.deltaCol <= 1
                          && (cmd.deltaRow == 0 <==> cmd.deltaCol != 0)
    ensures cmd.Move? ==> (cmd.deltaRow == -1 <==> key == UpArrow) && (cmd.deltaRow == 1 <==> key == DownArrow)
                          && (cmd.deltaCol == -1 <==> key == LeftArrow) && (cmd.deltaCol == 1 <==> key == RightArrow)
  {
    match key
    case R => if !isRunningCA then StartWorker else Ignore
    case C => if isRunningCA then CancelWorker else Ignore
    case UpArrow => if !isRunningCA then Move(-1, 0) else Ignore
    case DownArrow => if !isRunningCA then Move(1, 0) else Ignore
    case LeftArrow => if !isRunningCA then Move(0, -1) else Ignore
    case RightArrow => if !isRunningCA then Move(0, 1) else Ignore
    case U => if !isRunningCA then UpdateCell else Ignore
    case E => Exit(isRunningCA)
    case OtherKey => Ignore
  }

  /** Up and down move one row, left and right one column, when stopped. */
  lemma ArrowDirections(key: Key, isRunningCA: bool)
    requires !isRunningCA
    ensures key == UpArrow ==> Dispatch(key, isRunningCA) == Move(-1, 0)
    ensures key == DownArrow ==> Dispatch(key, isRunningCA) == Move(1, 0)
    ensures key == LeftArrow ==> Dispatch(key, isRunningCA) == Move(0, -1)
    ensures key == RightArrow ==> Dispatch(key, isRunningCA) == Move(0, 1)
  {
  }

  /** While running, a key can at most cancel the run or exit (cancelling it);
      while stopped, no key asks for a cancellation. */
  lemma RunningGate(key: Key, isRunningCA: bool)
    ensures isRunningCA ==> Dispatch(key, isRunningCA) in {CancelWorker, Exit(true), Ignore}
    ensures !isRunningCA ==> !Dispatch(key, isRunningCA).CancelWorker?
                             && Dispatch(key, isRunningCA) != Exit(true)
  {
  }

  /** A key read by the application loop, with the running flag as it stood then. */
  datatype KeyPress = KeyPress(key: Key, isRunningCA: bool)

  /** The part of the application state the key loop changes. */
  datatype Session = Session(grid: Board, cursor: CursorPos)

  predicate Ready(layout: Layout, s: Session) {
    s.grid.Valid() && OnGrid(layout, s.grid.rows, s.grid.columns, s.cursor)
  }

  /** The effect of one key press on the grid and the cursor. */
  function Handle(layout: Layout, s: Session, press: KeyPress): (s': Session)
    requires Ready(layout, s)
    ensures Ready(layout, s') && s'.grid.rows == s.grid.rows && s'.grid.columns == s.grid.columns
  {
    match Dispatch(press.key, press.isRunningCA)
    case Move(dr, dc) => s.(cursor := MoveCursor(layout, s.grid.rows, s.grid.columns, s.cursor, dr, dc))
    case UpdateCell =>
      var ix := FromCursorPos(layout, s.cursor);
      s.(grid := Flip(s.grid, ix.row, ix.col))
    case _ => s
  }

  /** The effect of a sequence of key presses, one after the other. */
  function Replay(layout: Layout, s: Session, presses: seq<KeyPress>): (s': Session)
    requires Ready(layout, s)
    ensures Ready(layout, s') && s'.grid.rows == s.grid.rows && s'.grid.columns == s.grid.columns
    decreases |presses|
  {
    if presses == [] then s
    else Handle(layout, Replay(layout, s, presses[..|presses| - 1]), presses[|presses| - 1])
  }

  /** While the automaton runs, key presses change neither the grid nor the cursor. */
  lemma {:induction false} ReplayWhileRunning(layout: Layout, s: Session, presses: seq<KeyPress>)
    requires Ready(layout, s)
    requires forall i :: 0 <= i < |presses| ==> presses[i].isRunningCA
    ensures Replay(layout, s, presses) == s
    decreases |presses|
  {
    if presses != [] {
      ReplayWhileRunning(layout, s, presses[..|presses| - 1]);
    }
  }

  /** One pass of the application loop: dispatches `press` and carries out
      the cursor move or the cell flip it asks for. */
  method HandleKey(ca: TwoStateCellularAutomaton, layout: Layout, cursor: CursorPos, press: KeyPress)
    returns (cmd: Command, newCursor: CursorPos)
    requires ca.Valid() && OnGrid(layout, ca.rowCount, ca.columnCount, cursor)
    modifies ca.cells
    ensures cmd == Dispatch(press.key, press.isRunningCA)
    ensures Session(ca.Snapshot(), newCursor) == Handle(layout, Session(old(ca.Snapshot()), cursor), press)
  {
    cmd := Dispatch(press.key, press.isRunningCA);
    newCursor := cursor;
    match cmd
    case Move(dr, dc) =>
      newCursor := MoveCursor(layout, ca.rowCount, ca.columnCount, cursor, dr, dc);
    case UpdateCell =>
      var _ := UpdateCurrentCell(ca, layout, cursor);
    case _ =>
  }

  /** The application loop over the keys `presses`: handles them in order and
      stops after the first exit key. Returns how many keys it consumed,
      whether it exited and where the cursor ended. */
  method Run(ca: TwoStateCellularAutomaton, layout: Layout, cursor: CursorPos, presses: seq<KeyPress>)
    returns (consumed: nat, exited: bool, finalCursor: CursorPos)
    requires ca.Valid() && OnGrid(layout, ca.rowCount, ca.columnCount, cursor)
    modifies ca.cells
    ensures consumed <= |presses|
    ensures exited <==> exists i :: 0 <= i < |presses| && presses[i].key == E
    ensures exited ==> 0 < consumed && presses[consumed - 1].key == E
    ensures !exited ==> consumed == |presses|
    ensures forall i :: 0 <= i < consumed - 1 ==> presses[i].key != E
    ensures Session(ca.Snapshot(), finalCursor) ==
            Replay(layout, Session(old(ca.Snapshot()), cursor), presses[..consumed])
  {
    ghost var s0 := Session(ca.Snapshot(), cursor);
    consumed := 0;
    exited := false;
    finalCursor := cursor;
    while !exited && consumed < |presses|
      invariant consumed <= |presses|
      invariant OnGrid(layout, ca.rowCount, ca.columnCount, finalCursor)
      invariant Session(ca.Snapshot(), finalCursor) == Replay(layout, s0, presses[..consumed])
      invariant exited ==> 0 < consumed && presses[consumed - 1].key == E
      invariant forall i :: 0 <= i < consumed - (if exited then 1 else 0) ==> presses[i].key != E
    {
      var press := presses[consumed];
      var cmd;
      cmd, finalCursor := HandleKey(ca, layout, finalCursor, press);
      assert presses[..consumed + 1][..consumed] == presses[..consumed];
      consumed := consumed + 1;
      exited := press.key == E;
    }
  }
}
