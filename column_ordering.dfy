/** The position engine of the column services: what add, reorder and
    delete do to the Columns table, and what they keep of the ordering
    invariant. The transitions are the repository calls composed as the
    services issue them; the services themselves are in ColumnsServiceImpl
    and ColumnsService. */
module ColumnOrdering {
  import opened ColumnTable

  // ---------------------------------------------------------------------
  // The transitions, as the code issues them
  // ---------------------------------------------------------------------

  /** The bulk shift reorder issues for a move from oldPosition to newPosition:
      moving later closes the gap with DecrementAboveTo, any other move
      (earlier, or to the same place) makes room with IncrementBelowTo.
      The moved row itself is never in the shifted range, and every other
      row of its board ends where MovedPosition says it belongs. */
  function ReorderShift(oldPosition: int, newPosition: int): (u: BulkUpdate)
    ensures !u.Matches(oldPosition)
    ensures forall p :: p != oldPosition ==>
      MovedPosition(oldPosition, newPosition, p) == if u.Matches(p) then p + u.Delta() else p
  {
    if newPosition > oldPosition then DecrementAboveTo(newPosition, oldPosition)
    else IncrementBelowTo(newPosition, oldPosition)
  }

  /** addColumns: the new row takes the board's current count as position. */
  function Appended(t: seq<Column>, id: nat, board: nat): (r: seq<Column>)
    ensures |r| == |t| + 1 && r[..|t|] == t
    ensures r[|t|].id == id && r[|t|].board == board
  {
    t + [Column(id, board, CountOnBoard(t, board))]
  }

  /** reorder: the range shift, then save of the moved row at newPosition. */
  function Reordered(t: seq<Column>, moved: Column, newPosition: int): (r: seq<Column>)
    ensures |r| == |t|
    ensures forall i :: 0 <= i < |t| ==> r[i].id == t[i].id && r[i].board == t[i].board
    ensures forall i :: 0 <= i < |t| && t[i].id == moved.id ==> r[i].position == newPosition
  {
    WithPosition(Execute(t, ReorderShift(moved.position, newPosition)), moved.id, newPosition)
  }

  /** deleteColumns of the current service: decrementBelow(position), then
      deleteById. */
  function Compacted(t: seq<Column>, removed: Column): (r: seq<Column>)
    ensures (forall i :: 0 <= i < |t| ==> t[i].id != removed.id) ==> |r| == |t|
    ensures (exists i :: 0 <= i < |t| && t[i].id == removed.id) ==> |r| == |t| - 1
  {
    RemoveId(Execute(t, DecrementBelow(removed.position)), removed.id)
  }

  // ---------------------------------------------------------------------
  // What each transition does, row by row
  // ---------------------------------------------------------------------

  /** addColumns appends one row at position N (the board's count before),
      and the board then has N + 1 rows. */
  lemma {:induction false} AppendedAtCount(t: seq<Column>, id: nat, board: nat)
    ensures var r := Appended(t, id, board);
      && |r| == |t| + 1 && r[..|t|] == t
      && r[|t|] == Column(id, board, CountOnBoard(t, board))
      && CountOnBoard(r, board) == CountOnBoard(t, board) + 1
  {
    CountConcat(t, [Column(id, board, CountOnBoard(t, board))], board);
  }

  /** reorder moves the row to newPosition; moving later, exactly the other
      rows with position in (old, new] go down by one; moving earlier,
      exactly those in [new, old) go up by one; every other row, every id and
      every board stays. */
  lemma {:induction false} ReorderedMovesExactly(t: seq<Column>, k: nat, newPosition: int)
    requires UniqueIds(t) && k < |t|
    ensures var r, o := Reordered(t, t[k], newPosition), t[k].position;
      && |r| == |t|
      && r[k] == t[k].(position := newPosition)
      && forall i :: 0 <= i < |t| && i != k ==>
           && r[i].id == t[i].id && r[i].board == t[i].board
           && r[i].position == (if o < newPosition && o < t[i].position <= newPosition then t[i].position - 1
                                else if newPosition < o && newPosition <= t[i].position < o then t[i].position + 1
                                else t[i].position)
  {
    var r := Reordered(t, t[k], newPosition);
    var s := Execute(t, ReorderShift(t[k].position, newPosition));
    assert r[k].id == t[k].id && r[k].board == t[k].board && r[k].position == newPosition;
    forall i | 0 <= i < |t| && i != k ensures r[i] == s[i] {
      assert t[i].id != t[k].id;
    }
  }

  /** reorder to the current position changes nothing: the increment range
      [old, old) is empty and the row is saved at its own position. */
  lemma {:induction false} ReorderToSamePositionIsNoOp(t: seq<Column>, k: nat)
    requires UniqueIds(t) && k < |t|
    ensures Reordered(t, t[k], t[k].position) == t
  {
    var r := Reordered(t, t[k], t[k].position);
    forall i | 0 <= i < |t| ensures r[i] == t[i] {
      if i != k { assert t[i].id != t[k].id; }
    }
  }

  /** deleteColumns removes the row and lowers by one every remaining row
      whose position is at or after the removed one; the rows before it, and
      every id and board, stay. */
  lemma {:induction false} CompactedShiftsExactly(t: seq<Column>, k: nat)
    requires UniqueIds(t) && k < |t|
    ensures var r, p := Compacted(t, t[k]), t[k].position;
      && |r| == |t| - 1
      && forall i :: 0 <= i < |r| ==>
           var c := t[if i < k then i else i + 1];
           && r[i].id == c.id && r[i].board == c.board
           && r[i].position == (if c.position >= p then c.position - 1 else c.position)
  {
    var s := Execute(t, DecrementBelow(t[k].position));
    assert UniqueIds(s) by {
      forall i, j | 0 <= i < j < |s| ensures s[i].id != s[j].id {
        assert s[i].id == t[i].id && s[j].id == t[j].id;
      }
    }
    RemoveIdAt(s, k);
  }

  // ---------------------------------------------------------------------
  // The invariant on a single-board table
  // ---------------------------------------------------------------------

  /** addColumns keeps every board's invariant (the count is per board and no
      row is shifted), so a board with positions 0..N-1 gets 0..N. */
  lemma {:induction false} AddPreservesDense(t: seq<Column>, id: nat, board: nat, b: nat)
    requires Dense(t, b)
    ensures Dense(Appended(t, id, board), b)
  {
    var c := Column(id, board, CountOnBoard(t, board));
    var r := t + [c];
    CountConcat(t, [c], b);
    assert forall i :: 0 <= i < |t| ==> r[i] == t[i];
  }

  /** A fresh id keeps ids unique. */
  lemma {:induction false} AddPreservesUniqueIds(t: seq<Column>, id: nat, board: nat)
    requires UniqueIds(t)
    requires forall i :: 0 <= i < |t| ==> t[i].id < id
    ensures UniqueIds(Appended(t, id, board))
  {
    var r := Appended(t, id, board);
    assert forall i :: 0 <= i < |t| ==> r[i] == t[i];
  }

  /** On a table holding one board whose positions are 0..N-1, reorder to a
      position in [0, N) leaves 0..N-1. The code does not check the range;
      ReorderPastEndLeavesGap shows what happens without it. */
  lemma {:induction false} ReorderPreservesDense(t: seq<Column>, k: nat, newPosition: int)
    requires UniqueIds(t) && k < |t|
    requires SingleBoard(t, t[k].board) && Dense(t, t[k].board)
    requires 0 <= newPosition < |t|
    ensures SingleBoard(Reordered(t, t[k], newPosition), t[k].board)
    ensures Dense(Reordered(t, t[k], newPosition), t[k].board)
  {
    var u := ReorderShift(t[k].position, newPosition);
    ExecuteOnSingleBoard(t, t[k].board, u);
    ReorderOnPreservesDense(t, k, newPosition, t[k].board);
  }

  /** On a table holding one board whose positions are 0..N-1, deleteColumns
      leaves 0..N-2. */
  lemma {:induction false} DeletePreservesDense(t: seq<Column>, k: nat)
    requires UniqueIds(t) && k < |t|
    requires SingleBoard(t, t[k].board) && Dense(t, t[k].board)
    ensures SingleBoard(Compacted(t, t[k]), t[k].board)
    ensures Dense(Compacted(t, t[k]), t[k].board)
    ensures |Compacted(t, t[k])| == |t| - 1
  {
    ExecuteOnSingleBoard(t, t[k].board, DecrementBelow(t[k].position));
    CompactedOnPreservesDense(t, k, t[k].board);
    CompactedShiftsExactly(t, k);
  }

  /** On any table, however many boards it holds, reorder to a position in
      [0, N) keeps the moved column's own board in order: the unscoped shift
      only disturbs the other boards. */
  lemma {:induction false} ReorderKeepsOwnBoardDense(t: seq<Column>, k: nat, newPosition: int)
    requires UniqueIds(t) && k < |t| && Dense(t, t[k].board)
    requires 0 <= newPosition < CountOnBoard(t, t[k].board)
    ensures Dense(Reordered(t, t[k], newPosition), t[k].board)
  {
    var b := t[k].board;
    ReorderOnPreservesDense(t, k, newPosition, b);
    ScopedAndUnscopedReorderAgreeOn(t, k, newPosition);
    SameBoardRowsSameDense(ReorderedOn(t, t[k], newPosition), Reordered(t, t[k], newPosition), b);
  }

  /** What reorder keeps, in the form the services state it: the moved
      column's board stays in order for a target in [0, N), and a table
      holding only that board still holds only that board. */
  lemma {:induction false} ReorderKeepsOrder(t: seq<Column>, k: nat, newPosition: int)
    requires UniqueIds(t) && k < |t|
    ensures 0 <= newPosition < CountOnBoard(t, t[k].board) && Dense(t, t[k].board) ==>
      Dense(Reordered(t, t[k], newPosition), t[k].board)
    ensures SingleBoard(t, t[k].board) ==> SingleBoard(Reordered(t, t[k], newPosition), t[k].board)
  {
    if 0 <= newPosition < CountOnBoard(t, t[k].board) && Dense(t, t[k].board) {
      ReorderKeepsOwnBoardDense(t, k, newPosition);
    }
  }

  /** What delete keeps, in the form the services state it: the deleted
      column's board stays in order, and a table holding only that board
      still holds only that board. */
  lemma {:induction false} DeleteKeepsOrder(t: seq<Column>, k: nat)
    requires UniqueIds(t) && k < |t|
    ensures Dense(t, t[k].board) ==> Dense(Compacted(t, t[k]), t[k].board)
    ensures SingleBoard(t, t[k].board) ==> SingleBoard(Compacted(t, t[k]), t[k].board)
  {
    if Dense(t, t[k].board) {
      DeleteKeepsOwnBoardDense(t, k);
    }
    if SingleBoard(t, t[k].board) {
      CompactedShiftsExactly(t, k);
    }
  }

  /** The scoped and the unscoped reorder leave the same rows on the moved
      column's board. */
  lemma {:induction false} ScopedAndUnscopedReorderAgreeOn(t: seq<Column>, k: nat, newPosition: int)
    requires k < |t|
    ensures var s, a := ReorderedOn(t, t[k], newPosition), Reordered(t, t[k], newPosition);
      && |s| == |a| == |t|
      && (forall i :: 0 <= i < |t| ==> s[i].board == a[i].board)
      && (forall i :: 0 <= i < |t| && s[i].board == t[k].board ==> s[i].position == a[i].position)
  {
    var b, u := t[k].board, ReorderShift(t[k].position, newPosition);
    var e, f := ExecuteOn(t, b, u), Execute(t, u);
    assert forall i :: 0 <= i < |t| && t[i].board == b ==> e[i] == f[i];
  }

  /** On any table, deleteColumns keeps the deleted column's own board in
      order. */
  lemma {:induction false} DeleteKeepsOwnBoardDense(t: seq<Column>, k: nat)
    requires UniqueIds(t) && k < |t| && Dense(t, t[k].board)
    ensures Dense(Compacted(t, t[k]), t[k].board)
  {
    var b, u := t[k].board, DecrementBelow(t[k].position);
    var a, s := Execute(t, u), ExecuteOn(t, b, u);
    ShiftKeepsUniqueIds(t, a);
    ShiftKeepsUniqueIds(t, s);
    RemoveIdAt(a, k);
    RemoveIdAt(s, k);
    CompactedOnPreservesDense(t, k, b);
    assert forall i :: 0 <= i < |t| && t[i].board == b ==> a[i] == s[i];
    RemovedRowsAgree(s, a, k, b);
    SameBoardRowsSameDense(RemoveAt(s, k), RemoveAt(a, k), b);
  }

  /** A table with the ids of a table with unique ids has unique ids. */
  lemma {:induction false} ShiftKeepsUniqueIds(t: seq<Column>, a: seq<Column>)
    requires UniqueIds(t) && |a| == |t|
    requires forall i :: 0 <= i < |t| ==> a[i].id == t[i].id
    ensures UniqueIds(a)
  {
    forall i, j | 0 <= i < j < |a| ensures a[i].id != a[j].id {
      assert a[i].id == t[i].id && a[j].id == t[j].id;
    }
  }

  /** Removing the same row from two tables that agree row by row on a board
      leaves two tables that still agree on it. */
  lemma {:induction false} RemovedRowsAgree(s: seq<Column>, a: seq<Column>, k: nat, b: nat)
    requires k < |s| == |a|
    requires forall i :: 0 <= i < |s| ==> s[i].board == a[i].board
    requires forall i :: 0 <= i < |s| && s[i].board == b ==> s[i] == a[i]
    ensures var x, y := RemoveAt(s, k), RemoveAt(a, k);
      && |x| == |y|
      && (forall i :: 0 <= i < |x| ==> x[i].board == y[i].board)
      && (forall i :: 0 <= i < |x| && x[i].board == b ==> x[i].position == y[i].position)
  {
    var x, y := RemoveAt(s, k), RemoveAt(a, k);
    forall i | 0 <= i < |x| ensures x[i].board == y[i].board && (x[i].board == b ==> x[i].position == y[i].position) {
      if i < k { assert x[i] == s[i] && y[i] == a[i]; } else { assert x[i] == s[i + 1] && y[i] == a[i + 1]; }
    }
  }

  /** The legacy deleteColumns removes the row and shifts nothing: the board
      stays in order exactly when the removed column was its last one. */
  lemma LegacyDeleteKeepsDenseIffLast(t: seq<Column>, k: nat)
    requires UniqueIds(t) && k < |t| && Dense(t, t[k].board)
    ensures Dense(RemoveId(t, t[k].id), t[k].board) <==> t[k].position == CountOnBoard(t, t[k].board) - 1
  {
    RemoveIdAt(t, k);
    if t[k].position == CountOnBoard(t, t[k].board) - 1 {
      RemovingLastKeepsDense(t, k);
    } else {
      RemovingOtherLeavesGap(t, k);
    }
  }

  lemma {:induction false} RemovingLastKeepsDense(t: seq<Column>, k: nat)
    requires k < |t| && Dense(t, t[k].board)
    requires t[k].position == CountOnBoard(t, t[k].board) - 1
    ensures Dense(RemoveAt(t, k), t[k].board)
  {
    var b, n := t[k].board, CountOnBoard(t, t[k].board);
    forall j | 0 <= j < |t| && j != k && t[j].board == b
      ensures 0 <= t[j].position < n - 1
    {
      if j < k { assert t[j].position != t[k].position; } else { assert t[k].position != t[j].position; }
    }
    assert InRangeWithout(t, k, b);
    DenseAfterRemoval(t, k, b);
  }

  lemma {:induction false} RemovingOtherLeavesGap(t: seq<Column>, k: nat)
    requires k < |t| && Dense(t, t[k].board)
    requires t[k].position != CountOnBoard(t, t[k].board) - 1
    ensures !Dense(RemoveAt(t, k), t[k].board)
  {
    var b := t[k].board;
    CountRemoved(t, k, b);
    var j := LastPositionHeld(t, b);
    var j' := RemoveAtKeepsRow(t, k, j);
    PositionAtCountBreaksDense(RemoveAt(t, k), b, j');
  }

  /** A board in order with N > 0 columns has a column at position N - 1. */
  lemma {:induction false} LastPositionHeld(t: seq<Column>, b: nat) returns (j: nat)
    requires Dense(t, b) && CountOnBoard(t, b) > 0
    ensures j < |t| && t[j].board == b && t[j].position == CountOnBoard(t, b) - 1
  {
    DenseIsPermutation(t, b);
    assert CountOnBoard(t, b) - 1 in Range(CountOnBoard(t, b));
    j :| 0 <= j < |t| && t[j].board == b && t[j].position == CountOnBoard(t, b) - 1;
  }

  /** Every row but the removed one is still in the table. */
  lemma {:induction false} RemoveAtKeepsRow(t: seq<Column>, k: nat, j: nat) returns (j': nat)
    requires k < |t| && j < |t| && j != k
    ensures j' < |RemoveAt(t, k)| && RemoveAt(t, k)[j'] == t[j]
  {
    j' := if j < k then j else j - 1;
  }

  /** A row of the board at position N, the board's count, is out of order. */
  lemma {:induction false} PositionAtCountBreaksDense(r: seq<Column>, b: nat, i: nat)
    requires i < |r| && r[i].board == b && r[i].position == CountOnBoard(r, b)
    ensures !Dense(r, b)
  {
  }

  /** One board holding columns 1, 2, 3 and 4 at positions 0 to 3. */
  const FourColumns := [Column(1, 7, 0), Column(2, 7, 1), Column(3, 7, 2), Column(4, 7, 3)]

  /** Moving the first column to position 2 pulls the two after it forward:
      the order becomes 2, 3, 1, 4. */
  lemma MoveLaterExample()
    ensures Reordered(FourColumns, FourColumns[0], 2)
      == [Column(1, 7, 2), Column(2, 7, 0), Column(3, 7, 1), Column(4, 7, 3)]
  {
    var d := Execute(FourColumns, DecrementAboveTo(2, 0));
    assert d[0] == Column(1, 7, 0) && d[1] == Column(2, 7, 0) && d[2] == Column(3, 7, 1) && d[3] == Column(4, 7, 3);
    var r := WithPosition(d, 1, 2);
    assert r[0] == Column(1, 7, 2) && r[1] == d[1] && r[2] == d[2] && r[3] == d[3];
  }

  /** Moving the last column to position 1 pushes the two before it back:
      the order becomes 1, 4, 2, 3. */
  lemma MoveEarlierExample()
    ensures Reordered(FourColumns, FourColumns[3], 1)
      == [Column(1, 7, 0), Column(2, 7, 2), Column(3, 7, 3), Column(4, 7, 1)]
  {
    var d := Execute(FourColumns, IncrementBelowTo(1, 3));
    assert d[0] == Column(1, 7, 0) && d[1] == Column(2, 7, 2) && d[2] == Column(3, 7, 3) && d[3] == Column(4, 7, 3);
    var r := WithPosition(d, 4, 1);
    assert r[0] == d[0] && r[1] == d[1] && r[2] == d[2] && r[3] == Column(4, 7, 1);
  }

  /** One board holding columns 1 and 2 at positions 0 and 1. */
  const OneBoard := [Column(1, 7, 0), Column(2, 7, 1)]

  lemma OneBoardInOrder()
    ensures UniqueIds(OneBoard) && SingleBoard(OneBoard, 7) && Dense(OneBoard, 7)
  {
    assert CountOnBoard(OneBoard, 7) == 2;
  }

  /** Without a range check, reorder past the end leaves a gap: moving
      column 1 to position 2 gives positions 2 and 0 on a board of two. */
  lemma ReorderPastEndLeavesGap()
    ensures Dense(OneBoard, 7)
    ensures Reordered(OneBoard, OneBoard[0], 2) == [Column(1, 7, 2), Column(2, 7, 0)]
    ensures !Dense(Reordered(OneBoard, OneBoard[0], 2), 7)
  {
    OneBoardInOrder();
    var d := Execute(OneBoard, DecrementAboveTo(2, 0));
    assert d[0] == Column(1, 7, 0) && d[1] == Column(2, 7, 0);
    var r := WithPosition(d, 1, 2);
    assert r[0] == Column(1, 7, 2) && r[1] == Column(2, 7, 0);
    assert r == [Column(1, 7, 2), Column(2, 7, 0)];
    assert r[0].board == 7 && r[0].position >= CountOnBoard(r, 7);
  }

  /** Likewise a negative target is stored as it is: moving column 2 to
      position -1 gives positions 1 and -1. */
  lemma ReorderBeforeStartGoesNegative()
    ensures Dense(OneBoard, 7)
    ensures Reordered(OneBoard, OneBoard[1], -1) == [Column(1, 7, 1), Column(2, 7, -1)]
    ensures !Dense(Reordered(OneBoard, OneBoard[1], -1), 7)
  {
    OneBoardInOrder();
    var d := Execute(OneBoard, IncrementBelowTo(-1, 1));
    assert d[0] == Column(1, 7, 1) && d[1] == Column(2, 7, 1);
    var r := WithPosition(d, 2, -1);
    assert r[0] == Column(1, 7, 1) && r[1] == Column(2, 7, -1);
    assert r == [Column(1, 7, 1), Column(2, 7, -1)];
    assert r[1].board == 7 && r[1].position < 0;
  }

  // ---------------------------------------------------------------------
  // The shifts are not scoped to a board
  // ---------------------------------------------------------------------

  /** A table with two boards, both in order: board 1 holds columns 1 and 2
      at positions 0 and 1, board 2 holds column 3 at position 0. */
  const TwoBoards := [Column(1, 1, 0), Column(2, 1, 1), Column(3, 2, 0)]

  lemma TwoBoardsSecondInOrder()
    ensures Dense(TwoBoards, 2)
  {
    assert CountOnBoard(TwoBoards, 2) == 1;
  }

  /** Deleting column 1 of board 1 moves column 3 of board 2 to -1. */
  lemma UnscopedDeleteCorruptsOtherBoard()
    ensures Dense(TwoBoards, 2)
    ensures Compacted(TwoBoards, TwoBoards[0]) == [Column(2, 1, 0), Column(3, 2, -1)]
    ensures !Dense(Compacted(TwoBoards, TwoBoards[0]), 2)
  {
    TwoBoardsSecondInOrder();
    var d := Execute(TwoBoards, DecrementBelow(0));
    assert d[0] == Column(1, 1, -1) && d[1] == Column(2, 1, 0) && d[2] == Column(3, 2, -1);
    assert d == [Column(1, 1, -1), Column(2, 1, 0), Column(3, 2, -1)];
    RemoveIdAt(d, 0);
    var c := Compacted(TwoBoards, TwoBoards[0]);
    assert c == [Column(2, 1, 0), Column(3, 2, -1)];
    assert c[1].board == 2 && c[1].position < 0;
  }

  /** Moving column 2 of board 1 to the front moves column 3 of board 2 to
      position 1, past the end of its board. */
  lemma UnscopedReorderCorruptsOtherBoard()
    ensures Dense(TwoBoards, 2)
    ensures Reordered(TwoBoards, TwoBoards[1], 0) == [Column(1, 1, 1), Column(2, 1, 0), Column(3, 2, 1)]
    ensures !Dense(Reordered(TwoBoards, TwoBoards[1], 0), 2)
  {
    TwoBoardsSecondInOrder();
    var d := Execute(TwoBoards, IncrementBelowTo(0, 1));
    assert d[0] == Column(1, 1, 1) && d[1] == Column(2, 1, 1) && d[2] == Column(3, 2, 1);
    var m := WithPosition(d, 2, 0);
    assert m[0] == Column(1, 1, 1) && m[1] == Column(2, 1, 0) && m[2] == Column(3, 2, 1);
    assert m == [Column(1, 1, 1), Column(2, 1, 0), Column(3, 2, 1)];
    assert CountOnBoard(m, 2) == 1;
    assert m[2].board == 2 && m[2].position >= 1;
  }

  /** A bulk update restricted to the rows of one board: the WHERE clause the
      shifts evidently need. */
  function ExecuteOn(t: seq<Column>, board: nat, u: BulkUpdate): (r: seq<Column>)
    ensures |r| == |t|
    ensures forall i :: 0 <= i < |t| ==> r[i].id == t[i].id && r[i].board == t[i].board
    ensures forall i :: 0 <= i < |t| && t[i].board == board && u.Matches(t[i].position) ==>
      r[i].position == t[i].position + u.Delta()
    ensures forall i :: 0 <= i < |t| && !(t[i].board == board && u.Matches(t[i].position)) ==> r[i] == t[i]
  {
    if t == [] then []
    else
      var c, rest := t[0], ExecuteOn(t[1..], board, u);
      var head := if c.board == board && u.Matches(c.position) then c.(position := c.position + u.Delta()) else c;
      assert forall i :: 1 <= i < |t| ==> ([head] + rest)[i] == rest[i - 1] && t[i] == t[1..][i - 1];
      [head] + rest
  }

  /** On a single-board table the scoped and the unscoped update agree. */
  lemma {:induction false} ExecuteOnSingleBoard(t: seq<Column>, board: nat, u: BulkUpdate)
    requires SingleBoard(t, board)
    ensures ExecuteOn(t, board, u) == Execute(t, u)
  {
    var a, b := ExecuteOn(t, board, u), Execute(t, u);
    forall i | 0 <= i < |t| ensures a[i] == b[i] { }
  }

  /** reorder with the shift scoped to the moved column's board. */
  function ReorderedOn(t: seq<Column>, moved: Column, newPosition: int): (r: seq<Column>)
    ensures |r| == |t|
    ensures forall i :: 0 <= i < |t| ==> r[i].id == t[i].id && r[i].board == t[i].board
    ensures forall i :: 0 <= i < |t| && t[i].id == moved.id ==> r[i].position == newPosition
    ensures forall i :: 0 <= i < |t| && t[i].board != moved.board && t[i].id != moved.id ==> r[i] == t[i]
  {
    WithPosition(ExecuteOn(t, moved.board, ReorderShift(moved.position, newPosition)), moved.id, newPosition)
  }

  /** deleteColumns with the shift scoped to the removed column's board. */
  function CompactedOn(t: seq<Column>, removed: Column): (r: seq<Column>)
    ensures (forall i :: 0 <= i < |t| ==> t[i].id != removed.id) ==> |r| == |t|
    ensures (exists i :: 0 <= i < |t| && t[i].id == removed.id) ==> |r| == |t| - 1
  {
    RemoveId(ExecuteOn(t, removed.board, DecrementBelow(removed.position)), removed.id)
  }

  /** Where a row at position p of the moved column's board ends up when that
      column moves from o to n. */
  function MovedPosition(o: int, n: int, p: int): int {
    if o < n && o < p <= n then p - 1
    else if n < o && n <= p < o then p + 1
    else p
  }

  /** Rows other than the moved one keep distinct positions, and none of
      them lands on the target. */
  lemma {:induction false} MovedPositionInjective(o: int, n: int, p: int, q: int)
    requires p != o && q != o
    ensures p != q ==> MovedPosition(o, n, p) != MovedPosition(o, n, q)
    ensures MovedPosition(o, n, p) != n
  {
  }

  /** A row within [0, N) stays within [0, N) when the move's ends are in it. */
  lemma {:induction false} MovedPositionInRange(o: int, n: int, p: int, size: int)
    requires p != o && 0 <= o < size && 0 <= n < size && 0 <= p < size
    ensures 0 <= MovedPosition(o, n, p) < size
  {
  }

  lemma {:induction false} ReorderedOnRow(t: seq<Column>, k: nat, newPosition: int, i: nat)
    requires UniqueIds(t) && k < |t| && i < |t|
    ensures var r := ReorderedOn(t, t[k], newPosition);
      && |r| == |t| && r[i].id == t[i].id && r[i].board == t[i].board
      && r[i].position == (if i == k then newPosition
                           else if t[i].board == t[k].board then MovedPosition(t[k].position, newPosition, t[i].position)
                           else t[i].position)
  {
    if i != k { assert t[i].id != t[k].id; }
  }

  /** Scoped reorder keeps the invariant of every board of a multi-board
      table: the moved column's board (given a target in [0, N)) and every
      other board, which it does not touch. */
  lemma {:induction false} ReorderOnPreservesDense(t: seq<Column>, k: nat, newPosition: int, b: nat)
    requires UniqueIds(t) && k < |t|
    requires Dense(t, b)
    requires b == t[k].board ==> 0 <= newPosition < CountOnBoard(t, b)
    ensures Dense(ReorderedOn(t, t[k], newPosition), b)
  {
    var r := ReorderedOn(t, t[k], newPosition);
    var o, n := t[k].position, CountOnBoard(t, b);
    forall i | 0 <= i < |t| ensures r[i].board == t[i].board {
      ReorderedOnRow(t, k, newPosition, i);
    }
    SameBoardsSameCount(t, r, b);
    forall i, j | 0 <= i < j < |r| && r[i].board == b && r[j].board == b
      ensures r[i].position != r[j].position
    {
      ReorderedOnRow(t, k, newPosition, i);
      ReorderedOnRow(t, k, newPosition, j);
      if b == t[k].board && i != k && j != k {
        MovedPositionInjective(o, newPosition, t[i].position, t[j].position);
      } else if b == t[k].board && i == k {
        MovedPositionInjective(o, newPosition, t[j].position, t[j].position);
      } else if b == t[k].board && j == k {
        MovedPositionInjective(o, newPosition, t[i].position, t[i].position);
      }
    }
    forall i | 0 <= i < |r| && r[i].board == b ensures 0 <= r[i].position < n {
      ReorderedOnRow(t, k, newPosition, i);
      if b == t[k].board && i != k {
        MovedPositionInRange(o, newPosition, t[i].position, n);
      }
    }
  }

  /** After the scoped decrement, the rows other than the removed one lie in
      [0, M), M being the board's count once the row is gone. */
  lemma {:induction false} CompactedOnInRange(t: seq<Column>, k: nat, b: nat)
    requires k < |t| && Dense(t, b)
    ensures InRangeWithout(ExecuteOn(t, t[k].board, DecrementBelow(t[k].position)), k, b)
  {
    var p := t[k].position;
    var s := ExecuteOn(t, t[k].board, DecrementBelow(p));
    SameBoardsSameCount(t, s, b);
    forall j | 0 <= j < |s| && j != k && s[j].board == b
      ensures 0 <= s[j].position < CountOnBoard(s, b) - (if s[k].board == b then 1 else 0)
    {
      if b == t[k].board { assert t[j].position != p; }
    }
  }

  /** After the scoped decrement, the rows other than the removed one still
      have distinct positions. */
  lemma {:induction false} CompactedOnDistinct(t: seq<Column>, k: nat, b: nat)
    requires k < |t| && Dense(t, b)
    ensures DistinctWithout(ExecuteOn(t, t[k].board, DecrementBelow(t[k].position)), k, b)
  {
    var p := t[k].position;
    var s := ExecuteOn(t, t[k].board, DecrementBelow(p));
    forall i, j | 0 <= i < j < |s| && i != k && j != k && s[i].board == b && s[j].board == b
      ensures s[i].position != s[j].position
    {
      if b == t[k].board { assert t[i].position != p && t[j].position != p; }
    }
  }

  /** Scoped delete keeps the invariant of every board of a multi-board table. */
  lemma {:induction false} CompactedOnPreservesDense(t: seq<Column>, k: nat, b: nat)
    requires UniqueIds(t) && k < |t|
    requires Dense(t, b)
    ensures Dense(CompactedOn(t, t[k]), b)
  {
    var s := ExecuteOn(t, t[k].board, DecrementBelow(t[k].position));
    assert UniqueIds(s) by {
      forall i, j | 0 <= i < j < |s| ensures s[i].id != s[j].id {
        assert s[i].id == t[i].id && s[j].id == t[j].id;
      }
    }
    RemoveIdAt(s, k);
    CompactedOnInRange(t, k, b);
    CompactedOnDistinct(t, k, b);
    DenseAfterRemoval(s, k, b);
  }
}
