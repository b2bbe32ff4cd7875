/** ColumnsService: the legacy column service. It raises
    IllegalArgumentException instead of business errors, returns the
    entities it saves, and deletes without closing the gap. */
module ColumnsServiceLegacy {
  import opened Errors
  import opened ColumnTable
  import opened ColumnOrdering
  import opened ColumnsStore

  class ColumnsService {
    /** The Columns table the service updates. */
    const columns: ColumnsRepository
    /** The ids of the stored boards, which this service only reads. */
    const boards: set<nat>

    constructor (columns: ColumnsRepository, boards: set<nat>)
      ensures this.columns == columns && this.boards == boards
    {
      this.columns := columns;
      this.boards := boards;
    }

    /** addColumns: the saved column, at position N on its board of N
        columns; an unknown board raises IllegalArgumentException and
        stores nothing. */
    method AddColumns(boardId: nat) returns (r: Result<Column>)
      requires columns.Valid()
      modifies columns
      ensures columns.Valid()
      ensures boardId !in boards ==>
        r == Err(IllegalArgument) && columns.rows == old(columns.rows) && columns.nextId == old(columns.nextId)
      ensures boardId in boards ==>
        && r == Ok(Column(old(columns.nextId), boardId, old(CountOnBoard(columns.rows, boardId))))
        && columns.rows == Appended(old(columns.rows), old(columns.nextId), boardId)
        && columns.nextId == old(columns.nextId) + 1
      ensures forall b :: old(Dense(columns.rows, b)) ==> Dense(columns.rows, b)
    {
      if boardId !in boards {
        return Err(IllegalArgument);
      }
      ghost var t := columns.rows;
      var position := columns.CountColumnsByBoard(boardId);
      var saved := columns.Insert(boardId, position);
      forall b | Dense(t, b) ensures Dense(columns.rows, b) {
        AddPreservesDense(t, saved.id, boardId, b);
      }
      r := Ok(saved);
    }

    /** updateColumns: the stored column with that id, position untouched;
        an unknown id raises IllegalArgumentException. */
    method UpdateColumns(columnId: nat) returns (r: Result<Column>)
      ensures r.Err? <==> forall i :: 0 <= i < |columns.rows| ==> columns.rows[i].id != columnId
      ensures r.Err? ==> r.failure == IllegalArgument
      ensures r.Ok? ==> r.value in columns.rows && r.value.id == columnId
    {
      var found := columns.FindById(columnId);
      if found.None? {
        return Err(IllegalArgument);
      }
      r := Ok(found.value);
    }

    /** deleteColumns: removes the row and shifts nothing, so a board in
        order stays in order exactly when its last column was deleted. An
        unknown id is ignored. */
    method DeleteColumns(columnId: nat)
      requires columns.Valid()
      modifies columns
      ensures columns.Valid() && columns.nextId == old(columns.nextId)
      ensures columns.rows == RemoveId(old(columns.rows), columnId)
      ensures var found := ColumnTable.FindById(old(columns.rows), columnId);
        found.Some? && old(Dense(columns.rows, found.value.board)) ==>
          (Dense(columns.rows, found.value.board) <==>
           found.value.position == old(CountOnBoard(columns.rows, found.value.board)) - 1)
    {
      ghost var t := columns.rows;
      columns.DeleteById(columnId);
      ghost var k := IndexOf(t, columnId);
      if k < |t| && Dense(t, t[k].board) {
        LegacyDeleteKeepsDenseIffLast(t, k);
      }
    }

    /** getColumns: every stored column, of every board, in storage order. */
    method GetColumns() returns (r: seq<Column>)
      ensures r == columns.rows
    {
      r := columns.FindAll();
    }

    /** reorder: the same shift-then-save as the current service; an
        unknown id raises IllegalArgumentException and changes nothing. */
    method Reorder(columnId: nat, newPosition: int) returns (r: Result<()>)
      requires columns.Valid()
      modifies columns
      ensures columns.Valid() && columns.nextId == old(columns.nextId)
      ensures var found := ColumnTable.FindById(old(columns.rows), columnId);
        found.None? ==> r == Err(IllegalArgument) && columns.rows == old(columns.rows)
      ensures var found := ColumnTable.FindById(old(columns.rows), columnId);
        found.Some? ==> r == Ok(()) && columns.rows == Reordered(old(columns.rows), found.value, newPosition)
      ensures var found := ColumnTable.FindById(old(columns.rows), columnId);
        found.Some? && newPosition == found.value.position ==> columns.rows == old(columns.rows)
      ensures var found := ColumnTable.FindById(old(columns.rows), columnId);
        && found.Some? && 0 <= newPosition < old(CountOnBoard(columns.rows, found.value.board))
        && old(Dense(columns.rows, found.value.board)) ==>
          Dense(columns.rows, found.value.board)
      ensures var found := ColumnTable.FindById(old(columns.rows), columnId);
        found.Some? && old(SingleBoard(columns.rows, found.value.board)) ==> SingleBoard(columns.rows, found.value.board)
    {
      ghost var t := columns.rows;
      var found := columns.FindById(columnId);
      if found.None? {
        return Err(IllegalArgument);
      }
      var c := found.value;
      var oldPosition := c.position;
      if newPosition > oldPosition {
        columns.DecrementAboveToPosition(newPosition, oldPosition);
      } else {
        columns.IncrementBelowToPosition(newPosition, oldPosition);
      }
      assert columns.rows == Execute(t, ReorderShift(oldPosition, newPosition));
      columns.Save(c.(position := newPosition));
      assert columns.rows == Reordered(t, c, newPosition);
      ghost var k := IndexOf(t, columnId);
      if newPosition == oldPosition {
        ReorderToSamePositionIsNoOp(t, k);
      }
      ReorderKeepsOrder(t, k, newPosition);
      r := Ok(());
    }
  }
}
