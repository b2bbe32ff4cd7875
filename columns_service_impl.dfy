/** ColumnsServiceImpl: the current column service, with typed business
    errors and gap-closing delete. */
module ColumnsServiceCurrent {
  import opened Errors
  import opened ColumnTable
  import opened ColumnOrdering
  import opened ColumnsStore

  class ColumnsServiceImpl {
    /** The Columns table the service updates. */
    const columns: ColumnsRepository
    /** The ids of the stored boards (BoardRepository), which this service
        only reads. */
    const boards: set<nat>

    constructor (columns: ColumnsRepository, boards: set<nat>)
      ensures this.columns == columns && this.boards == boards
    {
      this.columns := columns;
      this.boards := boards;
    }

    /** findColumn: the stored row with that id, or COLUMN_NOT_FOUND. */
    method FindColumn(columnId: nat) returns (r: Result<Column>)
      ensures r.Err? <==> forall i :: 0 <= i < |columns.rows| ==> columns.rows[i].id != columnId
      ensures r.Err? ==> r.failure == Business(ColumnNotFound)
      ensures r.Ok? ==> r.value in columns.rows && r.value.id == columnId
      ensures r.Ok? ==> r.value == ColumnTable.FindById(columns.rows, columnId).value
    {
      var found := columns.FindById(columnId);
      if found.None? {
        return Err(Business(ColumnNotFound));
      }
      return Ok(found.value);
    }

    /** addColumns: on a stored board, a new row at position N, the board's
        count; every board's invariant is kept. An unknown board raises
        BOARD_NOT_FOUND and stores nothing. */
    method AddColumns(boardId: nat) returns (r: Result<()>)
      requires columns.Valid()
      modifies columns
      ensures columns.Valid()
      ensures boardId !in boards ==>
        r == Err(Business(BoardNotFound)) && columns.rows == old(columns.rows) && columns.nextId == old(columns.nextId)
      ensures boardId in boards ==>
        && r == Ok(())
        && columns.rows == Appended(old(columns.rows), old(columns.nextId), boardId)
        && columns.nextId == old(columns.nextId) + 1
      ensures forall b :: old(Dense(columns.rows, b)) ==> Dense(columns.rows, b)
    {
      if boardId !in boards {
        return Err(Business(BoardNotFound));
      }
      ghost var t := columns.rows;
      var position := columns.CountColumnsByBoard(boardId);
      var saved := columns.Insert(boardId, position);
      forall b | Dense(t, b) ensures Dense(columns.rows, b) {
        AddPreservesDense(t, saved.id, boardId, b);
      }
      r := Ok(());
    }

    /** updateColumns: looks the column up (COLUMN_NOT_FOUND when it is not
        stored) and changes no position. */
    method UpdateColumns(columnId: nat) returns (r: Result<()>)
      ensures r.Err? <==> ColumnTable.FindById(columns.rows, columnId).None?
      ensures r.Err? ==> r.failure == Business(ColumnNotFound)
    {
      var found := FindColumn(columnId);
      if found.Err? {
        return Err(found.failure);
      }
      r := Ok(());
    }

    /** deleteColumns: lowers every row at or after the column's position,
        then removes the column. If the column's board was in order, it is
        in order again, whatever other boards the table holds (the shift
        disturbs those). An unknown id raises COLUMN_NOT_FOUND and changes
        nothing. */
    method DeleteColumns(columnId: nat) returns (r: Result<()>)
      requires columns.Valid()
      modifies columns
      ensures columns.Valid() && columns.nextId == old(columns.nextId)
      ensures var found := ColumnTable.FindById(old(columns.rows), columnId);
        found.None? ==> r == Err(Business(ColumnNotFound)) && columns.rows == old(columns.rows)
      ensures var found := ColumnTable.FindById(old(columns.rows), columnId);
        found.Some? ==> r == Ok(()) && columns.rows == Compacted(old(columns.rows), found.value)
      ensures var found := ColumnTable.FindById(old(columns.rows), columnId);
        found.Some? && old(Dense(columns.rows, found.value.board)) ==> Dense(columns.rows, found.value.board)
      ensures var found := ColumnTable.FindById(old(columns.rows), columnId);
        found.Some? && old(SingleBoard(columns.rows, found.value.board)) ==> SingleBoard(columns.rows, found.value.board)
    {
      ghost var t := columns.rows;
      var found := FindColumn(columnId);
      if found.Err? {
        return Err(found.failure);
      }
      var c := found.value;
      columns.DecrementBelow(c.position);
      columns.DeleteById(columnId);
      ghost var k := IndexOf(t, columnId);
      DeleteKeepsOrder(t, k);
      r := Ok(());
    }

    /** reorder: shifts the rows between the old and the new position, then
        saves the column at the new position. If the column's board of N
        columns was in order and the target is in [0, N), that board stays
        in order (the shift may disturb other boards). An unknown id raises
        COLUMN_NOT_FOUND and changes nothing. */
    method Reorder(columnId: nat, newPosition: int) returns (r: Result<()>)
      requires columns.Valid()
      modifies columns
      ensures columns.Valid() && columns.nextId == old(columns.nextId)
      ensures var found := ColumnTable.FindById(old(columns.rows), columnId);
        found.None? ==> r == Err(Business(ColumnNotFound)) && columns.rows == old(columns.rows)
      ensures var found := ColumnTable.FindById(old(columns.rows), columnId);
        found.Some? ==> r == Ok(()) && columns.rows == Reordered(old(columns.rows), found.value, newPosition)
      ensures var found := ColumnTable.FindById(old(columns.rows), columnId);
        && found.Some? && 0 <= newPosition < old(CountOnBoard(columns.rows, found.value.board))
        && old(Dense(columns.rows, found.value.board)) ==>
          Dense(columns.rows, found.value.board)
      ensures var found := ColumnTable.FindById(old(columns.rows), columnId);
        found.Some? && old(SingleBoard(columns.rows, found.value.board)) ==> SingleBoard(columns.rows, found.value.board)
    {
      ghost var t := columns.rows;
      var found := FindColumn(columnId);
      if found.Err? {
        return Err(found.failure);
      }
      var c := found.value;
      var oldPosition := c.position;
      if newPosition > oldPosition {
        columns.DecrementAboveToPosition(newPosition, oldPosition);
      } else {
        columns.IncrementBelowToPosition(newPosition, oldPosition);
      }
      assert columns.rows == Execute(t, ReorderShift(oldPosition, newPosition));
      columns.Save(c.(position := newPosition));
      assert columns.rows == Reordered(t, c, newPosition);
      ghost var k := IndexOf(t, columnId);
      ReorderKeepsOrder(t, k, newPosition);
      r := Ok(());
    }
  }
}
