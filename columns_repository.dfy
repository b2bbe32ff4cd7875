/** ColumnsRepository: the stored Columns table and the queries the column
    services run against it. */
module ColumnsStore {
  import opened Errors
  import opened ColumnTable

  /** The Columns table of the database, as the repository sees it. */
  class ColumnsRepository {
    /** The stored rows, in insertion order. */
    var rows: seq<Column>
    /** The id the identity column hands out next. */
    var nextId: nat

    /** The primary key is unique and every stored id was handed out. */
    ghost predicate Valid()
      reads this
    {
      && UniqueIds(rows)
      && forall i :: 0 <= i < |rows| ==> rows[i].id < nextId
    }

    constructor ()
      ensures Valid() && rows == [] && nextId == 1
    {
      rows := [];
      nextId := 1;
    }

    /** countColumnsByBoard: the number of rows of the board. */
    method CountColumnsByBoard(board: nat) returns (n: nat)
      ensures n == CountOnBoard(rows, board)
    {
      n := 0;
      var i := 0;
      while i < |rows|
        invariant 0 <= i <= |rows|
        invariant n == CountOnBoard(rows[..i], board)
      {
        assert rows[..i + 1] == rows[..i] + [rows[i]];
        CountConcat(rows[..i], [rows[i]], board);
        if rows[i].board == board {
          n := n + 1;
        }
        i := i + 1;
      }
      assert rows[..i] == rows;
    }

    /** findById: the row with that id, if one is stored. */
    method FindById(id: nat) returns (r: Option<Column>)
      ensures r == ColumnTable.FindById(rows, id)
    {
      var i := 0;
      while i < |rows|
        invariant 0 <= i <= |rows|
        invariant forall j :: 0 <= j < i ==> rows[j].id != id
      {
        if rows[i].id == id {
          assert IndexOf(rows, id) == i;
          return Some(rows[i]);
        }
        i := i + 1;
      }
      return None;
    }

    /** findAll: every stored row. */
    method FindAll() returns (r: seq<Column>)
      ensures r == rows
    {
      r := rows;
    }

    /** save of a new entity: the row gets the next generated id and is
        added at the end; the saved entity is returned. */
    method Insert(board: nat, position: int) returns (c: Column)
      requires Valid()
      modifies this
      ensures Valid()
      ensures c == Column(old(nextId), board, position)
      ensures rows == old(rows) + [c] && nextId == old(nextId) + 1
    {
      c := Column(nextId, board, position);
      rows := rows + [c];
      nextId := nextId + 1;
    }

    /** save of a loaded entity whose position was set: its row takes the
        new position. */
    method Save(c: Column)
      requires Valid()
      modifies this
      ensures Valid()
      ensures rows == WithPosition(old(rows), c.id, c.position) && nextId == old(nextId)
    {
      rows := WithPosition(rows, c.id, c.position);
    }

    /** deleteById: the row with that id goes; an unknown id is ignored. */
    method DeleteById(id: nat)
      requires Valid()
      modifies this
      ensures Valid()
      ensures rows == RemoveId(old(rows), id) && nextId == old(nextId)
    {
      RemoveIdKeepsUniqueIds(rows, id);
      RemoveIdKeepsOthers(rows, id);
      rows := RemoveId(rows, id);
    }

    /** A bulk UPDATE: each row in turn, of every board, is tested against
        the WHERE clause and moved when it matches. */
    method Run(u: BulkUpdate)
      requires Valid()
      modifies this
      ensures Valid()
      ensures rows == Execute(old(rows), u) && nextId == old(nextId)
    {
      ghost var target := Execute(rows, u);
      var i := 0;
      while i < |rows|
        invariant 0 <= i <= |rows| == |target| && nextId == old(nextId)
        invariant forall j :: 0 <= j < i ==> rows[j] == target[j]
        invariant forall j :: i <= j < |rows| ==> rows[j] == old(rows)[j]
      {
        var c := rows[i];
        if u.Matches(c.position) {
          rows := rows[i := c.(position := c.position + u.Delta())];
        }
        i := i + 1;
      }
      assert rows == target;
      assert forall j :: 0 <= j < |rows| ==> rows[j].id == old(rows)[j].id;
    }

    /** incrementBelowToPosition: position + 1 where newPosition <= position < oldPosition. */
    method IncrementBelowToPosition(newPosition: int, oldPosition: int)
      requires Valid()
      modifies this
      ensures Valid()
      ensures rows == Execute(old(rows), IncrementBelowTo(newPosition, oldPosition)) && nextId == old(nextId)
    {
      Run(IncrementBelowTo(newPosition, oldPosition));
    }

    /** decrementAboveToPosition: position - 1 where oldPosition < position <= newPosition. */
    method DecrementAboveToPosition(newPosition: int, oldPosition: int)
      requires Valid()
      modifies this
      ensures Valid()
      ensures rows == Execute(old(rows), DecrementAboveTo(newPosition, oldPosition)) && nextId == old(nextId)
    {
      Run(DecrementAboveTo(newPosition, oldPosition));
    }

    /** decrementBelow: position - 1 where position >= the given position. */
    method DecrementBelow(position: int)
      requires Valid()
      modifies this
      ensures Valid()
      ensures rows == Execute(old(rows), BulkUpdate.DecrementBelow(position)) && nextId == old(nextId)
    {
      Run(BulkUpdate.DecrementBelow(position));
    }
  }
}
