/** The Columns table as a value: the rows the repository stores, the three
    bulk position updates it runs, and the ordering invariant the column
    services are meant to keep. */
module ColumnTable {
  import opened Errors

  /** One row of the Columns table: generated id, owning board, display position. */
  datatype Column = Column(id: nat, board: nat, position: int)

  /** The three bulk UPDATE queries of ColumnsRepository: the rows their WHERE
      clause selects and what their SET clause adds. None of them has a board
      predicate: they select rows of every board. */
  datatype BulkUpdate =
    | IncrementBelowTo(newPosition: int, oldPosition: int)
    | DecrementAboveTo(newPosition: int, oldPosition: int)
    | DecrementBelow(position: int)
  {
    /** The WHERE clause, on the row's current position. */
    predicate Matches(p: int) {
      match this
      case IncrementBelowTo(n, o) => p >= n && p < o
      case DecrementAboveTo(n, o) => p <= n && p > o
      case DecrementBelow(q) => p >= q
    }

    /** The SET clause: position = position + Delta(). */
    function Delta(): int {
      if IncrementBelowTo? then 1 else -1
    }
  }

  /** Ids are the table's primary key. */
  predicate UniqueIds(t: seq<Column>) {
    forall i, j :: 0 <= i < j < |t| ==> t[i].id != t[j].id
  }

  /** Every row belongs to the given board. */
  predicate SingleBoard(t: seq<Column>, board: nat) {
    forall i :: 0 <= i < |t| ==> t[i].board == board
  }

  // ---------------------------------------------------------------------
  // Queries
  // ---------------------------------------------------------------------

  /** countColumnsByBoard: the number of rows of one board. */
  function CountOnBoard(t: seq<Column>, board: nat): (n: nat)
    ensures n <= |t|
    ensures n == |t| <==> SingleBoard(t, board)
    ensures n == 0 <==> forall i :: 0 <= i < |t| ==> t[i].board != board
  {
    if t == [] then 0
    else
      assert SingleBoard(t, board) <==> t[0].board == board && SingleBoard(t[1..], board) by {
        if t[0].board == board && SingleBoard(t[1..], board) {
          forall i | 0 <= i < |t| ensures t[i].board == board {
            if i > 0 { assert t[i] == t[1..][i - 1]; }
          }
        }
      }
      (if t[0].board == board then 1 else 0) + CountOnBoard(t[1..], board)
  }

  /** The index of the first row with the given id, or |t| when there is none. */
  function IndexOf(t: seq<Column>, id: nat): (k: nat)
    ensures k <= |t|
    ensures k < |t| ==> t[k].id == id
    ensures forall i :: 0 <= i < k ==> t[i].id != id
  {
    if t == [] then 0
    else if t[0].id == id then 0
    else 1 + IndexOf(t[1..], id)
  }

  /** findById: the row with the given id, if any. */
  function FindById(t: seq<Column>, id: nat): (r: Option<Column>)
    ensures r.None? <==> forall i :: 0 <= i < |t| ==> t[i].id != id
    ensures r.Some? ==> r.value in t && r.value.id == id
  {
    var k := IndexOf(t, id);
    if k < |t| then Some(t[k]) else None
  }

  // ---------------------------------------------------------------------
  // Updates
  // ---------------------------------------------------------------------

  /** A bulk UPDATE as the repository runs it: every selected row, of any
      board, moves by Delta(); the others, and every id and board, stay. */
  function Execute(t: seq<Column>, u: BulkUpdate): (r: seq<Column>)
    ensures |r| == |t|
    ensures forall i :: 0 <= i < |t| ==> r[i].id == t[i].id && r[i].board == t[i].board
    ensures forall i :: 0 <= i < |t| && u.Matches(t[i].position) ==> r[i].position == t[i].position + u.Delta()
    ensures forall i :: 0 <= i < |t| && !u.Matches(t[i].position) ==> r[i] == t[i]
  {
    if t == [] then []
    else
      var c := t[0];
      [if u.Matches(c.position) then c.(position := c.position + u.Delta()) else c] + Execute(t[1..], u)
  }

  /** save of an entity whose position was set: the row with that id gets the
      position, every other row is kept. */
  function WithPosition(t: seq<Column>, id: nat, p: int): (r: seq<Column>)
    ensures |r| == |t|
    ensures forall i :: 0 <= i < |t| ==> r[i].id == t[i].id && r[i].board == t[i].board
    ensures forall i :: 0 <= i < |t| && t[i].id == id ==> r[i].position == p
    ensures forall i :: 0 <= i < |t| && t[i].id != id ==> r[i] == t[i]
  {
    if t == [] then []
    else
      var c := t[0];
      [if c.id == id then c.(position := p) else c] + WithPosition(t[1..], id, p)
  }

  /** The table with row k taken out, the others in order. */
  function RemoveAt(t: seq<Column>, k: nat): (r: seq<Column>)
    requires k < |t|
    ensures |r| == |t| - 1
    ensures forall i :: 0 <= i < k ==> r[i] == t[i]
    ensures forall i :: k <= i < |r| ==> r[i] == t[i + 1]
  {
    t[..k] + t[k + 1..]
  }

  /** deleteById: the row with that id goes, the others keep their order;
      an unknown id changes nothing. */
  function RemoveId(t: seq<Column>, id: nat): (r: seq<Column>)
    ensures (forall i :: 0 <= i < |t| ==> t[i].id != id) ==> r == t
    ensures (exists i :: 0 <= i < |t| && t[i].id == id) ==> |r| == |t| - 1
  {
    var k := IndexOf(t, id);
    if k < |t| then RemoveAt(t, k) else t
  }

  /** deleteById removes the row with that id and no other row. */
  lemma RemoveIdKeepsOthers(t: seq<Column>, id: nat)
    requires UniqueIds(t)
    ensures forall c :: c in RemoveId(t, id) <==> c in t && c.id != id
  {
    var k := IndexOf(t, id);
    if k < |t| {
      var r := RemoveAt(t, k);
      forall c ensures c in r <==> c in t && c.id != id {
        if c in t && c.id != id {
          var i :| 0 <= i < |t| && t[i] == c;
          if i < k { assert r[i] == c; } else { assert r[i - 1] == c; }
        }
        if c in r {
          var i :| 0 <= i < |r| && r[i] == c;
          if i < k { assert t[i] == c; } else { assert t[i + 1] == c; }
        }
      }
    }
  }

  /** deleteById keeps the primary key unique. */
  lemma RemoveIdKeepsUniqueIds(t: seq<Column>, id: nat)
    requires UniqueIds(t)
    ensures UniqueIds(RemoveId(t, id))
  {
    var k := IndexOf(t, id);
    if k < |t| {
      var r := RemoveAt(t, k);
      forall i, j | 0 <= i < j < |r| ensures r[i].id != r[j].id {
        var i', j' := if i < k then i else i + 1, if j < k then j else j + 1;
        assert r[i] == t[i'] && r[j] == t[j'];
      }
    }
  }

  /** Removing a row by id is removing it at its index when ids are unique. */
  lemma RemoveIdAt(t: seq<Column>, k: nat)
    requires UniqueIds(t) && k < |t|
    ensures RemoveId(t, t[k].id) == RemoveAt(t, k)
  {
    assert IndexOf(t, t[k].id) == k;
  }

  // ---------------------------------------------------------------------
  // The ordering invariant and its meaning
  // ---------------------------------------------------------------------

  /** No two rows of the board share a position. */
  predicate DistinctOn(t: seq<Column>, board: nat) {
    forall i, j :: 0 <= i < j < |t| && t[i].board == board && t[j].board == board ==> t[i].position != t[j].position
  }

  /** The ordering invariant of one board with N columns: its positions are
      pairwise distinct and lie in [0, N). DenseIsPermutation shows that this
      is exactly "the positions are 0..N-1". */
  predicate Dense(t: seq<Column>, board: nat) {
    && DistinctOn(t, board)
    && forall i :: 0 <= i < |t| && t[i].board == board ==> 0 <= t[i].position < CountOnBoard(t, board)
  }

  /** The set of positions the board's rows hold. */
  function PositionsOn(t: seq<Column>, board: nat): (s: set<int>)
    ensures forall i :: 0 <= i < |t| && t[i].board == board ==> t[i].position in s
    ensures forall p :: p in s ==> exists i :: 0 <= i < |t| && t[i].board == board && t[i].position == p
  {
    if t == [] then {}
    else
      var rest := PositionsOn(t[1..], board);
      assert forall i :: 1 <= i < |t| && t[i].board == board ==> t[i].position in rest by {
        forall i | 1 <= i < |t| && t[i].board == board ensures t[i].position in rest {
          assert t[i] == t[1..][i - 1];
        }
      }
      assert forall p :: p in rest ==> exists i :: 0 <= i < |t| && t[i].board == board && t[i].position == p by {
        forall p | p in rest ensures exists i :: 0 <= i < |t| && t[i].board == board && t[i].position == p {
          var j :| 0 <= j < |t[1..]| && t[1..][j].board == board && t[1..][j].position == p;
          assert t[j + 1] == t[1..][j];
        }
      }
      (if t[0].board == board then {t[0].position} else {}) + rest
  }

  /** The positions 0..n-1. */
  function Range(n: nat): (s: set<int>)
    ensures forall p :: p in s <==> 0 <= p < n
    ensures |s| == n
  {
    if n == 0 then {} else Range(n - 1) + {n - 1}
  }

  lemma DistinctOnTail(t: seq<Column>, board: nat)
    requires t != []
    ensures DistinctOn(t, board) <==>
      && DistinctOn(t[1..], board)
      && (t[0].board == board ==> forall j :: 1 <= j < |t| && t[j].board == board ==> t[j].position != t[0].position)
  {
    if DistinctOn(t, board) {
      forall i, j | 0 <= i < j < |t[1..]| && t[1..][i].board == board && t[1..][j].board == board
        ensures t[1..][i].position != t[1..][j].position
      {
        assert t[1..][i] == t[i + 1] && t[1..][j] == t[j + 1];
      }
    }
  }

  lemma HeadPositionRepeated(t: seq<Column>, board: nat)
    requires t != [] && t[0].board == board && t[0].position in PositionsOn(t[1..], board)
    ensures PositionsOn(t, board) == PositionsOn(t[1..], board)
    ensures !DistinctOn(t, board)
  {
    var rest := PositionsOn(t[1..], board);
    var j :| 0 <= j < |t[1..]| && t[1..][j].board == board && t[1..][j].position == t[0].position;
    assert t[j + 1] == t[1..][j];
  }

  lemma HeadPositionFresh(t: seq<Column>, board: nat)
    requires t != [] && t[0].board == board && t[0].position !in PositionsOn(t[1..], board)
    ensures forall j :: 1 <= j < |t| && t[j].board == board ==> t[j].position != t[0].position
  {
    forall j | 1 <= j < |t| && t[j].board == board ensures t[j].position != t[0].position {
      assert t[j] == t[1..][j - 1];
    }
  }

  /** A board's rows hold at most as many positions as there are rows, and
      exactly as many when no two share one. */
  lemma {:induction false} PositionsCount(t: seq<Column>, board: nat)
    ensures |PositionsOn(t, board)| <= CountOnBoard(t, board)
    ensures DistinctOn(t, board) <==> |PositionsOn(t, board)| == CountOnBoard(t, board)
  {
    if t != [] {
      PositionsCount(t[1..], board);
      DistinctOnTail(t, board);
      var rest := PositionsOn(t[1..], board);
      if t[0].board == board {
        var p := t[0].position;
        if p in rest {
          HeadPositionRepeated(t, board);
        } else {
          HeadPositionFresh(t, board);
        }
      }
    }
  }

  lemma SameSizeSubsetIsEqual(a: set<int>, b: set<int>)
    requires a <= b && |a| == |b|
    ensures a == b
  {
    assert a * b == a;
    assert |b - a| == 0;
  }

  /** The invariant means what it is meant to: a board with N columns is
      Dense exactly when its positions are the set 0..N-1 (no gap, and, by
      counting, no duplicate). */
  lemma DenseIsPermutation(t: seq<Column>, board: nat)
    ensures Dense(t, board) <==> PositionsOn(t, board) == Range(CountOnBoard(t, board))
  {
    var s, n := PositionsOn(t, board), CountOnBoard(t, board);
    PositionsCount(t, board);
    if Dense(t, board) {
      assert s <= Range(n);
      SameSizeSubsetIsEqual(s, Range(n));
    }
  }

  /** Counting distributes over concatenation. */
  lemma {:induction false} CountConcat(a: seq<Column>, b: seq<Column>, board: nat)
    ensures CountOnBoard(a + b, board) == CountOnBoard(a, board) + CountOnBoard(b, board)
  {
    if a == [] {
      assert a + b == b;
    } else {
      assert (a + b)[0] == a[0];
      assert (a + b)[1..] == a[1..] + b;
      CountConcat(a[1..], b, board);
    }
  }

  /** Tables with the same boards row by row have the same counts. */
  lemma {:induction false} SameBoardsSameCount(t: seq<Column>, r: seq<Column>, board: nat)
    requires |t| == |r|
    requires forall i :: 0 <= i < |t| ==> t[i].board == r[i].board
    ensures CountOnBoard(t, board) == CountOnBoard(r, board)
  {
    if t != [] {
      SameBoardsSameCount(t[1..], r[1..], board);
    }
  }

  /** Two tables with the same boards row by row, whose rows of one board
      hold the same positions, agree on that board's ordering invariant,
      whatever the other boards hold. */
  lemma {:induction false} SameBoardRowsSameDense(t: seq<Column>, r: seq<Column>, board: nat)
    requires |t| == |r|
    requires forall i :: 0 <= i < |t| ==> t[i].board == r[i].board
    requires forall i :: 0 <= i < |t| && t[i].board == board ==> t[i].position == r[i].position
    ensures Dense(t, board) <==> Dense(r, board)
  {
    SameBoardsSameCount(t, r, board);
  }

  lemma {:induction false} CountRemoved(s: seq<Column>, k: nat, board: nat)
    requires k < |s|
    ensures CountOnBoard(RemoveAt(s, k), board) == CountOnBoard(s, board) - (if s[k].board == board then 1 else 0)
  {
    if k == 0 {
      assert RemoveAt(s, k) == s[1..];
    } else {
      assert RemoveAt(s, k) == [s[0]] + RemoveAt(s[1..], k - 1);
      CountRemoved(s[1..], k - 1, board);
      CountConcat([s[0]], RemoveAt(s[1..], k - 1), board);
    }
  }

  /** The rows other than row k lie in [0, M), M being the board's count
      once row k is gone. */
  predicate InRangeWithout(s: seq<Column>, k: nat, board: nat)
    requires k < |s|
  {
    forall j :: 0 <= j < |s| && j != k && s[j].board == board ==>
      0 <= s[j].position < CountOnBoard(s, board) - (if s[k].board == board then 1 else 0)
  }

  /** The rows other than row k have distinct positions. */
  predicate DistinctWithout(s: seq<Column>, k: nat, board: nat) {
    forall i, j :: 0 <= i < j < |s| && i != k && j != k && s[i].board == board && s[j].board == board ==>
      s[i].position != s[j].position
  }

  /** The invariant of a table with row k taken out, from facts about the
      rows that stay. */
  lemma {:induction false} DenseAfterRemoval(s: seq<Column>, k: nat, board: nat)
    requires k < |s|
    requires InRangeWithout(s, k, board) && DistinctWithout(s, k, board)
    ensures Dense(RemoveAt(s, k), board)
  {
    var r := RemoveAt(s, k);
    CountRemoved(s, k, board);
    forall i, j | 0 <= i < j < |r| && r[i].board == board && r[j].board == board
      ensures r[i].position != r[j].position
    {
      var i', j' := if i < k then i else i + 1, if j < k then j else j + 1;
      assert r[i] == s[i'] && r[j] == s[j'];
    }
    forall i | 0 <= i < |r| && r[i].board == board
      ensures 0 <= r[i].position < CountOnBoard(r, board)
    {
      assert r[i] == s[if i < k then i else i + 1];
    }
  }
}
