/** Single-result repository queries (a derived query returning Optional):
    no matching row, exactly one, or more than one, which Spring Data
    reports as IncorrectResultSizeDataAccessException. */
module Queries {

  datatype Lookup<T> = NoRow | OneRow(row: T) | ManyRows

  /** The first index at or after `from` whose row satisfies p, or |rows|. */
  function FirstMatch<T>(rows: seq<T>, p: T -> bool, from: nat): (k: nat)
    requires from <= |rows|
    ensures from <= k <= |rows|
    ensures k < |rows| ==> p(rows[k])
    ensures forall i :: from <= i < k ==> !p(rows[i])
    decreases |rows| - from
  {
    if from == |rows| then from
    else if p(rows[from]) then from
    else FirstMatch(rows, p, from + 1)
  }

  /** The outcome of a single-result query whose WHERE clause is p. */
  function FindOne<T>(rows: seq<T>, p: T -> bool): (r: Lookup<T>)
    ensures r.NoRow? <==> forall i :: 0 <= i < |rows| ==> !p(rows[i])
    ensures r.ManyRows? <==> exists i, j :: 0 <= i < j < |rows| && p(rows[i]) && p(rows[j])
    ensures r.OneRow? ==> exists i :: 0 <= i < |rows| && rows[i] == r.row && p(r.row)
    ensures r.OneRow? ==> forall i, j :: 0 <= i < j < |rows| ==> !(p(rows[i]) && p(rows[j]))
  {
    var first := FirstMatch(rows, p, 0);
    if first == |rows| then NoRow
    else
      var second := FirstMatch(rows, p, first + 1);
      if second < |rows| then ManyRows
      else
        OneRow(rows[first])
  }
}
