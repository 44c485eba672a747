/**
 The part of the database query layer the authentication routes rely on:
 `Model.query.filter_by(column=value).first()` over a table whose rows are
 kept in insertion order.
 */
module Query {

  datatype Option<+T> = None | Some(value: T)

  /** The position of the first row, in insertion order, that passes the
      filter, or None when no row does. */
  function FirstWhere<R>(rows: seq<R>, matches: R -> bool): (r: Option<nat>)
    ensures r.Some? ==> r.value < |rows| && matches(rows[r.value])
    ensures r.Some? ==> forall j :: 0 <= j < r.value ==> !matches(rows[j])
    ensures r.None? ==> forall j :: 0 <= j < |rows| ==> !matches(rows[j])
  {
    if |rows| == 0 then None
    else if matches(rows[0]) then Some(0)
    else match FirstWhere(rows[1..], matches)
      case None => None
      case Some(i) => Some(i + 1)
  }

  /** Appending rows never changes which row a query finds first, once one
      matches. */
  lemma FirstWhereStable<R>(rows: seq<R>, more: seq<R>, matches: R -> bool)
    requires FirstWhere(rows, matches).Some?
    ensures FirstWhere(rows + more, matches) == FirstWhere(rows, matches)
  {
    var i := FirstWhere(rows, matches).value;
    assert (rows + more)[i] == rows[i];
    assert forall j :: 0 <= j < i ==> (rows + more)[j] == rows[j];
  }
}
