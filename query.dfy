/**
 * The lookup both core files rely on: the first row of a table that
 * satisfies a filter, standing for SQLAlchemy's `query.filter(...).first()`,
 * or the position of a key in an insertion-ordered dictionary.
 *
 * SQL fixes no row order without `ORDER BY`, so the database may return any
 * matching row; taking the first in row order is one admissible choice.
 * Nothing observable depends on it: every lookup in the code is on a unique
 * column, where at most one row matches, or is only tested for existence.
 */
module Query {
  import opened Wrappers

  /** The index of the first element of `rows` that satisfies `p`, if any. */
  function First<T>(rows: seq<T>, p: T -> bool): (r: Option<nat>)
    ensures r.Some? ==> r.value < |rows| && p(rows[r.value])
    ensures r.Some? ==> forall j :: 0 <= j < r.value ==> !p(rows[j])
    ensures r.None? ==> forall j :: 0 <= j < |rows| ==> !p(rows[j])
  {
    if |rows| == 0 then None
    else if p(rows[0]) then Some(0)
    else match First(rows[1..], p)
      case None => None
      case Some(k) => Some(k + 1)
  }

  /**
   * Two tables whose rows agree on the filter, position by position, have
   * their first match at the same position.
   */
  lemma FirstAgrees<T>(rows: seq<T>, rows': seq<T>, p: T -> bool, p': T -> bool)
    requires |rows| == |rows'|
    requires forall j :: 0 <= j < |rows| ==> p(rows[j]) == p'(rows'[j])
    ensures First(rows, p) == First(rows', p')
  {
  }
}
