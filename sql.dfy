/** The meaning of the three SQL shapes the store issues against one table,
    with the table as a sequence of rows:
    - `SELECT ... WHERE cond`                 is Where,
    - `DELETE ... WHERE version >= from`      is DeleteFrom,
    - `... ORDER BY version DESC LIMIT 1`     is Top.
    The order of a table's rows carries no meaning to SQL; the sequence order
    only fixes which of several rows of equal version Top returns. */
module Sql {
  import opened Rows

  /** The rows that satisfy `cond`, each as many times as it occurs. */
  function Where<T(==,!new)>(rows: seq<T>, cond: T -> bool): (r: seq<T>)
    ensures forall x :: x in r <==> x in rows && cond(x)
    ensures forall x :: multiset(r)[x] == if cond(x) then multiset(rows)[x] else 0
  {
    if rows == [] then []
    else
      assert rows == [rows[0]] + rows[1..];
      (if cond(rows[0]) then [rows[0]] else []) + Where(rows[1..], cond)
  }

  /** The table left by deleting every row whose version is at least `from`:
      those rows are gone, every other row stays as many times as it was there. */
  function DeleteFrom<T(==,!new)>(rows: seq<T>, version: T -> int, from: int): (r: seq<T>)
    ensures forall x :: x in r <==> x in rows && version(x) < from
    ensures forall x :: multiset(r)[x] == if version(x) >= from then 0 else multiset(rows)[x]
  {
    if rows == [] then []
    else
      assert rows == [rows[0]] + rows[1..];
      (if version(rows[0]) >= from then [] else [rows[0]]) + DeleteFrom(rows[1..], version, from)
  }

  /** The first row of the table ordered by descending version: a row of
      greatest version, or None for an empty table. Among rows of equal
      version the earliest one is taken. */
  function Top<T(==,!new)>(rows: seq<T>, version: T -> int): (r: Option<T>)
    ensures r.None? <==> rows == []
    ensures r.Some? ==> r.value in rows && forall x :: x in rows ==> version(x) <= version(r.value)
  {
    if rows == [] then None
    else
      match Top(rows[1..], version)
      case None => Some(rows[0])
      case Some(best) => if version(best) > version(rows[0]) then Some(best) else Some(rows[0])
  }

  /** Selecting from two parts of a table selects from each part. */
  lemma {:induction false} WhereConcat<T(!new)>(a: seq<T>, b: seq<T>, cond: T -> bool)
    ensures Where(a + b, cond) == Where(a, cond) + Where(b, cond)
  {
    if a == [] {
      assert a + b == b;
    } else {
      assert (a + b)[0] == a[0];
      assert (a + b)[1..] == a[1..] + b;
      WhereConcat(a[1..], b, cond);
    }
  }

  /** A range delete is a selection of the rows below the range. */
  lemma {:induction false} DeleteFromIsWhere<T(!new)>(rows: seq<T>, version: T -> int, from: int, below: T -> bool)
    requires forall x :: below(x) <==> version(x) < from
    ensures DeleteFrom(rows, version, from) == Where(rows, below)
  {
    if rows != [] {
      DeleteFromIsWhere(rows[1..], version, from, below);
    }
  }

  /** Two selections in a row are one selection by both conditions. */
  lemma {:induction false} WhereOfWhere<T(!new)>(rows: seq<T>, outer: T -> bool, inner: T -> bool, both: T -> bool)
    requires forall x :: both(x) <==> outer(x) && inner(x)
    ensures Where(Where(rows, inner), outer) == Where(rows, both)
  {
    if rows != [] {
      WhereOfWhere(rows[1..], outer, inner, both);
      var head := if inner(rows[0]) then [rows[0]] else [];
      WhereConcat(head, Where(rows[1..], inner), outer);
    }
  }

  /** A selection that keeps nothing at or above `from` is unaffected by
      deleting from `from`: the rows it selects all survive the delete. */
  lemma WhereAfterDelete<T(!new)>(rows: seq<T>, version: T -> int, from: int, cond: T -> bool)
    requires forall x :: cond(x) ==> version(x) < from
    ensures Where(DeleteFrom(rows, version, from), cond) == Where(rows, cond)
  {
    var below := x => version(x) < from;
    DeleteFromIsWhere(rows, version, from, below);
    WhereOfWhere(rows, cond, below, cond);
  }
}
