/**
  The small part of SQL the report queries rely on: NULL, three-valued logic,
  columns read through a left join, and lookups of a row by its key.
 */
module SqlNull {

  /** A value that may be NULL: a nullable column, or the row a left join did not find. */
  datatype Option<+T> = None | Some(value: T)

  /** The outcome of a query that yields one row or fails. */
  datatype Result<+T, +E> = Ok(value: T) | Err(error: E)

  /** `x IS NOT NULL`: always a definite truth value. */
  function IsNotNull<T>(x: Option<T>): bool
  {
    x.Some?
  }

  /** `x > y` for a nullable `x`: unknown (NULL) when `x` is NULL. */
  function Gt(x: Option<int>, y: int): Option<bool>
  {
    match x
    case None => None
    case Some(v) => Some(v > y)
  }

  /** Three-valued OR: TRUE if either side is TRUE, otherwise NULL if either side is NULL. */
  function Or(a: Option<bool>, b: Option<bool>): Option<bool>
  {
    if a == Some(true) || b == Some(true) then Some(true)
    else if a.None? || b.None? then None
    else Some(false)
  }

  /** `COALESCE(x, default)` */
  function Coalesce<T>(x: Option<T>, default: T): T
  {
    match x
    case None => default
    case Some(v) => v
  }

  /** A column read through a left join (`.nullable()`): NULL when the join found no row. */
  function Column<R, T>(row: Option<R>, column: R -> Option<T>): Option<T>
  {
    match row
    case None => None
    case Some(r) => column(r)
  }

  /** No two rows of `table` share a key: a primary key or a unique constraint. */
  ghost predicate UniqueKeys<R, K>(table: seq<R>, key: R -> K)
  {
    forall i, j | 0 <= i < j < |table| :: key(table[i]) != key(table[j])
  }

  /** The first row of `table` whose key is `k`; NULL when there is none. */
  function FindByKey<R(==), K(==)>(table: seq<R>, key: R -> K, k: K): (r: Option<R>)
    ensures r.Some? ==> r.value in table && key(r.value) == k
    ensures r.None? <==> forall i | 0 <= i < |table| :: key(table[i]) != k
  {
    if table == [] then None
    else if key(table[0]) == k then Some(table[0])
    else FindByKey(table[1..], key, k)
  }

  lemma UniqueKeysTail<R, K>(table: seq<R>, key: R -> K)
    requires table != [] && UniqueKeys(table, key)
    ensures UniqueKeys(table[1..], key)
  {
    var tail := table[1..];
    forall i, j | 0 <= i < j < |tail| ensures key(tail[i]) != key(tail[j]) {
      assert tail[i] == table[i + 1] && tail[j] == table[j + 1];
    }
  }

  /** Under a unique key, looking up the key of a row finds exactly that row. */
  lemma FindByKeyUnique<R, K>(table: seq<R>, key: R -> K, x: R)
    requires UniqueKeys(table, key)
    requires x in table
    ensures FindByKey(table, key, key(x)) == Some(x)
  {
    var i :| 0 <= i < |table| && table[i] == x;
    var found := FindByKey(table, key, key(x));
    assert found.Some?;
    var j :| 0 <= j < |table| && table[j] == found.value;
    if i < j {
      assert key(table[i]) != key(table[j]);
    } else if j < i {
      assert key(table[j]) != key(table[i]);
    }
  }
}
