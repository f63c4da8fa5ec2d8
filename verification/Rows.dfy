/** A SELECT without ORDER BY: every row once, in whatever order the engine likes. */
module Rows {
  ghost predicate Lists<K(!new), V(!new)>(rows: seq<(K, V)>, table: map<K, V>) {
    && (forall i, j | 0 <= i < j < |rows| :: rows[i].0 != rows[j].0)
    && (forall i | 0 <= i < |rows| :: rows[i].0 in table && table[rows[i].0] == rows[i].1)
    && (forall k | k in table :: (k, table[k]) in rows)
  }

  method Select<K(==, !new), V(==, !new)>(table: map<K, V>) returns (rows: seq<(K, V)>)
    ensures Lists(rows, table)
  {
    rows := [];
    var rest := table.Keys;
    while rest != {}
      invariant rest <= table.Keys
      invariant forall i, j | 0 <= i < j < |rows| :: rows[i].0 != rows[j].0
      invariant forall i | 0 <= i < |rows| :: rows[i].0 in table && table[rows[i].0] == rows[i].1
      invariant forall k | k in table :: k in rest <==> (k, table[k]) !in rows
      decreases rest
    {
      var k :| k in rest;
      rows := rows + [(k, table[k])];
      rest := rest - {k};
    }
  }

  /** The rows that pass a test, in the order they were read. */
  function Where<K, V>(rows: seq<(K, V)>, p: (K, V) -> bool): seq<(K, V)> {
    if rows == [] then []
    else Where(rows[..|rows| - 1], p)
         + (if p(rows[|rows| - 1].0, rows[|rows| - 1].1) then [rows[|rows| - 1]] else [])
  }

  lemma {:induction false} WhereMembers<K, V>(rows: seq<(K, V)>, p: (K, V) -> bool)
    ensures forall i | 0 <= i < |Where(rows, p)| ::
      Where(rows, p)[i] in rows && p(Where(rows, p)[i].0, Where(rows, p)[i].1)
    ensures forall row | row in rows && p(row.0, row.1) :: row in Where(rows, p)
    ensures (forall i, j | 0 <= i < j < |rows| :: rows[i].0 != rows[j].0) ==>
      forall i, j | 0 <= i < j < |Where(rows, p)| :: Where(rows, p)[i].0 != Where(rows, p)[j].0
  {
    if rows != [] {
      var front, last := rows[..|rows| - 1], rows[|rows| - 1];
      assert rows == front + [last];
      WhereMembers(front, p);
    }
  }

  /** A row passes the test exactly when it is in the table and its key and value do. */
  lemma WhereLists<K(!new), V(!new)>(rows: seq<(K, V)>, table: map<K, V>, p: (K, V) -> bool)
    requires Lists(rows, table)
    ensures forall i | 0 <= i < |Where(rows, p)| ::
      var (k, v) := Where(rows, p)[i]; k in table && table[k] == v && p(k, v)
    ensures forall k | k in table && p(k, table[k]) :: (k, table[k]) in Where(rows, p)
    ensures forall i, j | 0 <= i < j < |Where(rows, p)| :: Where(rows, p)[i].0 != Where(rows, p)[j].0
  {
    WhereMembers(rows, p);
  }
}
