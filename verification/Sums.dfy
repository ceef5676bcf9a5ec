/** Adding up a quantity column. */
module Sums {
  ghost function Sum<K>(column: map<K, int>): int
    decreases |column|
  {
    if column == map[] then 0 else
      var k :| k in column;
      column[k] + Sum(column - {k})
  }

  lemma {:induction false} SumWithout<K>(column: map<K, int>, k: K)
    requires k in column
    ensures Sum(column) == column[k] + Sum(column - {k})
    decreases |column|
  {
    var first :| first in column && Sum(column) == column[first] + Sum(column - {first});
    if first != k {
      SumWithout(column - {first}, k);
      SumWithout(column - {k}, first);
      assert column - {first} - {k} == column - {k} - {first};
    }
  }

  /** Writing one row changes the sum by the change of that row. */
  lemma SumAfterWrite<K>(column: map<K, int>, k: K, value: int)
    ensures Sum(column[k := value]) == Sum(column) + value - if k in column then column[k] else 0
  {
    var next := column[k := value];
    SumWithout(next, k);
    if k in column {
      SumWithout(column, k);
      assert next - {k} == column - {k};
    } else {
      assert next - {k} == column;
    }
  }
}
