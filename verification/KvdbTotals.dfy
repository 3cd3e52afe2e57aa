/** The grand total of a table of counts, by rows and by columns. */
module KvdbTotals {
  import opened HandlerCounts
  import opened CounterSums
  import opened KvdbManagerObjects

  ghost function RowSums(table: map<string, Counter>): Counter {
    map d | d in table :: Sum(table[d])
  }

  // All the counts together.
  ghost function Total(table: map<string, Counter>): nat {
    Sum(RowSums(table))
  }

  // The counts of one column, by row.
  function Column(table: map<string, Counter>, d: string): Counter {
    map s | s in table && d in table[s] :: table[s][d]
  }

  function Without(table: map<string, Counter>, d: string): map<string, Counter> {
    map s | s in table :: table[s] - {d}
  }

  lemma TotalRow(table: map<string, Counter>, s: string)
    requires s in table
    ensures Total(table) == Sum(table[s]) + Total(table - {s})
  {
    SumRemove(RowSums(table), s);
    assert RowSums(table) - {s} == RowSums(table - {s});
  }

  // Taking a column out takes its sum out.
  lemma {:induction false} TotalColumn(table: map<string, Counter>, d: string)
    ensures Total(table) == Total(Without(table, d)) + Sum(Column(table, d))
    decreases |table|
  {
    if table == map[] {
      assert RowSums(table) == map[] == RowSums(Without(table, d)) && Column(table, d) == map[];
    } else {
      var s :| s in table;
      TotalRow(table, s);
      TotalRow(Without(table, d), s);
      assert Without(table, d) - {s} == Without(table - {s}, d);
      TotalColumn(table - {s}, d);
      ColumnRow(table, d, s);
    }
  }

  lemma ColumnRow(table: map<string, Counter>, d: string, s: string)
    requires s in table
    ensures Sum(table[s]) + Sum(Column(table - {s}, d)) == Sum(table[s] - {d}) + Sum(Column(table, d))
  {
    if d in table[s] {
      SumRemove(table[s], d);
      SumRemove(Column(table, d), s);
      assert Column(table, d) - {s} == Column(table - {s}, d);
    } else {
      assert table[s] - {d} == table[s] && Column(table, d) == Column(table - {s}, d);
    }
  }

  // The same cells, whatever rows are empty.
  ghost predicate SameCells(byDb: map<string, Counter>, byScope: map<string, Counter>) {
    && (forall d :: d in byDb ==> byDb[d] == Column(byScope, d))
    && (forall s, d :: s in byScope && d in byScope[s] ==> d in byDb)
  }

  lemma {:induction false} SameCellsTotal(byDb: map<string, Counter>, byScope: map<string, Counter>)
    requires SameCells(byDb, byScope)
    ensures Total(byDb) == Total(byScope)
    decreases |byDb|
  {
    if byDb == map[] {
      forall s | s in byScope ensures byScope[s] == map[] { }
      EmptyRows(byScope);
      assert RowSums(byDb) == map[];
    } else {
      var d :| d in byDb;
      TotalRow(byDb, d);
      TotalColumn(byScope, d);
      forall e | e in byDb - {d} ensures byDb[e] == Column(Without(byScope, d), e) {
        assert Column(Without(byScope, d), e) == Column(byScope, e);
      }
      SameCellsTotal(byDb - {d}, Without(byScope, d));
    }
  }

  lemma {:induction false} EmptyRows(table: map<string, Counter>)
    requires forall s :: s in table ==> table[s] == map[]
    ensures Total(table) == 0
    decreases |table|
  {
    if table != map[] {
      var s :| s in table;
      TotalRow(table, s);
      EmptyRows(table - {s});
    } else {
      assert RowSums(table) == map[];
    }
  }

  // Both ways to read the table add up to the same.
  lemma SameTotal(byDb: map<string, Counter>, byScope: map<string, Counter>)
    requires Transposed(byDb, byScope)
    ensures Total(byDb) == Total(byScope)
  {
    forall d | d in byDb ensures byDb[d] == Column(byScope, d) { }
    SameCellsTotal(byDb, byScope);
  }
}
