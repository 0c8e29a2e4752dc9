/** What a statement did, and the accumulation of what several did. */
module Results {
  import opened Wrappers
  import opened Values
  import opened Rows

  const U64_MODULUS: int := 0x1_0000_0000_0000_0000

  datatype QueryResult = QueryResult(rowsAffected: UInt64, lastInsertRowid: Option<Int64>)

  /** The outcome of a single statement within a batch. */
  datatype BatchResult = BatchResult(rows: seq<Row>, result: QueryResult)

  const NOTHING := QueryResult(0, None)

  /** `total` extended by one more result; the 64-bit sum wraps. */
  function Extended(total: QueryResult, more: QueryResult): QueryResult {
    QueryResult((total.rowsAffected + more.rowsAffected) % U64_MODULUS, Or(more.lastInsertRowid, total.lastInsertRowid))
  }

  function ExtendedBy(total: QueryResult, results: seq<QueryResult>): QueryResult
    decreases |results|
  {
    if results == [] then total else ExtendedBy(Extended(total, results[0]), results[1..])
  }

  /** A result that is added to in place. */
  class Total {
    var rowsAffected: UInt64
    var lastInsertRowid: Option<Int64>

    constructor (start: QueryResult)
      ensures Value() == start
    {
      rowsAffected := start.rowsAffected;
      lastInsertRowid := start.lastInsertRowid;
    }

    function Value(): QueryResult
      reads this
    {
      QueryResult(rowsAffected, lastInsertRowid)
    }

    method Extend(results: seq<QueryResult>)
      modifies this
      ensures Value() == ExtendedBy(old(Value()), results)
    {
      for i := 0 to |results|
        invariant ExtendedBy(Value(), results[i..]) == ExtendedBy(old(Value()), results)
      {
        rowsAffected := (rowsAffected + results[i].rowsAffected) % U64_MODULUS;
        lastInsertRowid := Or(results[i].lastInsertRowid, lastInsertRowid);
        assert results[i..][1..] == results[i + 1..];
      }
    }
  }

  function Sum(results: seq<QueryResult>): nat {
    if results == [] then 0 else results[0].rowsAffected + Sum(results[1..])
  }

  /** Whether `rowid` is the last one reported by any of the results, or `start` when none reports one. */
  ghost predicate LastReported(results: seq<QueryResult>, start: Option<Int64>, rowid: Option<Int64>) {
    || (rowid == start && forall i | 0 <= i < |results| :: results[i].lastInsertRowid.None?)
    || (exists k | 0 <= k < |results| ::
          && results[k].lastInsertRowid.Some? && rowid == results[k].lastInsertRowid
          && forall j | k < j < |results| :: results[j].lastInsertRowid.None?)
  }

  /** Extending by two lists one after the other is extending by them joined. */
  lemma {:induction false} ExtendIsHomomorphic(total: QueryResult, a: seq<QueryResult>, b: seq<QueryResult>)
    ensures ExtendedBy(total, a + b) == ExtendedBy(ExtendedBy(total, a), b)
    decreases |a|
  {
    if a == [] {
      assert a + b == b;
    } else {
      assert (a + b)[1..] == a[1..] + b;
      ExtendIsHomomorphic(Extended(total, a[0]), a[1..], b);
    }
  }

  /** The count is the 64-bit sum, which is the sum itself exactly when that fits. */
  lemma {:induction false} ExtendSums(total: QueryResult, results: seq<QueryResult>)
    ensures ExtendedBy(total, results).rowsAffected == (total.rowsAffected + Sum(results)) % U64_MODULUS
    ensures ExtendedBy(total, results).rowsAffected == total.rowsAffected + Sum(results) <==> total.rowsAffected + Sum(results) < U64_MODULUS
    decreases |results|
  {
    if results == [] {
    } else {
      var next := Extended(total, results[0]);
      ExtendSums(next, results[1..]);
      WrappedSum(total.rowsAffected + results[0].rowsAffected, Sum(results[1..]));
    }
  }

  lemma WrappedSum(a: nat, b: nat)
    ensures (a % U64_MODULUS + b) % U64_MODULUS == (a + b) % U64_MODULUS
  {
  }

  /** The rowid is the last one any statement reported, so a later statement that reports none does not erase it. */
  lemma {:induction false} ExtendKeepsLastRowid(total: QueryResult, results: seq<QueryResult>)
    ensures LastReported(results, total.lastInsertRowid, ExtendedBy(total, results).lastInsertRowid)
    decreases |results|
  {
    if results == [] {
    } else {
      var rest := results[1..];
      var next := Extended(total, results[0]);
      ExtendKeepsLastRowid(next, rest);
      var rowid := ExtendedBy(total, results).lastInsertRowid;
      if forall i | 0 <= i < |rest| :: rest[i].lastInsertRowid.None? {
        assert forall i | 0 < i < |results| :: results[i] == rest[i - 1];
      } else {
        var k :| 0 <= k < |rest| && rest[k].lastInsertRowid.Some? && rowid == rest[k].lastInsertRowid
                 && forall j | k < j < |rest| :: rest[j].lastInsertRowid.None?;
        assert results[k + 1] == rest[k];
        assert forall j | k + 1 < j < |results| :: results[j] == rest[j - 1];
      }
    }
  }
}
