/** The queries of a batch, and taking them apart before anything runs. */
module Queries {
  import opened Wrappers
  import opened Values
  import opened Errors

  /** A query: its text, and its arguments if any were bound, or the error of the bind that failed. */
  datatype Query = Query(sql: string, arguments: Result<Option<seq<Value>>, EncodeError>)

  /** A query's text with the arguments taken out of it. */
  datatype Prepared = Prepared(sql: string, arguments: seq<Value>)

  function TakeArguments(query: Query): Result<Prepared, Error> {
    match query.arguments
    case Ok(arguments) => Ok(Prepared(query.sql, arguments.GetOr([])))
    case Err(error) => Err(Encode(error))
  }

  function TakeAll(queries: seq<Query>): Result<seq<Prepared>, Error> {
    Collect(Map(TakeArguments, queries))
  }

  /** The first bind that failed, and its error. */
  ghost predicate BindsFail(queries: seq<Query>, error: Error) {
    exists i | 0 <= i < |queries| ::
      && queries[i].arguments.Err? && error == Encode(queries[i].arguments.error)
      && forall j | 0 <= j < i :: queries[j].arguments.Ok?
  }

  /** All are taken unless a bind failed; then the first failed bind is the error. */
  lemma TakenInOrder(queries: seq<Query>)
    ensures TakeAll(queries).Ok? <==> forall i | 0 <= i < |queries| :: queries[i].arguments.Ok?
    ensures TakeAll(queries).Ok? ==>
              && |TakeAll(queries).value| == |queries|
              && forall i | 0 <= i < |queries| :: TakeAll(queries).value[i] == Prepared(queries[i].sql, queries[i].arguments.value.GetOr([]))
    ensures TakeAll(queries).Err? ==>
              exists i | 0 <= i < |queries| ::
                && queries[i].arguments.Err? && TakeAll(queries).error == Encode(queries[i].arguments.error)
                && forall j | 0 <= j < i :: queries[j].arguments.Ok?
  {
    var taken := Map(TakeArguments, queries);
    assert forall i | 0 <= i < |queries| :: taken[i] == TakeArguments(queries[i]);
    if TakeAll(queries).Err? {
      var i :| 0 <= i < |queries| && taken[i] == Err(TakeAll(queries).error) && forall j | 0 <= j < i :: taken[j].Ok?;
      assert queries[i].arguments.Err?;
    }
  }

  lemma {:induction false} FailedBindIsTheError(queries: seq<Query>)
    ensures forall error :: TakeAll(queries) == Err(error) <==> BindsFail(queries, error)
  {
    var taken := Map(TakeArguments, queries);
    TakenInOrder(queries);
    forall error | BindsFail(queries, error)
      ensures TakeAll(queries) == Err(error)
    {
      var i :| 0 <= i < |queries| && queries[i].arguments.Err? && error == Encode(queries[i].arguments.error)
               && forall j | 0 <= j < i :: queries[j].arguments.Ok?;
      CollectFirstError(taken, i);
    }
  }
}
