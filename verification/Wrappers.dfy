/** The result types the modules share. */
module Wrappers {

  datatype Option<+T> = None | Some(value: T) {
    function GetOr(default: T): T {
      if Some? then value else default
    }
  }

  /** The first option, or the second when there is none. */
  function Or<T>(first: Option<T>, second: Option<T>): Option<T> {
    if first.Some? then first else second
  }

  datatype Result<+T, +E> = Ok(value: T) | Err(error: E)

  /** The values of a list of results, or its first error: Rust's `collect` into a `Result`. */
  function Collect<T, E>(results: seq<Result<T, E>>): (r: Result<seq<T>, E>)
    ensures r.Ok? <==> forall i | 0 <= i < |results| :: results[i].Ok?
    ensures r.Ok? ==> |r.value| == |results| && forall i | 0 <= i < |results| :: results[i] == Ok(r.value[i])
    ensures r.Err? ==> exists i | 0 <= i < |results| :: results[i] == Err(r.error) && forall j | 0 <= j < i :: results[j].Ok?
  {
    if results == [] then Ok([])
    else match results[0]
      case Err(error) => Err(error)
      case Ok(first) =>
        match Collect(results[1..])
        case Err(error) =>
          assert forall i | 0 <= i < |results| - 1 :: results[1..][i] == results[i + 1];
          Err(error)
        case Ok(rest) =>
          assert forall i | 0 <= i < |results| - 1 :: results[1..][i] == results[i + 1];
          Ok([first] + rest)
  }

  lemma CollectAll<T, E>(results: seq<Result<T, E>>, values: seq<T>)
    requires |results| == |values| && forall i | 0 <= i < |results| :: results[i] == Ok(values[i])
    ensures Collect(results) == Ok(values)
  {
    assert Collect(results).value == values;
  }

  lemma CollectFirstError<T, E>(results: seq<Result<T, E>>, i: nat)
    requires i < |results| && results[i].Err? && forall j | 0 <= j < i :: results[j].Ok?
    ensures Collect(results) == Err(results[i].error)
  {
    var k :| 0 <= k < |results| && results[k] == Err(Collect(results).error) && forall j | 0 <= j < k :: results[j].Ok?;
    assert k == i;
  }

  /** Applies `f` to every element. */
  function Map<T, U>(f: T -> U, items: seq<T>): (r: seq<U>)
    ensures |r| == |items| && forall i | 0 <= i < |items| :: r[i] == f(items[i])
  {
    seq(|items|, i requires 0 <= i < |items| => f(items[i]))
  }

  /** The first elements, at most `limit` of them. */
  function First<T>(items: seq<T>, limit: Option<nat>): seq<T> {
    if limit.Some? && limit.value < |items| then items[..limit.value] else items
  }
}
