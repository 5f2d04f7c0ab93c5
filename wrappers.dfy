/** Optional values and success-or-error results, the Dafny counterparts of Swift's
    `Optional` and of a function that `throws`. */
module Wrappers {

  datatype Option<+T> = None | Some(value: T)

  datatype Result<+T, +E> = Ok(value: T) | Err(error: E)

  /** The outcome of mapping a throwing closure over a list (Swift's `try xs.map { ... }`):
      all the values, in order, when every element succeeded; otherwise the error of the
      first element that failed. */
  function Collect<T, E>(rs: seq<Result<T, E>>): (r: Result<seq<T>, E>)
    ensures r.Ok? <==> forall i :: 0 <= i < |rs| ==> rs[i].Ok?
    ensures r.Ok? ==> |r.value| == |rs| && forall i :: 0 <= i < |rs| ==> rs[i] == Ok(r.value[i])
    ensures r.Err? ==> exists i :: 0 <= i < |rs| && rs[i] == Err(r.error) && forall j :: 0 <= j < i ==> rs[j].Ok?
  {
    if rs == [] then Ok([])
    else
      match rs[0]
      case Err(e) => Err(e)
      case Ok(v) =>
        match Collect(rs[1..])
        case Err(e) =>
          Err(e)
        case Ok(vs) =>
          assert rs == [rs[0]] + rs[1..];
          Ok([v] + vs)
  }
}
