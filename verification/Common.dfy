/** Small datatypes shared by the models. */
module Common {

  /** A nullable column, an optional argument or a Python None. */
  datatype Option<+T> = None | Some(value: T)

  /** What happens to a round trip to Redis: it works, the command never runs, or it runs and its reply is lost. */
  datatype Link = Up | Down | ReplyLost

  function Max(a: int, b: int): int {
    if a >= b then a else b
  }

  ghost predicate Distinct<T>(s: seq<T>) {
    forall i, j :: 0 <= i < j < |s| ==> s[i] != s[j]
  }
}
