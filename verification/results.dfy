/** Optional values and success-or-error results shared by the parsers and
    the forms. */
module Results {

  datatype Option<+T> = None | Some(value: T)

  datatype Result<+R, +E> = Success(value: R) | Failure(error: E)

  /** `x || ""` for an optional string: a missing value reads as "", a
      present one (empty or not) as itself. */
  function OrEmpty(x: Option<string>): (r: string)
    ensures x.None? ==> r == ""
    ensures x.Some? ==> r == x.value
  {
    if x.Some? then x.value else ""
  }
}
