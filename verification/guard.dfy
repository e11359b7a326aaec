/** `Guard.ThrowIfNull`, the argument check that runs before any store access. */
module Guard {
  import opened Wrappers
  import opened Errors

  /** Throws `ArgumentNullException(parameterName)` when `source` is null and
      returns normally otherwise. */
  function ThrowIfNull<X>(source: Option<X>, parameterName: string): (r: Result<(), Failure>)
    ensures r.Ok? <==> source.Some?
    ensures r.Err? ==> r.error == ArgumentNull(parameterName)
  {
    if source.None? then Err(ArgumentNull(parameterName)) else Ok(())
  }
}
