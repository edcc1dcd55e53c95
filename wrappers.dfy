/** Optional values, standing for Kotlin's nullable types. */
module Wrappers {
  datatype Option<T> = None | Some(value: T)
  {
    predicate IsSome() { Some? }

    /** Kotlin's `x ?: d`. */
    function OrElse(d: T): T
    {
      if Some? then value else d
    }
  }
}
