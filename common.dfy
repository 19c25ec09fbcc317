/** Small value types shared by the whole model. */
module Common {

  /** A value that may be missing: TypeScript's `T | null | undefined`. */
  datatype Option<+T> = None | Some(value: T) {

    /** `x ?? fallback`: the value when present, the fallback otherwise. */
    function GetOr(fallback: T): T
    {
      match this
      case Some(v) => v
      case None => fallback
    }

    /** `x ?? y` where `y` is itself optional. */
    function OrElse(fallback: Option<T>): Option<T>
    {
      if Some? then this else fallback
    }
  }

  /** A GraphQL input field: omitted by the caller, given as an explicit null,
      or given a value. Spreading such an input into a row update touches only
      the fields that are not `Absent`. */
  datatype Field<+T> = Absent | Null | Given(value: T)

  /** `Math.max` on two integers. */
  function Max(a: int, b: int): int
  {
    if a >= b then a else b
  }

  function Min(a: int, b: int): int
  {
    if a <= b then a else b
  }
}
