/** A C# reference or `Nullable<T>` that may be null. */
module Nullable {

  datatype Option<+T> = None | Some(value: T) {

    /** The value, or `default` when null (the `??` operator). */
    function GetOr(default: T): T {
      if Some? then value else default
    }
  }
}
