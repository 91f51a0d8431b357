/** Optional values, and the three states a key of a decoded JSON object can be in. */
module Wrappers {

  /** A value that may be missing (PHP `null`). */
  datatype Option<+T> = None | Some(value: T) {

    /** The value, or `default` when missing (PHP `$x ?? $default`). */
    function GetOr(default: T): T {
      match this
      case Some(v) => v
      case None => default
    }
  }

  /** One key of a decoded JSON object: not there, there but `null`, or there
      with a value. PHP's `isset` and `??` treat the first two alike. */
  datatype Field<+T> = Absent | Null | Given(value: T) {

    /** PHP `isset($data[key])`. */
    predicate IsSet() {
      Given?
    }

    /** PHP `$data[key] ?? $default`. */
    function Or(default: T): T {
      match this
      case Given(v) => v
      case _ => default
    }

    /** PHP `$data[key] ?? null`, for nullable properties. */
    function OrNull(): Option<T> {
      match this
      case Given(v) => Some(v)
      case _ => None
    }

    /** The new value of a property under partial update: set when given, kept otherwise. */
    function Over(current: T): T {
      match this
      case Given(v) => v
      case _ => current
    }

    /** The same for a nullable property: `isset` is false for null, so a
        partial update can set such a property but never clear it. */
    function OverNull(current: Option<T>): Option<T> {
      match this
      case Given(v) => Some(v)
      case _ => current
    }
  }
}
