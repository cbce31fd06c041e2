/** The optional value used wherever the source reads a key that may be
    missing, an element that may not be found, or an attribute that may be
    absent (Python's None). */
module Maybe {

  datatype Option<+T> = None | Some(value: T) {

    /** The value inside Some, or `default` for None (Python's `d.get(k, default)`). */
    function GetOr(default: T): T {
      match this
      case Some(v) => v
      case None => default
    }
  }

  /** Python truthiness of an optional string: None and "" are falsy. */
  predicate Truthy(o: Option<string>) {
    o.Some? && o.value != ""
  }

  /** Python truthiness of an optional integer: None and 0 are falsy. */
  predicate TruthyInt(o: Option<int>) {
    o.Some? && o.value != 0
  }

  /** Python's f"{o}" for an optional string: None renders as "None". */
  function Show(o: Option<string>): string {
    match o
    case Some(s) => s
    case None => "None"
  }
}
