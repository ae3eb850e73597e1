/** An optional value. In the snippet loader it stands for JavaScript's
    `null`/`undefined` (both treated alike by the `??` operator) on the one hand
    and a present value on the other. */
module Optional {

  datatype Option<+T> = None | Some(value: T) {

    /** `x ?? default` in JavaScript: the value when present, else the default. */
    function GetOr(default: T): T {
      match this
      case Some(v) => v
      case None => default
    }
  }
}
