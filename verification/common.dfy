/** Shared building blocks: the optional and fallible results the Python code
    expresses with None and exceptions, and the exceptions themselves. */
module Common {

  /** Python's `None` versus a present value. */
  datatype Option<T> = None | Some(value: T)

  /** A call that either returns a value or raises one of the modelled exceptions. */
  datatype Result<T> = Ok(value: T) | Err(error: Failure)

  /** The exceptions the modelled code raises or lets escape, one constructor per
      distinct cause. Python only tells them apart by class (ValueError or
      RuntimeError), which IsValueError and IsRuntimeError recover. */
  datatype Failure =
    | InvalidMatchUrl   // ValueError raised by ScoreScraper.__init__
    | UnpackMismatch    // ValueError from unpacking score.split("-") into two variables
    | InvalidLiteral    // ValueError from int() on one half of the score text
    | MissingElement    // RuntimeError raised when a page element is absent
    | NoTeamColors      // RuntimeError raised by HueLightController.__init__
  {
    predicate IsValueError() {
      this == InvalidMatchUrl || this == UnpackMismatch || this == InvalidLiteral
    }

    predicate IsRuntimeError() {
      this == MissingElement || this == NoTeamColors
    }
  }

  /** A `timedelta`, counted in whole microseconds (its resolution). */
  type Duration = nat
}
