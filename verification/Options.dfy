module Options {
  /** `std::optional`. */
  datatype Option<T> = None | Some(value: T) {
    function ValueOr(default: T): T {
      if Some? then value else default
    }
  }
}
