/** `std::optional`: a value that may be absent. */
module Optional {

  datatype Option<+T> = None | Some(value: T) {

    /** Applies `f` to the value when there is one. */
    function Map<U>(f: T -> U): Option<U>
    {
      match this
      case None => None
      case Some(v) => Some(f(v))
    }
  }
}
