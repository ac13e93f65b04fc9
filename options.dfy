/** Rust's `Option<T>` with the two combinators the annotation builder chains:
    `and_then` and `or_else`. */
module Options {

  datatype Option<+T> = None | Some(value: T) {

    /** `Option::and_then`: feeds the held value to `f`, or stays `None`. */
    function AndThen<U>(f: T -> Option<U>): (r: Option<U>)
      ensures r.Some? ==> Some?
      ensures Some? ==> r == f(value)
    {
      match this
      case None => None
      case Some(v) => f(v)
    }

    /** `Option::or_else`: keeps a held value, or asks `f` for one. */
    function OrElse(f: () -> Option<T>): (r: Option<T>)
      ensures r.Some? <==> Some? || f().Some?
      ensures Some? ==> r == this
      ensures r.Some? && !Some? ==> r == f()
    {
      match this
      case None => f()
      case Some(_) => this
    }
  }
}
