/** Small things shared by all modules. */
module Utils {

  /** The optional value used where the C++ code returns std::optional or a possibly empty pointer. */
  datatype Option<+T> = None | Some(value: T)

  function Before<T>(s: seq<T>): seq<T>
    requires s != []
  {
    s[..|s| - 1]
  }

  function Last<T>(s: seq<T>): T
    requires s != []
  {
    s[|s| - 1]
  }
}
