/** Option and Result, with the Python exception kinds the tree raises. */
module Wrappers {

  datatype Option<+T> = None | Some(value: T)

  /** `KeyError` (absent key, empty tree for succ/prev/pop_item), `ValueError`
      (min/max of an empty tree), `TypeError` (too many arguments to `pop`)
      and `AttributeError` (a `None` root dereferenced by `foreach`). */
  datatype Error = KeyError | ValueError | TypeError | AttributeError

  datatype Result<+T> = Ok(value: T) | Err(error: Error)
}
