/** The PHP `null` that findBestSplit starts its best index and value from. */
module Optional {

  /** `None` stands for PHP's `null`; `Some(v)` for a value that was set. */
  datatype Option<+T> = None | Some(value: T)
}
