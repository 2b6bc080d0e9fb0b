/** Python's `None`-or-value results, as used by `_parse_line` and `_parse_fallback`. */
module Options {

  datatype Option<+T> = None | Some(value: T)
}
