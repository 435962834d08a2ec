/** The optional value used wherever the C code uses a null pointer, a zero
    return code or an unset flag. */
module Options {
  datatype Option<+T> = None | Some(value: T)
}
