/** The optional result shared by the matching engines (Rust's `Option`). */
module Options {

  datatype Option<+T> = None | Some(value: T)
}
