/** The optional arguments of the JavaScript API (`opt_dim`, `opt_capacity`)
    and the empty extent are both "a value or nothing". */
module Options {

  datatype Option<+T> = None | Some(value: T)
}
