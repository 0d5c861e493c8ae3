/** The usual optional value, used for the lexer's table lookup and the bracket scan. */
module Options {

  datatype Option<T> = None | Some(value: T)
}
