/** The optional value: what a JavaScript read past the end of an array gives back (`undefined`). */
module Options {

  datatype Option<+T> = None | Some(value: T)
}
