/**
  An optional value: a parse that may fail, a line that may not turn into a
  request.
*/
module Optional {

  datatype Option<T> = None | Some(value: T)
}
