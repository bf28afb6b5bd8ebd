/** An optional value: a dictionary lookup that may miss, a parse that may fail. */
module Optional {

  datatype Option<+T> = None | Some(value: T)
}
