/** The optional value used for the nullable references of INode.java. */
module Options {
  datatype Option<+T> = None | Some(value: T)
}
