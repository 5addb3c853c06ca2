/** The absent-or-present value used where the Java code returns a nullable reference. */
module Optional {

  datatype Option<+T> = None | Some(value: T)
}
