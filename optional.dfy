/** A value that may be absent: a Java reference that may be null, or a regex
    search that may find nothing. */
module Optional {

  datatype Option<+T> = None | Some(value: T)

}
