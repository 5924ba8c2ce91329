/** The optional value used wherever the scanner may find nothing: a carrier
    that does not match, a file that cannot be read, a root that does not
    exist, a constructor argument that was not passed. */
module Optional {

  datatype Option<+T> = None | Some(value: T)

}
