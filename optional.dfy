/** An optional value: what a sensor adapter returns when it may have nothing to give. */
module Optional {

  datatype Option<+T> = None | Some(value: T)
}
