/** An optional value; `None` stands for Go's nil (no cancel func yet, no error). */
module Optional {

  datatype Option<+T> = None | Some(value: T)

}
