/** The JSON `null` / Python `None` of the monitor, made explicit. */
module Optional {

  datatype Option<+T> = None | Some(value: T)
}
