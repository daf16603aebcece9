/** The conventional Some/None datatype: a cell of the occupancy map holds
    `None` or the colour of the piece standing on it. */
module Options {
  datatype Option<+T> = None | Some(value: T)
}
