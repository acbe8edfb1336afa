/** The Some/None wrapper used for results that a step may fail to produce. */
module Optional {

  datatype Option<+T> = None | Some(value: T)

}
