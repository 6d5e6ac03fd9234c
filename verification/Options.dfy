/** The usual Some/None type: it stands for the sentinel values of the simulator
    (`unused`, block id -1) and for calls that throw. */
module Options {
  datatype Option<+T> = None | Some(value: T)
}
