/** A value or nothing, shared by all modules. */
module OptionType {
  datatype Option<+T> = None | Some(value: T)
}
