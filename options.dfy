/** An optional value: `None` stands where the source uses +Inf as "no such entity". */
module Options {
  datatype Option<+T> = None | Some(value: T)
}
