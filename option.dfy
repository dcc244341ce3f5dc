/** An optional value, for `absl::optional`, for the nullable results of
    `IntOrRef::number` and `IntOrRef::ref`, and for an allocation or a
    construction that may throw. */
module Options {

  datatype Option<+T> = None | Some(value: T)

}
