/** The null-or-value pattern of the source (`activeTask`, `startTime`, the result of `Array#find`). */
module Optional {
  datatype Option<T> = None | Some(value: T)
}
