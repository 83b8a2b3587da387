/** Kotlin's nullable types (`T?`) as an explicit option. */
module Optional {

  datatype Option<+T> = None | Some(value: T)
}
