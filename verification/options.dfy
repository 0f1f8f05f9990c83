/** An optional value: `None` stands for Python's `None` returned by a lookup that found nothing. */
module Options {
  datatype Option<+T> = None | Some(value: T)
}
