/** Result shapes shared by the model: optional values, results with an error,
    and the reply of a Python binary special method. */
module Outcomes {

  datatype Option<T> = None | Some(value: T)

  /** A construction either yields a value or fails with the reason a
      `ValueError` would carry. */
  datatype Result<T, E> = Ok(value: T) | Err(error: E)

  /** A Python binary special method (`__eq__`, `__lt__`, `__add__`, ...)
      either answers or returns the `NotImplemented` sentinel, which is a
      different thing from answering `False`. */
  datatype Reply<T> = Done(value: T) | NotImplemented
}
