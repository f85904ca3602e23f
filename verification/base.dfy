/** The one failure-compatible wrapper the model needs: a value that may be absent
    (the source's `undefined` / `null` results). */
module Base {

  datatype Option<+T> = None | Some(value: T)
}
