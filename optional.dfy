/** An optional value: stands for JavaScript's `undefined`/`null` results
    (a `findOne` that finds nothing, a missing split field, no file). */
module Optional {

  datatype Option<+T> = None | Some(value: T)
}
