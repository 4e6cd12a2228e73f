/** Values that may be absent. */
module Options {

  datatype Option<+T> = None | Some(value: T)

  function AsSeq<T>(o: Option<T>): seq<T> {
    match o case None => [] case Some(v) => [v]
  }
}
