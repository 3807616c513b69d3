/** Values shared by the two image flows. */
module Common {

  /** An optional value; `None` stands for JavaScript's `null` or `undefined`. */
  datatype Option<+T> = None | Some(value: T)

  /** How the unseen image service call settled: resolved with the URL of
      the new image, or rejected with an error whose details are ignored. */
  datatype Outcome = Success(url: string) | Failure

  /** The save an anchor click starts: the link target and the file name
      the browser is asked to store it under. */
  datatype Save = Save(href: string, fileName: string)

  function Min(a: int, b: int): int
  {
    if a < b then a else b
  }
}
