/** Failure-carrying values shared by the extraction modules. */
module Results {

  datatype Option<+T> = None | Some(value: T)

  /** Why an extraction aborted. Each variant stands for one kind of panic
      of the original program: a `find` that matched nothing, a matched
      element without text, a qualifier name that is absent, or input that
      is not well-formed XML. */
  datatype Error =
    | MalformedXml
    | MissingNode(tag: string)
    | MissingText(tag: string)
    | MissingQualifier(name: string)

  datatype Result<+T> = Ok(value: T) | Err(error: Error)
}
