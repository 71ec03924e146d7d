/** Optional values and error-first outcomes, shared by the whole model. */
module Wrappers {

  /** An optional value; `None` stands for a missing JavaScript property. */
  datatype Option<+T> = None | Some(value: T)

  /** The outcome of an error-first callback: either a value or the error. */
  datatype Result<+T, +E> = Ok(value: T) | Err(error: E)
}

/** The errors that reach a caller of the scraper. */
module Errors {

  datatype Error =
    | Remote(message: string) // an error handed to a callback by the HTTP or GitHub client
    | MissingTree             // the `files` tree response carries no `tree` property
    | MissingFilesDir         // the repository root has no entry named `files`
}

/** Facts about sequence concatenation, stated on their own so that the proofs
    that use them stay small. */
module Sequences {

  lemma AppendAssoc<T>(xs: seq<T>, ys: seq<T>, zs: seq<T>)
    ensures xs + ys + zs == xs + (ys + zs)
  {
  }

  lemma AppendEmpty<T>(xs: seq<T>)
    ensures xs + [] == xs
  {
  }
}
