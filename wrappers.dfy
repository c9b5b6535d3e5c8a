/** Option and Result: the absent value of `Array.prototype.find` and the
    rejected promise of an external call, made explicit. */
module Wrappers {

  datatype Option<+T> = None | Some(value: T)

  datatype Result<+R, +E> = Success(value: R) | Failure(error: E)

  /** What an external collaborator (file system, PDF parser, embedding
      service, vector store, language model) throws. */
  datatype Error = Error(message: string)
}
