/** Values shared by every part of the model: optional values, the errors the
    storage SDKs raise and the exceptions the Java backend lets escape. */
module Common {

  /** A Java reference that may be null, or a JavaScript value that may be undefined. */
  datatype Option<+T> = None | Some(value: T) {
    function GetOr(default: T): T {
      match this
      case Some(v) => v
      case None => default
    }
  }

  /** One byte of an uploaded or stored file. */
  newtype byte = b: int | 0 <= b < 256

  /** What a storage SDK raises for a request it cannot serve.
      NoSuchKey and ServiceError are answers from the storage server (an
      S3Exception in the AWS SDK); ClientError is a failure on the client side
      (network, credentials), which the AWS SDK does not report as an S3Exception. */
  datatype SdkError =
    | NoSuchKey
    | ServiceError(message: string)
    | ClientError(message: string)

  /** The exceptions that escape the backend's services and controllers. */
  datatype Failure =
    | StorageFailure(context: string, cause: SdkError)  // new RuntimeException(context + cause.getMessage())
    | SdkFailure(cause: SdkError)                        // an SDK exception that no catch clause matched
    | UserNotFound                                       // RuntimeException("Usuário não encontrado")
    | NullId                                             // a repository lookup given a null id
    | EmailNotUnique                                     // a single-result query that matched several users
    | NullResponseValue                                  // Map.of given a null value
    | NullObjectName                                     // an upload with neither an object name nor a file name

  /** The result of a Java call: a value, or the exception it throws. */
  datatype Outcome<+T> = Done(value: T) | Thrown(failure: Failure) {
    predicate IsFailure() {
      Thrown?
    }

    function PropagateFailure<U>(): Outcome<U>
      requires Thrown?
    {
      Thrown(failure)
    }

    function Extract(): T
      requires Done?
    {
      value
    }
  }
}
