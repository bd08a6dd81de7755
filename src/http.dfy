/** What the Spring controllers receive and answer, reduced to values: the
    uploaded multipart file and a response made of a status and a body. */
module Http {
  import opened Common

  /** A `MultipartFile`: its original file name and content type may be null. */
  datatype MultipartFile = MultipartFile(originalFilename: Option<string>, contentType: Option<string>, bytes: seq<byte>) {
    predicate IsEmpty() {
      |bytes| == 0
    }
  }

  /** A `ResponseEntity`, or the exception that escaped the handler. */
  datatype Response<T> =
    | Ok(body: T)
    | Created(body: T)
    | BadRequest(error: string)
    | NotFound
    | Raised(failure: Failure)
  {
    /** The HTTP status; an escaped exception becomes Spring's default 500. */
    function Status(): int {
      match this
      case Ok(_) => 200
      case Created(_) => 201
      case BadRequest(_) => 400
      case NotFound => 404
      case Raised(_) => 500
    }
  }

  const EmptyFileError := "Arquivo não pode estar vazio"

  /** The value of `@RequestParam(defaultValue = "60") int expiryMinutes`. */
  const DefaultExpiryMinutes := 60

  function ExpiryOrDefault(expiryMinutes: Option<int>): int {
    expiryMinutes.GetOr(DefaultExpiryMinutes)
  }
}
