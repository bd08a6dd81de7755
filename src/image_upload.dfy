/** `uploadImage` of the web client: validates an image file, names it,
    and hands it to Supabase Storage. The clock, the random suffix and the
    storage call's answer are parameters. */
module ImageUpload {
  import opened Common
  import opened Text

  /** The browser's `File`: its MIME type, size in bytes and name. */
  datatype File = File(mimeType: string, size: int, name: string)

  /** How the storage call ended: stored, refused with an error object, or
      a thrown value, which carries a message when it is an `Error`. */
  datatype StorageAnswer = Stored | Refused(message: string) | Threw(errorMessage: Option<string>)

  /** The public URL Supabase gives an object. */
  datatype PublicUrl = PublicUrl(bucket: string, path: string)

  /** `{ url, error }`: one of the two is null. */
  datatype UploadResult = UploadResult(url: Option<PublicUrl>, error: Option<string>)

  const ValidTypes: seq<string> := ["image/jpeg", "image/jpg", "image/png", "image/webp", "image/gif"]
  const MaxSize := 5 * 1024 * 1024

  const InvalidTypeError := "Tipo de arquivo inválido. Use JPG, PNG, WEBP ou GIF."
  const TooLargeError := "Arquivo muito grande. Tamanho máximo: 5MB."
  const UploadErrorPrefix := "Erro ao fazer upload: "
  const UnknownError := "Erro desconhecido ao fazer upload"

  /** `` `${timestamp}-${randomString}.${fileExt}` ``. */
  function FileName(timestamp: int, randomString: string, name: string): string {
    DecimalString(timestamp) + "-" + randomString + "." + AfterLast(name, '.')
  }

  /** `folder ? `${folder}/${fileName}` : fileName`: a missing or empty folder
      is falsy. */
  function FilePath(folder: Option<string>, fileName: string): (path: string)
    ensures folder.Some? && folder.value != "" ==> path == folder.value + "/" + fileName
    ensures folder.None? || folder.value == "" ==> path == fileName
  {
    if folder.Some? && folder.value != "" then folder.value + "/" + fileName else fileName
  }

  /** Which check, if any, refuses the file: the type first, then the size. */
  function Validate(file: File): Option<string> {
    if file.mimeType !in ValidTypes then Some(InvalidTypeError)
    else if file.size > MaxSize then Some(TooLargeError)
    else None
  }

  /** The whole function, with the storage call's answer for the path it builds. */
  function UploadImage(file: File, bucket: string, folder: Option<string>, timestamp: int, randomString: string, answer: StorageAnswer): (r: UploadResult)
    ensures r.url.Some? != r.error.Some?
    ensures r.url.Some? <==> Validate(file).None? && answer == Stored
    ensures Validate(file).Some? ==> r.error == Validate(file)
  {
    match Validate(file)
    case Some(e) => UploadResult(None, Some(e))
    case None =>
      var path := FilePath(folder, FileName(timestamp, randomString, file.name));
      match answer
      case Stored => UploadResult(Some(PublicUrl(bucket, path)), None)
      case Refused(message) => UploadResult(None, Some(UploadErrorPrefix + message))
      case Threw(errorMessage) => UploadResult(None, Some(errorMessage.GetOr(UnknownError)))
  }

  /** A file of the wrong type reports the type error, whatever its size and
      whatever the storage would have answered: storage is never reached. */
  lemma TypeCheckedFirst(file: File, bucket: string, folder: Option<string>, timestamp: int, randomString: string, a1: StorageAnswer, a2: StorageAnswer)
    requires file.mimeType !in ValidTypes
    ensures UploadImage(file, bucket, folder, timestamp, randomString, a1) == UploadResult(None, Some(InvalidTypeError))
    ensures UploadImage(file, bucket, folder, timestamp, randomString, a1) == UploadImage(file, bucket, folder, timestamp, randomString, a2)
  {
  }

  /** For an accepted type, the size error is given exactly above 5 MiB:
      5 MiB itself passes. */
  lemma SizeLimitIsInclusive(file: File)
    requires file.mimeType in ValidTypes
    ensures Validate(file) == Some(TooLargeError) <==> file.size > MaxSize
    ensures Validate(file).None? <==> file.size <= MaxSize
    ensures MaxSize == 5242880
  {
  }

  /** An accepted, stored file's URL points at `timestamp-random.ext` in the
      bucket, under `folder/` when a non-empty folder is given and bare when
      the folder is omitted or empty. */
  lemma StoredPath(file: File, bucket: string, folder: Option<string>, timestamp: int, randomString: string)
    requires Validate(file).None?
    ensures var r := UploadImage(file, bucket, folder, timestamp, randomString, Stored);
      && r.url == Some(PublicUrl(bucket, FilePath(folder, FileName(timestamp, randomString, file.name))))
      && r.error.None?
    ensures folder.None? ==>
      UploadImage(file, bucket, folder, timestamp, randomString, Stored).url
      == Some(PublicUrl(bucket, FileName(timestamp, randomString, file.name)))
    ensures folder.Some? && folder.value != "" ==>
      UploadImage(file, bucket, folder, timestamp, randomString, Stored).url
      == Some(PublicUrl(bucket, folder.value + "/" + FileName(timestamp, randomString, file.name)))
  {
  }

  /** The stored name keeps the uploaded name's extension: the text after its
      last dot is that of the original name (the whole name when it has no dot). */
  lemma FileNameKeepsExtension(timestamp: int, randomString: string, name: string)
    ensures AfterLast(FileName(timestamp, randomString, name), '.') == AfterLast(name, '.')
    ensures '.' !in name ==> AfterLast(FileName(timestamp, randomString, name), '.') == name
  {
    AfterLastSeparator(DecimalString(timestamp) + "-" + randomString, '.', AfterLast(name, '.'));
  }

  /** A storage refusal is reported with its message behind a fixed prefix,
      and a thrown non-`Error` value with the fixed fallback text. */
  lemma FailuresAreReported(file: File, bucket: string, folder: Option<string>, timestamp: int, randomString: string, message: string)
    requires Validate(file).None?
    ensures UploadImage(file, bucket, folder, timestamp, randomString, Refused(message)).error == Some(UploadErrorPrefix + message)
    ensures UploadImage(file, bucket, folder, timestamp, randomString, Threw(None)).error == Some(UnknownError)
    ensures UploadImage(file, bucket, folder, timestamp, randomString, Threw(Some(message))).error == Some(message)
  {
  }
}
