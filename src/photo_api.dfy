/** PhotoController: the `/api/photos` endpoints, which pass object names
    straight to the storage service. */
module PhotoApi {
  import opened Common
  import opened Text
  import opened Seqs
  import opened MediaTypes
  import opened Http
  import opened Storage

  datatype UploadedObject = UploadedObject(message: string, objectName: string)
  datatype DownloadUrl = DownloadUrl(downloadUrl: Url, expiryMinutes: string)
  datatype PhotoExistence = PhotoExistence(present: bool)
  datatype ObjectInfo = ObjectInfo(name: string, size: int, contentType: string, lastModified: int, etag: string)

  const UploadedMessage := "Foto enviada com sucesso"

  /** POST `/upload`: the answer and the bucket afterwards. An empty file is
      refused before storage is reached; the object is named by the request
      or, failing that, by the file's original name. */
  function Upload(b: Bucket, file: MultipartFile, objectName: Option<string>, stamp: WriteStamp): (Response<UploadedObject>, Bucket) {
    if file.IsEmpty() then (BadRequest(EmptyFileError), b)
    else
      var name := if objectName.Some? then objectName else file.originalFilename;
      if name.None? then (Raised(NullObjectName), b)
      else
        var put := Put(b, name.value, file.bytes, file.contentType, stamp);
        match put.0
        case Done(uploaded) => (Created(UploadedObject(UploadedMessage, uploaded)), put.1)
        case Thrown(f) => (Raised(f), put.1)
  }

  /** An empty upload is a 400 carrying the fixed message and leaves the
      bucket untouched. */
  lemma EmptyUploadRefused(b: Bucket, file: MultipartFile, objectName: Option<string>, stamp: WriteStamp)
    requires file.IsEmpty()
    ensures Upload(b, file, objectName, stamp).0.Status() == 400
    ensures Upload(b, file, objectName, stamp).0 == BadRequest("Arquivo não pode estar vazio")
    ensures Upload(b, file, objectName, stamp).1 == b
  {
  }

  /** Without an object name the original file name is used, and the stored
      object downloads back as the uploaded bytes under that name. */
  lemma UploadFallsBackToFileName(b: Bucket, file: MultipartFile, stamp: WriteStamp)
    requires !file.IsEmpty() && file.originalFilename.Some?
    requires file.originalFilename.value !in b.faults
    ensures var (answer, after) := Upload(b, file, None, stamp);
      && answer == Created(UploadedObject(UploadedMessage, file.originalFilename.value))
      && answer.Status() == 201
      && Download(after, file.originalFilename.value) == Ok(Get(after, file.originalFilename.value).value)
      && Get(after, file.originalFilename.value).value.body == file.bytes
  {
    PutThenGet(b, file.originalFilename.value, file.bytes, file.contentType, stamp);
  }

  /** A given object name wins over the file name. */
  lemma UploadPrefersObjectName(b: Bucket, file: MultipartFile, objectName: string, stamp: WriteStamp)
    requires !file.IsEmpty() && objectName !in b.faults
    ensures Upload(b, file, Some(objectName), stamp)
            == (Created(UploadedObject(UploadedMessage, objectName)), Put(b, objectName, file.bytes, file.contentType, stamp).1)
  {
  }

  /** GET `/download/{photoName}`. */
  function Download(b: Bucket, photoName: string): Response<Download> {
    match Get(b, photoName)
    case Done(d) => Ok(d)
    case Thrown(f) => Raised(f)
  }

  /** GET `/url/{photoName}`: presigns without checking existence. */
  function DownloadUrlOf(b: Bucket, photoName: string, expiryMinutes: Option<int>): Response<DownloadUrl> {
    var expiry := ExpiryOrDefault(expiryMinutes);
    Ok(DownloadUrl(Presign(b, photoName, expiry), DecimalString(expiry)))
  }

  /** The expiry handed to the presigner is the one echoed back, 60 when
      the request names none; missing objects still get a URL. */
  lemma DownloadUrlEchoesExpiry(b: Bucket, photoName: string, expiryMinutes: Option<int>, echoed: int)
    requires DownloadUrlOf(b, photoName, expiryMinutes).body.expiryMinutes == DecimalString(echoed)
    ensures DownloadUrlOf(b, photoName, expiryMinutes).Ok?
    ensures DownloadUrlOf(b, photoName, expiryMinutes).body.downloadUrl == PresignedUrl(b.name, photoName, echoed)
    ensures expiryMinutes.Some? ==> echoed == expiryMinutes.value
    ensures expiryMinutes.None? ==> echoed == 60 && DownloadUrlOf(b, photoName, expiryMinutes).body.expiryMinutes == "60"
  {
    DecimalStringInjective(ExpiryOrDefault(expiryMinutes), echoed);
    SixtyIsWrittenSixty();
  }

  /** GET `/list`: storage's listing, unchanged; the prefix defaults to "". */
  function ListPhotos(b: Bucket, prefix: Option<string>): Response<seq<string>> {
    match PhotoListing(b, prefix.GetOr(""))
    case Done(photos) => Ok(photos)
    case Thrown(f) => Raised(f)
  }

  /** With no prefix, every stored image is listed once. */
  lemma ListWithoutPrefixListsAllImages(b: Bucket)
    requires WellFormed(b) && "" !in b.listFaults
    ensures ListPhotos(b, None).Ok?
    ensures Distinct(ListPhotos(b, None).body)
    ensures forall k :: k in ListPhotos(b, None).body <==> k in b.objects && IsImageFile(k)
  {
    PhotoListingContents(b, "");
  }

  /** GET `/exists/{photoName}`. */
  function PhotoExists(b: Bucket, photoName: string): Response<PhotoExistence> {
    match Exists(b, photoName)
    case Done(e) => Ok(PhotoExistence(e))
    case Thrown(f) => Raised(f)
  }

  /** The answer is storage's own: present exactly for a stored object the
      backend can reach. */
  lemma PhotoExistsIsStorageAnswer(b: Bucket, photoName: string)
    ensures PhotoExists(b, photoName).Ok? <==> Exists(b, photoName).Done?
    ensures PhotoExists(b, photoName).Ok? ==>
      (PhotoExists(b, photoName).body.present <==> photoName in b.objects && photoName !in b.faults)
  {
  }

  /** GET `/info/{photoName}`: the metadata under the requested name; `Map.of`
      refuses a null content type or last-modified time. */
  function PhotoInfo(b: Bucket, photoName: string): Response<ObjectInfo> {
    match Stat(b, photoName)
    case Thrown(f) => Raised(f)
    case Done(m) =>
      if m.contentType.None? || m.lastModified.None? then Raised(NullResponseValue)
      else Ok(ObjectInfo(photoName, m.size, m.contentType.value, m.lastModified.value, m.etag))
  }

  /** The info of an uploaded object names it and reports the upload's size,
      type, time and tag; a missing object is a 500, not a 404. */
  lemma PhotoInfoAfterUpload(b: Bucket, key: string, data: seq<byte>, contentType: string, stamp: WriteStamp)
    requires key !in b.faults
    ensures PhotoInfo(Put(b, key, data, Some(contentType), stamp).1, key)
            == Ok(ObjectInfo(key, |data|, contentType, stamp.time, stamp.etag))
    ensures key !in b.objects ==> PhotoInfo(b, key).Status() == 500
  {
    PutThenStat(b, key, data, Some(contentType), stamp);
  }
}
