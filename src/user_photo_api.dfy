/** UserPhotoController: the `/api/users/{userId}/photos` endpoints. They
    talk to the storage service directly and repeat the naming helpers of
    UserPhotoService, which this model shares through `PhotoNaming`. */
module UserPhotoApi {
  import opened Common
  import opened Text
  import opened Http
  import opened Storage
  import opened PhotoNaming
  import opened UserPhotos

  datatype UploadedPhoto = UploadedPhoto(message: string, userId: string, photoName: string, fullPath: string)
  datatype UploadedAvatar = UploadedAvatar(message: string, userId: string, avatarPath: string)
  datatype PhotoUrlBody = PhotoUrlBody(downloadUrl: Url, expiryMinutes: string, userId: string, photoName: string)
  datatype PhotoList = PhotoList(userId: string, totalPhotos: int, photos: seq<string>)
  datatype PhotoExistence = PhotoExistence(userId: string, photoName: string, present: bool)
  datatype PhotoInfo = PhotoInfo(userId: string, photoName: string, size: int, contentType: string, lastModified: int, etag: string)
  datatype NamedUrl = NamedUrl(photoName: string, url: Url)
  datatype PhotoUrls = PhotoUrls(userId: string, totalPhotos: int, expiryMinutes: int, photos: seq<NamedUrl>)

  const PhotoUploadedMessage := "Foto enviada com sucesso"
  const AvatarUploadedMessage := "Avatar enviado com sucesso"

  /** POST `/`: rejects an empty file before touching storage; otherwise
      stores under the given name or a generated one. */
  method UploadUserPhoto(store: ObjectStore, userId: string, file: MultipartFile, photoName: Option<string>, uuid: string, stamp: WriteStamp)
    returns (r: Response<UploadedPhoto>)
    requires store.Valid()
    modifies store
    ensures store.Valid()
    ensures file.IsEmpty() ==> r == BadRequest(EmptyFileError) && store.bucket == old(store.bucket)
    ensures !file.IsEmpty() ==>
      var fileName := photoName.GetOr(UniqueFileName(uuid, file.originalFilename));
      var put := Put(old(store.bucket), UserPhotoPath(userId, fileName), file.bytes, file.contentType, stamp);
      && store.bucket == put.1
      && r == (if put.0.Done? then Created(UploadedPhoto(PhotoUploadedMessage, userId, fileName, put.0.value))
               else Raised(put.0.failure))
  {
    if file.IsEmpty() {
      return BadRequest(EmptyFileError);
    }
    var fileName := if photoName.Some? then photoName.value else UniqueFileName(uuid, file.originalFilename);
    var objectName := UserPhotoPath(userId, fileName);
    var uploaded := store.UploadPhoto(objectName, file.bytes, file.contentType, stamp);
    if uploaded.Thrown? {
      return Raised(uploaded.failure);
    }
    r := Created(UploadedPhoto(PhotoUploadedMessage, userId, fileName, uploaded.value));
  }

  /** POST `/avatar`: stores under `avatar{ext}` and reports the stored key. */
  method UploadAvatar(store: ObjectStore, userId: string, file: MultipartFile, stamp: WriteStamp)
    returns (r: Response<UploadedAvatar>)
    requires store.Valid()
    modifies store
    ensures store.Valid()
    ensures file.IsEmpty() ==> r == BadRequest(EmptyFileError) && store.bucket == old(store.bucket)
    ensures !file.IsEmpty() ==>
      var key := AvatarPath(userId, FileExtension(file.originalFilename));
      var put := Put(old(store.bucket), key, file.bytes, file.contentType, stamp);
      && store.bucket == put.1
      && r == (if put.0.Done? then Created(UploadedAvatar(AvatarUploadedMessage, userId, key)) else Raised(put.0.failure))
  {
    if file.IsEmpty() {
      return BadRequest(EmptyFileError);
    }
    var extension := FileExtension(file.originalFilename);
    var objectName := UserPhotoPath(userId, "avatar" + extension);
    var uploaded := store.UploadPhoto(objectName, file.bytes, file.contentType, stamp);
    if uploaded.Thrown? {
      return Raised(uploaded.failure);
    }
    r := Created(UploadedAvatar(AvatarUploadedMessage, userId, uploaded.value));
  }

  /** An accepted upload names the stored key in its answer, and that key
      downloads back the uploaded bytes. */
  lemma UploadedPhotoDownloads(b: Bucket, userId: string, fileName: string, file: MultipartFile, stamp: WriteStamp)
    requires UserPhotoPath(userId, fileName) !in b.faults
    ensures var put := Put(b, UserPhotoPath(userId, fileName), file.bytes, file.contentType, stamp);
      && put.0 == Done(UserPhotoPath(userId, fileName))
      && DownloadUserPhoto(put.1, userId, fileName).Ok?
      && DownloadUserPhoto(put.1, userId, fileName).body.body == file.bytes
  {
    PutThenGet(b, UserPhotoPath(userId, fileName), file.bytes, file.contentType, stamp);
  }

  /** GET `/{photoName}`. */
  function DownloadUserPhoto(b: Bucket, userId: string, photoName: string): Response<Download> {
    match Get(b, UserPhotoPath(userId, photoName))
    case Done(d) => Ok(d)
    case Thrown(f) => Raised(f)
  }

  /** What GET `/avatar` answers once the probe has settled on a key or on none. */
  function AvatarDownload(b: Bucket, userId: string): Response<Download> {
    match FirstExisting(b, AvatarCandidates(userId))
    case Thrown(f) => Raised(f)
    case Done(None) => NotFound
    case Done(Some(key)) =>
      match Get(b, key)
      case Done(d) => Ok(d)
      case Thrown(f) => Raised(f)
  }

  /** The avatar download is 404 exactly when no candidate exists. */
  lemma AvatarDownloadNotFound(b: Bucket, userId: string)
    ensures AvatarDownload(b, userId) == NotFound <==> AllMissing(b, AvatarCandidates(userId))
  {
  }

  /** After a run of missing candidates, the first existing one is streamed. */
  lemma AvatarDownloadFirstHit(b: Bucket, userId: string, n: nat)
    requires n < |AvatarCandidates(userId)|
    requires AllMissing(b, AvatarCandidates(userId)[..n])
    requires AvatarCandidates(userId)[n] in b.objects && AvatarCandidates(userId)[n] !in b.faults
    ensures AvatarDownload(b, userId).Ok?
    ensures AvatarDownload(b, userId).body.body == b.objects[AvatarCandidates(userId)[n]].data
    ensures AvatarDownload(b, userId).body.contentDisposition == Disposition(AvatarCandidates(userId)[n])
  {
    FirstHitWins(b, AvatarCandidates(userId), n);
  }

  /** GET `/avatar`: the probe loop of the controller. */
  method DownloadAvatar(store: ObjectStore, userId: string) returns (r: Response<Download>)
    ensures r == AvatarDownload(store.bucket, userId)
  {
    ghost var candidates := AvatarCandidates(userId);
    for i := 0 to |AvatarExtensions|
      invariant FirstExisting(store.bucket, candidates) == FirstExisting(store.bucket, candidates[i..])
    {
      var objectName := UserPhotoPath(userId, "avatar" + AvatarExtensions[i]);
      assert candidates[i..][0] == objectName;
      assert candidates[i..][1..] == candidates[i + 1..];
      var found := Exists(store.bucket, objectName);
      if found.Thrown? {
        return Raised(found.failure);
      }
      if found.value {
        var download := Get(store.bucket, objectName);
        return if download.Done? then Ok(download.value) else Raised(download.failure);
      }
    }
    return NotFound;
  }

  /** GET `/{photoName}/url`: 404 for a missing photo, otherwise a URL for
      the photo's key and the expiry echoed as text. */
  function UserPhotoUrl(b: Bucket, userId: string, photoName: string, expiryMinutes: Option<int>): Response<PhotoUrlBody> {
    var expiry := ExpiryOrDefault(expiryMinutes);
    match UserPhotos.UserPhotoUrl(b, userId, photoName, expiry)
    case Thrown(f) => Raised(f)
    case Done(None) => NotFound
    case Done(Some(url)) => Ok(PhotoUrlBody(url, DecimalString(expiry), userId, photoName))
  }

  lemma UserPhotoUrlAnswers(b: Bucket, userId: string, photoName: string, expiryMinutes: Option<int>)
    ensures UserPhotoExists(b, userId, photoName) == Done(false) ==> UserPhotoUrl(b, userId, photoName, expiryMinutes) == NotFound
    ensures UserPhotoExists(b, userId, photoName) == Done(true) ==>
      UserPhotoUrl(b, userId, photoName, expiryMinutes)
      == Ok(PhotoUrlBody(PresignedUrl(b.name, UserPhotoPath(userId, photoName), ExpiryOrDefault(expiryMinutes)),
                         DecimalString(ExpiryOrDefault(expiryMinutes)), userId, photoName))
    ensures expiryMinutes.None? && UserPhotoExists(b, userId, photoName) == Done(true) ==>
      UserPhotoUrl(b, userId, photoName, expiryMinutes).body.expiryMinutes == "60"
  {
    UserPhotoUrlOnlyForExisting(b, userId, photoName, ExpiryOrDefault(expiryMinutes));
    SixtyIsWrittenSixty();
  }

  /** GET `/`: the stripped names and their count. */
  function ListPhotos(b: Bucket, userId: string): Response<PhotoList> {
    match ListUserPhotos(b, userId)
    case Thrown(f) => Raised(f)
    case Done(names) => Ok(PhotoList(userId, |names|, names))
  }

  lemma ListPhotosCounts(b: Bucket, userId: string)
    ensures ListPhotos(b, userId).Ok? <==> PhotoListing(b, UserPrefix(userId)).Done?
    ensures ListPhotos(b, userId).Ok? ==>
      var keys := PhotoListing(b, UserPrefix(userId)).value;
      var body := ListPhotos(b, userId).body;
      && body.totalPhotos == |keys| == |body.photos|
      && forall i :: 0 <= i < |keys| ==> body.photos[i] == RemoveAll(keys[i], UserPrefix(userId))
  {
    ListUserPhotosFollowsListing(b, userId);
  }

  /** GET `/{photoName}/exists`. */
  function PhotoExists(b: Bucket, userId: string, photoName: string): Response<PhotoExistence> {
    match UserPhotoExists(b, userId, photoName)
    case Thrown(f) => Raised(f)
    case Done(e) => Ok(PhotoExistence(userId, photoName, e))
  }

  /** The endpoint gives storage's own answer under the user's key, on both
      backends: "present" exactly for a stored, reachable photo; only an AWS
      client-side error escapes, as a 500. */
  lemma PhotoExistsAnswers(b: Bucket, userId: string, photoName: string)
    ensures PhotoExists(b, userId, photoName).Ok? <==> UserPhotoExists(b, userId, photoName).Done?
    ensures PhotoExists(b, userId, photoName).Ok? ==>
      && PhotoExists(b, userId, photoName).body == PhotoExistence(userId, photoName, PhotoExists(b, userId, photoName).body.present)
      && (PhotoExists(b, userId, photoName).body.present
          <==> UserPhotoPath(userId, photoName) in b.objects && UserPhotoPath(userId, photoName) !in b.faults)
    ensures PhotoExists(b, userId, photoName).Raised?
            <==> b.backend == S3 && UserPhotoPath(userId, photoName) in b.faults && b.faults[UserPhotoPath(userId, photoName)].ClientError?
  {
  }


  /** GET `/{photoName}/info`: 404 for a missing photo; the metadata call is
      made only for an existing one. `Map.of` refuses a null content type or
      last-modified time. */
  function PhotoInfoOf(b: Bucket, userId: string, photoName: string): Response<PhotoInfo> {
    match UserPhotoExists(b, userId, photoName)
    case Thrown(f) => Raised(f)
    case Done(false) => NotFound
    case Done(true) =>
      match Stat(b, UserPhotoPath(userId, photoName))
      case Thrown(f) => Raised(f)
      case Done(m) =>
        if m.contentType.None? || m.lastModified.None? then Raised(NullResponseValue)
        else Ok(PhotoInfo(userId, photoName, m.size, m.contentType.value, m.lastModified.value, m.etag))
  }

  /** A missing photo is 404 and never reaches the metadata call (whose own
      answer for it would be an exception); an existing one reports its
      stored size, type, time and tag, or fails when either nullable field is
      absent. A refused key is 404, except for an S3 client error, which
      escapes as it is. */
  lemma PhotoInfoAnswers(b: Bucket, userId: string, photoName: string)
    ensures var key := UserPhotoPath(userId, photoName);
      key !in b.faults && key !in b.objects ==>
        && PhotoInfoOf(b, userId, photoName) == NotFound
        && Stat(b, key).Thrown?
    ensures var key := UserPhotoPath(userId, photoName);
      key !in b.faults && key in b.objects && b.objects[key].contentType.Some? && b.objects[key].lastModified.Some? ==>
        PhotoInfoOf(b, userId, photoName)
        == Ok(PhotoInfo(userId, photoName, |b.objects[key].data|, b.objects[key].contentType.value,
                        b.objects[key].lastModified.value, b.objects[key].etag))
    ensures var key := UserPhotoPath(userId, photoName);
      key !in b.faults && key in b.objects && (b.objects[key].contentType.None? || b.objects[key].lastModified.None?) ==>
        PhotoInfoOf(b, userId, photoName) == Raised(NullResponseValue)
    ensures var key := UserPhotoPath(userId, photoName);
      key in b.faults ==>
        PhotoInfoOf(b, userId, photoName)
        == if b.backend == S3 && b.faults[key].ClientError? then Raised(SdkFailure(b.faults[key])) else NotFound
  {
  }

  /** GET `/urls`: a name and a URL per listed photo. */
  function PhotoUrlsOf(b: Bucket, userId: string, expiryMinutes: Option<int>): Response<PhotoUrls> {
    var expiry := ExpiryOrDefault(expiryMinutes);
    match AllUserPhotoUrls(b, userId, expiry)
    case Thrown(f) => Raised(f)
    case Done(infos) =>
      Ok(PhotoUrls(userId, |infos|, expiry,
        seq(|infos|, i requires 0 <= i < |infos| => NamedUrl(infos[i].photoName, infos[i].url))))
  }

  /** One URL per listed photo, presigned for that photo's key, with the
      stripped name beside it. */
  lemma PhotoUrlsOnePerPhoto(b: Bucket, userId: string, expiryMinutes: Option<int>)
    ensures PhotoUrlsOf(b, userId, expiryMinutes).Ok? <==> ListPhotos(b, userId).Ok?
    ensures PhotoUrlsOf(b, userId, expiryMinutes).Ok? ==>
      var keys := PhotoListing(b, UserPrefix(userId)).value;
      var body := PhotoUrlsOf(b, userId, expiryMinutes).body;
      && body.totalPhotos == |body.photos| == |keys| == ListPhotos(b, userId).body.totalPhotos
      && body.expiryMinutes == ExpiryOrDefault(expiryMinutes)
      && forall i :: 0 <= i < |keys| ==>
           && body.photos[i].url == PresignedUrl(b.name, keys[i], ExpiryOrDefault(expiryMinutes))
           && body.photos[i].photoName == ListPhotos(b, userId).body.photos[i]
  {
    AllUserPhotoUrlsMatchListing(b, userId, ExpiryOrDefault(expiryMinutes));
  }
}
