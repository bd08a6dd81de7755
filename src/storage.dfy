/** The `StorageService` contract and its two implementations, AwsS3Service
    and MinioService, over one bucket. The remote bucket is a value (`Bucket`);
    every operation is a function of it, and `ObjectStore` holds the bucket
    that uploads replace. Requests that the remote side refuses are described
    by `faults`, the error the SDK raises for a request naming that key,
    and by `listFaults`, the error it raises for a listing of that prefix. */
module Storage {
  import opened Common
  import opened Seqs
  import opened MediaTypes

  datatype Backend = S3 | Minio

  datatype StoredObject = StoredObject(data: seq<byte>, contentType: Option<string>, lastModified: Option<int>, etag: string)

  /** The time and entity tag the remote side gives a fresh write. */
  datatype WriteStamp = WriteStamp(time: int, etag: string)

  datatype Bucket = Bucket(
    backend: Backend,
    name: string,
    objects: map<string, StoredObject>,
    order: seq<string>,
    faults: map<string, SdkError>,
    listFaults: map<string, SdkError>)

  /** The `PhotoMetadata` DTO; the two nullable fields are options. */
  datatype PhotoMetadata = PhotoMetadata(
    bucket: string,
    object: string,
    size: int,
    contentType: Option<string>,
    lastModified: Option<int>,
    etag: string)

  /** The `200 OK` streaming response built by `downloadPhoto`. */
  datatype Download = Download(contentType: string, contentLength: int, contentDisposition: string, body: seq<byte>)

  /** A pre-signed GET URL: which object it opens and for how long. */
  datatype Url = PresignedUrl(bucket: string, key: string, expiryMinutes: int)

  /** What a HEAD / stat request returns. */
  datatype Answer = Found(obj: StoredObject) | Refused(error: SdkError)

  const UploadContext := "Erro ao fazer upload da foto: "
  const DownloadContext := "Erro ao fazer download da foto: "
  const ListContext := "Erro ao listar fotos: "
  const InfoContext := "Erro ao obter informações da foto: "

  /** Every stored key is listed once, and only stored keys are listed. */
  ghost predicate WellFormed(b: Bucket) {
    && Distinct(b.order)
    && (forall k :: k in b.objects <==> k in b.order)
  }

  /** The exception that leaves a service method whose SDK call failed with
      `e`: AwsS3Service catches only `S3Exception`, so a client-side error of
      the AWS SDK escapes unwrapped; MinioService wraps every exception. */
  function Raise(backend: Backend, context: string, e: SdkError): Failure {
    if backend == S3 && e.ClientError? then SdkFailure(e) else StorageFailure(context, e)
  }

  function Head(b: Bucket, key: string): Answer {
    if key in b.faults then Refused(b.faults[key])
    else if key !in b.objects then Refused(NoSuchKey)
    else Found(b.objects[key])
  }

  /** `uploadPhoto`: stores (or overwrites) the object and returns its key. */
  function Put(b: Bucket, key: string, data: seq<byte>, contentType: Option<string>, stamp: WriteStamp): (Outcome<string>, Bucket) {
    if key in b.faults then (Thrown(Raise(b.backend, UploadContext, b.faults[key])), b)
    else
      var obj := StoredObject(data, contentType, Some(stamp.time), stamp.etag);
      (Done(key), b.(objects := b.objects[key := obj],
                     order := if key in b.objects then b.order else b.order + [key]))
  }

  function Disposition(key: string): string {
    "inline; filename=\"" + key + "\""
  }

  /** `downloadPhoto`: S3 prefers the stored content type, MinIO always
      derives it from the key's extension. */
  function Get(b: Bucket, key: string): Outcome<Download> {
    match Head(b, key)
    case Refused(e) => Thrown(Raise(b.backend, DownloadContext, e))
    case Found(obj) =>
      var contentType := if b.backend == S3 then obj.contentType.GetOr(ContentTypeOf(key)) else ContentTypeOf(key);
      Done(Download(contentType, |obj.data|, Disposition(key), obj.data))
  }

  /** `photoExists`: a refused HEAD means "no", except an AWS client-side
      error, which no catch clause of AwsS3Service intercepts. */
  function Exists(b: Bucket, key: string): Outcome<bool> {
    match Head(b, key)
    case Found(_) => Done(true)
    case Refused(e) => if b.backend == S3 && e.ClientError? then Thrown(SdkFailure(e)) else Done(false)
  }

  /** `getPhotoInfo`. */
  function Stat(b: Bucket, key: string): Outcome<PhotoMetadata> {
    match Head(b, key)
    case Refused(e) => Thrown(Raise(b.backend, InfoContext, e))
    case Found(obj) => Done(PhotoMetadata(b.name, key, |obj.data|, obj.contentType, obj.lastModified, obj.etag))
  }

  /** `getPresignedDownloadUrl`: signing is local and never consults the bucket. */
  function Presign(b: Bucket, key: string, expiryMinutes: int): Url {
    PresignedUrl(b.name, key, expiryMinutes)
  }

  /** The keys a prefix listing enumerates, in bucket order. */
  function Enumerate(b: Bucket, prefix: string): seq<string> {
    Filter(b.order, k => prefix <= k)
  }

  /** The keys kept by `isImageFile`, in order. */
  function ImageKeys(keys: seq<string>): seq<string> {
    Filter(keys, IsImageFile)
  }

  /** The raw listing request. */
  function Listing(b: Bucket, prefix: string): Outcome<seq<string>> {
    if prefix in b.listFaults then Thrown(Raise(b.backend, ListContext, b.listFaults[prefix]))
    else Done(Enumerate(b, prefix))
  }

  /** `listPhotos`: the listing reduced to image files. */
  function PhotoListing(b: Bucket, prefix: string): Outcome<seq<string>> {
    var keys :- Listing(b, prefix);
    Done(ImageKeys(keys))
  }

  /** A successful listing holds exactly the stored image keys under the
      prefix, each once. */
  lemma PhotoListingContents(b: Bucket, prefix: string)
    requires WellFormed(b)
    ensures PhotoListing(b, prefix).Thrown? <==> prefix in b.listFaults
    ensures PhotoListing(b, prefix).Done? ==>
      && Distinct(PhotoListing(b, prefix).value)
      && forall k :: k in PhotoListing(b, prefix).value <==> k in b.objects && prefix <= k && IsImageFile(k)
  {
    if prefix !in b.listFaults {
      var keys := Enumerate(b, prefix);
      FilterDistinct(b.order, k => prefix <= k);
      FilterDistinct(keys, IsImageFile);
      forall k ensures k in ImageKeys(keys) <==> k in b.objects && prefix <= k && IsImageFile(k) {
        FilterMembership(keys, IsImageFile, k);
        FilterMembership(b.order, k => prefix <= k, k);
      }
    }
  }

  /** A failed listing reports the backend's error under the listing context. */
  lemma PhotoListingFault(b: Bucket, prefix: string)
    requires prefix in b.listFaults
    ensures PhotoListing(b, prefix) == Thrown(Raise(b.backend, ListContext, b.listFaults[prefix]))
  {
  }

  /** Uploading keeps the bucket well formed. */
  lemma PutWellFormed(b: Bucket, key: string, data: seq<byte>, contentType: Option<string>, stamp: WriteStamp)
    requires WellFormed(b)
    ensures WellFormed(Put(b, key, data, contentType, stamp).1)
  {
    var b' := Put(b, key, data, contentType, stamp).1;
    if key !in b.faults && key !in b.objects {
      assert b'.order == b.order + [key];
      forall i, j | 0 <= i < j < |b'.order| ensures b'.order[i] != b'.order[j] {
        if j == |b.order| {
          assert b'.order[i] == b.order[i];
        }
      }
    }
  }

  /** A refused upload leaves the bucket as it was and reports the error. */
  lemma PutFault(b: Bucket, key: string, data: seq<byte>, contentType: Option<string>, stamp: WriteStamp)
    requires key in b.faults
    ensures Put(b, key, data, contentType, stamp) == (Thrown(Raise(b.backend, UploadContext, b.faults[key])), b)
  {
  }

  /** Downloading what was just uploaded streams back the same bytes, with
      their length and an inline disposition naming the key. */
  lemma PutThenGet(b: Bucket, key: string, data: seq<byte>, contentType: Option<string>, stamp: WriteStamp)
    requires key !in b.faults
    ensures Put(b, key, data, contentType, stamp).0 == Done(key)
    ensures Get(Put(b, key, data, contentType, stamp).1, key).Done?
    ensures var d := Get(Put(b, key, data, contentType, stamp).1, key).value;
      && d.body == data
      && d.contentLength == |data|
      && d.contentDisposition == Disposition(key)
      && d.contentType == (if b.backend == S3 then contentType.GetOr(ContentTypeOf(key)) else ContentTypeOf(key))
  {
  }

  /** After an upload the object exists and its metadata is the upload's. */
  lemma PutThenStat(b: Bucket, key: string, data: seq<byte>, contentType: Option<string>, stamp: WriteStamp)
    requires key !in b.faults
    ensures Exists(Put(b, key, data, contentType, stamp).1, key) == Done(true)
    ensures Stat(Put(b, key, data, contentType, stamp).1, key)
      == Done(PhotoMetadata(b.name, key, |data|, contentType, Some(stamp.time), stamp.etag))
  {
  }

  /** An upload changes no other key. */
  lemma PutKeepsOthers(b: Bucket, key: string, data: seq<byte>, contentType: Option<string>, stamp: WriteStamp, other: string)
    requires other != key
    ensures Head(Put(b, key, data, contentType, stamp).1, other) == Head(b, other)
    ensures Get(Put(b, key, data, contentType, stamp).1, other) == Get(b, other)
    ensures Exists(Put(b, key, data, contentType, stamp).1, other) == Exists(b, other)
    ensures Stat(Put(b, key, data, contentType, stamp).1, other) == Stat(b, other)
  {
  }

  /** An uploaded image shows up in every listing whose prefix it starts with. */
  lemma PutThenListed(b: Bucket, key: string, data: seq<byte>, contentType: Option<string>, stamp: WriteStamp, prefix: string)
    requires WellFormed(b)
    requires key !in b.faults && prefix !in b.listFaults
    ensures PhotoListing(Put(b, key, data, contentType, stamp).1, prefix).Done?
    ensures key in PhotoListing(Put(b, key, data, contentType, stamp).1, prefix).value
            <==> prefix <= key && IsImageFile(key)
  {
    var b' := Put(b, key, data, contentType, stamp).1;
    PutWellFormed(b, key, data, contentType, stamp);
    PhotoListingContents(b', prefix);
  }

  /** A new image key joins every listing whose prefix it starts with: the
      listing gains exactly that key, once, and nothing else changes. In the
      model's insertion order it also comes last. */
  lemma PutNewKeyAppendsToListing(b: Bucket, key: string, data: seq<byte>, contentType: Option<string>, stamp: WriteStamp, prefix: string)
    requires key !in b.faults && key !in b.objects && prefix !in b.listFaults
    requires prefix <= key && IsImageFile(key)
    ensures PhotoListing(Put(b, key, data, contentType, stamp).1, prefix).Done?
    ensures multiset(PhotoListing(Put(b, key, data, contentType, stamp).1, prefix).value)
            == multiset(PhotoListing(b, prefix).value) + multiset{key}
    ensures |PhotoListing(Put(b, key, data, contentType, stamp).1, prefix).value|
            == |PhotoListing(b, prefix).value| + 1
    ensures PhotoListing(Put(b, key, data, contentType, stamp).1, prefix)
            == Done(PhotoListing(b, prefix).value + [key])
  {
    var b' := Put(b, key, data, contentType, stamp).1;
    NewKeyEnumeratedLast(b, b', key, prefix);
    var before := ImageKeys(Enumerate(b, prefix));
    FilterAppend(Enumerate(b, prefix), [key], IsImageFile);
    assert Filter([key], IsImageFile) == [key] by {
      assert [key][..0] == [];
    }
    assert ImageKeys(Enumerate(b', prefix)) == before + [key];
    assert multiset(before + [key]) == multiset(before) + multiset{key};
  }

  /** The bucket's order gains the new key at its end, so the enumeration
      of a prefix it starts with does too. */
  lemma NewKeyEnumeratedLast(b: Bucket, b': Bucket, key: string, prefix: string)
    requires b'.order == b.order + [key] && prefix <= key
    ensures Enumerate(b', prefix) == Enumerate(b, prefix) + [key]
  {
    FilterAppend(b.order, [key], k => prefix <= k);
    assert Filter([key], k => prefix <= k) == [key] by {
      assert [key][..0] == [];
    }
  }

  /** The existence check and the metadata call agree whenever the object is
      there; on a missing key the check answers "no" while the metadata call
      throws, and on S3 an unexpected client error escapes both. */
  lemma ExistsAgainstStat(b: Bucket, key: string)
    ensures Exists(b, key) == Done(true) <==> Stat(b, key).Done?
    ensures key !in b.faults && key !in b.objects ==>
      && Exists(b, key) == Done(false)
      && Stat(b, key) == Thrown(StorageFailure(InfoContext, NoSuchKey))
    ensures Exists(b, key).Thrown? <==> b.backend == S3 && key in b.faults && b.faults[key].ClientError?
  {
  }

  /** MinIO wraps every failure under the operation's own message. */
  lemma MinioWrapsEverything(b: Bucket, key: string)
    requires b.backend == Minio && key in b.faults
    ensures Exists(b, key) == Done(false)
    ensures Get(b, key) == Thrown(StorageFailure(DownloadContext, b.faults[key]))
    ensures Stat(b, key) == Thrown(StorageFailure(InfoContext, b.faults[key]))
  {
  }

  /** The two backends differ only in the download's content type, and only
      when S3 holds a stored content type the extension does not give. */
  lemma BackendsDifferOnContentType(b: Bucket, key: string)
    requires key !in b.faults && key in b.objects
    ensures Get(b.(backend := S3), key).Done? && Get(b.(backend := Minio), key).Done?
    ensures Get(b.(backend := S3), key) != Get(b.(backend := Minio), key)
            <==> b.objects[key].contentType.Some? && b.objects[key].contentType.value != ContentTypeOf(key)
  {
  }

  /** The bucket as one object held by the service: uploads replace it. */
  class ObjectStore {
    var bucket: Bucket

    ghost predicate Valid()
      reads this
    {
      WellFormed(bucket)
    }

    constructor (initial: Bucket)
      requires WellFormed(initial)
      ensures Valid() && bucket == initial
    {
      bucket := initial;
    }

    method UploadPhoto(key: string, data: seq<byte>, contentType: Option<string>, stamp: WriteStamp) returns (r: Outcome<string>)
      requires Valid()
      modifies this
      ensures Valid()
      ensures (r, bucket) == Put(old(bucket), key, data, contentType, stamp)
    {
      PutWellFormed(bucket, key, data, contentType, stamp);
      var after;
      r, after := Put(bucket, key, data, contentType, stamp).0, Put(bucket, key, data, contentType, stamp).1;
      bucket := after;
    }

    /** `listPhotos`: walks the listing and keeps the image files. */
    method ListPhotos(prefix: string) returns (r: Outcome<seq<string>>)
      ensures r == PhotoListing(bucket, prefix)
    {
      var listed :- Listing(bucket, prefix);
      var photos: seq<string> := [];
      for i := 0 to |listed|
        invariant photos == ImageKeys(listed[..i])
      {
        assert listed[..i + 1][..i] == listed[..i];
        if IsImageFile(listed[i]) {
          photos := photos + [listed[i]];
        }
      }
      assert listed[..|listed|] == listed;
      r := Done(photos);
    }
  }
}
