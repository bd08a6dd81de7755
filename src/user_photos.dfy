/** UserPhotoService: a user's photos live under `users/{userId}/`, and the
    avatar under `users/{userId}/avatar{ext}`, found by probing the four
    avatar extensions in order. */
module UserPhotos {
  import opened Common
  import opened Text
  import opened Seqs
  import opened MediaTypes
  import opened Http
  import opened Storage
  import opened PhotoNaming

  /** The `PhotoUrlInfo` record. */
  datatype PhotoUrlInfo = PhotoUrlInfo(photoName: string, url: Url, fullPath: string)

  /** Every key answers "does not exist". */
  predicate AllMissing(b: Bucket, keys: seq<string>) {
    forall i :: 0 <= i < |keys| ==> Exists(b, keys[i]) == Done(false)
  }

  /** Probing `keys` in order: the first key that exists, none when every
      key is missing, or the exception of the first check that throws. */
  function FirstExisting(b: Bucket, keys: seq<string>): (r: Outcome<Option<string>>)
    ensures r == Done(None) <==> AllMissing(b, keys)
    ensures r.Done? && r.value.Some? ==> r.value.value in keys && Exists(b, r.value.value) == Done(true)
    ensures (forall i :: 0 <= i < |keys| ==> Exists(b, keys[i]).Done?) ==> r.Done?
    decreases |keys|
  {
    if keys == [] then Done(None)
    else
      var found :- Exists(b, keys[0]);
      if found then Done(Some(keys[0]))
      else
        var r := FirstExisting(b, keys[1..]);
        assert forall i :: 0 <= i < |keys[1..]| ==> keys[1..][i] == keys[i + 1];
        r
  }

  /** Keys known to be missing can be skipped. */
  lemma {:induction false} SkipMisses(b: Bucket, keys: seq<string>, n: nat)
    requires n <= |keys|
    requires AllMissing(b, keys[..n])
    ensures FirstExisting(b, keys) == FirstExisting(b, keys[n..])
    decreases n
  {
    if n > 0 {
      assert keys[..n][0] == keys[0];
      assert keys[1..][..n - 1] == keys[..n][1..];
      SkipMisses(b, keys[1..], n - 1);
      assert keys[1..][n - 1..] == keys[n..];
    }
  }

  /** The probe stops at the first existing key after a run of misses. */
  lemma FirstHitWins(b: Bucket, keys: seq<string>, n: nat)
    requires n < |keys|
    requires AllMissing(b, keys[..n]) && Exists(b, keys[n]) == Done(true)
    ensures FirstExisting(b, keys) == Done(Some(keys[n]))
  {
    SkipMisses(b, keys, n);
  }

  /** A check that throws after a run of misses ends the probe with its exception. */
  lemma FirstThrowEnds(b: Bucket, keys: seq<string>, n: nat)
    requires n < |keys|
    requires AllMissing(b, keys[..n]) && Exists(b, keys[n]).Thrown?
    ensures FirstExisting(b, keys) == Thrown(Exists(b, keys[n]).failure)
  {
    SkipMisses(b, keys, n);
  }

  /** `getUserAvatarUrl`: a URL for the first avatar candidate that exists. */
  function AvatarUrl(b: Bucket, userId: string, expiryMinutes: int): Outcome<Option<Url>> {
    var hit :- FirstExisting(b, AvatarCandidates(userId));
    Done(if hit.Some? then Some(Presign(b, hit.value, expiryMinutes)) else None)
  }

  /** `userHasAvatar`. */
  function HasAvatar(b: Bucket, userId: string): Outcome<bool> {
    var hit :- FirstExisting(b, AvatarCandidates(userId));
    Done(hit.Some?)
  }

  /** The avatar URL and the avatar check probe the same candidates: there is
      a URL exactly when there is an avatar, and none exactly when all four
      candidates are missing. */
  lemma AvatarUrlAgreesWithHasAvatar(b: Bucket, userId: string, expiryMinutes: int)
    ensures AvatarUrl(b, userId, expiryMinutes).Done? <==> HasAvatar(b, userId).Done?
    ensures HasAvatar(b, userId) == Done(true) <==> AvatarUrl(b, userId, expiryMinutes).Done? && AvatarUrl(b, userId, expiryMinutes).value.Some?
    ensures HasAvatar(b, userId) == Done(false) <==> AllMissing(b, AvatarCandidates(userId))
    ensures AvatarUrl(b, userId, expiryMinutes) == Done(None) <==> AllMissing(b, AvatarCandidates(userId))
  {
  }

  /** `userPhotoExists`. */
  function UserPhotoExists(b: Bucket, userId: string, photoName: string): Outcome<bool> {
    Exists(b, UserPhotoPath(userId, photoName))
  }

  /** `getUserPhotoUrl`: no URL for a photo that does not exist. */
  function UserPhotoUrl(b: Bucket, userId: string, photoName: string, expiryMinutes: int): Outcome<Option<Url>> {
    var found :- UserPhotoExists(b, userId, photoName);
    Done(if found then Some(Presign(b, UserPhotoPath(userId, photoName), expiryMinutes)) else None)
  }

  lemma UserPhotoUrlOnlyForExisting(b: Bucket, userId: string, photoName: string, expiryMinutes: int)
    ensures UserPhotoUrl(b, userId, photoName, expiryMinutes) == Done(None)
            <==> UserPhotoExists(b, userId, photoName) == Done(false)
    ensures UserPhotoUrl(b, userId, photoName, expiryMinutes).Done? && UserPhotoUrl(b, userId, photoName, expiryMinutes).value.Some?
            <==> UserPhotoExists(b, userId, photoName) == Done(true)
    ensures UserPhotoExists(b, userId, photoName) == Done(true) ==>
            UserPhotoUrl(b, userId, photoName, expiryMinutes).value.value
            == PresignedUrl(b.name, UserPhotoPath(userId, photoName), expiryMinutes)
  {
  }

  /** `listUserPhotos`: the image keys under the user's prefix, each with that
      prefix removed. */
  function ListUserPhotos(b: Bucket, userId: string): Outcome<seq<string>> {
    var photos :- PhotoListing(b, UserPrefix(userId));
    Done(StripAll(photos, UserPrefix(userId)))
  }

  /** `countUserPhotos`. */
  function CountUserPhotos(b: Bucket, userId: string): Outcome<int> {
    var names :- ListUserPhotos(b, userId);
    Done(|names|)
  }

  /** The user listing keeps the backend listing's length and order, and the
      count is its length. */
  lemma ListUserPhotosFollowsListing(b: Bucket, userId: string)
    ensures ListUserPhotos(b, userId).Done? <==> PhotoListing(b, UserPrefix(userId)).Done?
    ensures CountUserPhotos(b, userId).Done? <==> PhotoListing(b, UserPrefix(userId)).Done?
    ensures ListUserPhotos(b, userId).Done? ==>
      var keys := PhotoListing(b, UserPrefix(userId)).value;
      var names := ListUserPhotos(b, userId).value;
      && |names| == |keys|
      && CountUserPhotos(b, userId) == Done(|keys|)
      && forall i :: 0 <= i < |keys| ==> names[i] == RemoveAll(keys[i], UserPrefix(userId))
  {
  }

  /** `getAllUserPhotoUrls`: one entry per listed key, in order. */
  function AllUserPhotoUrls(b: Bucket, userId: string, expiryMinutes: int): Outcome<seq<PhotoUrlInfo>> {
    var photos :- PhotoListing(b, UserPrefix(userId));
    Done(seq(|photos|, i requires 0 <= i < |photos| =>
      PhotoUrlInfo(RemoveAll(photos[i], UserPrefix(userId)), Presign(b, photos[i], expiryMinutes), photos[i])))
  }

  /** Each batch entry carries the listed key as its full path, the listed
      name as its photo name, and a URL presigned for that very key. */
  lemma AllUserPhotoUrlsMatchListing(b: Bucket, userId: string, expiryMinutes: int)
    ensures AllUserPhotoUrls(b, userId, expiryMinutes).Done? <==> ListUserPhotos(b, userId).Done?
    ensures AllUserPhotoUrls(b, userId, expiryMinutes).Done? ==>
      var keys := PhotoListing(b, UserPrefix(userId)).value;
      var names := ListUserPhotos(b, userId).value;
      var infos := AllUserPhotoUrls(b, userId, expiryMinutes).value;
      && |infos| == |keys| == |names|
      && forall i :: 0 <= i < |infos| ==>
           && infos[i].fullPath == keys[i]
           && infos[i].photoName == names[i]
           && infos[i].url == PresignedUrl(b.name, keys[i], expiryMinutes)
  {
  }

  /** A photo stored under a user's key comes back in that user's listing
      under its own name, unless the name itself repeats the user's prefix. */
  lemma UploadedPhotoIsListed(b: Bucket, userId: string, photoName: string, data: seq<byte>, contentType: Option<string>, stamp: WriteStamp)
    requires WellFormed(b)
    requires UserPhotoPath(userId, photoName) !in b.faults && UserPrefix(userId) !in b.listFaults
    requires IsImageFile(UserPhotoPath(userId, photoName))
    requires !Occurs(UserPrefix(userId), photoName)
    ensures ListUserPhotos(Put(b, UserPhotoPath(userId, photoName), data, contentType, stamp).1, userId).Done?
    ensures photoName in ListUserPhotos(Put(b, UserPhotoPath(userId, photoName), data, contentType, stamp).1, userId).value
  {
    var key := UserPhotoPath(userId, photoName);
    var b' := Put(b, key, data, contentType, stamp).1;
    PutThenListed(b, key, data, contentType, stamp, UserPrefix(userId));
    var keys := PhotoListing(b', UserPrefix(userId)).value;
    var i :| 0 <= i < |keys| && keys[i] == key;
    StripUserPhotoPath(userId, photoName);
    assert ListUserPhotos(b', userId).value[i] == photoName;
  }

  /** A new image key under the user's prefix adds its photo name to the
      listing, once, and the count grows by one. In the model's insertion
      order the name also comes last. */
  lemma NewPhotoAppendsToListing(b: Bucket, userId: string, photoName: string, data: seq<byte>, contentType: Option<string>, stamp: WriteStamp)
    requires UserPhotoPath(userId, photoName) !in b.faults && UserPrefix(userId) !in b.listFaults
    requires UserPhotoPath(userId, photoName) !in b.objects
    requires IsImageFile(UserPhotoPath(userId, photoName))
    requires !Occurs(UserPrefix(userId), photoName)
    ensures var after := Put(b, UserPhotoPath(userId, photoName), data, contentType, stamp).1;
      && ListUserPhotos(after, userId).Done?
      && multiset(ListUserPhotos(after, userId).value) == multiset(ListUserPhotos(b, userId).value) + multiset{photoName}
      && CountUserPhotos(after, userId) == Done(CountUserPhotos(b, userId).value + 1)
    ensures var after := Put(b, UserPhotoPath(userId, photoName), data, contentType, stamp).1;
      ListUserPhotos(after, userId) == Done(ListUserPhotos(b, userId).value + [photoName])
  {
    var key := UserPhotoPath(userId, photoName);
    var prefix := UserPrefix(userId);
    assert prefix <= key;
    PutNewKeyAppendsToListing(b, key, data, contentType, stamp, prefix);
    StripUserPhotoPath(userId, photoName);
    ListingGrowthShows(b, Put(b, key, data, contentType, stamp).1, userId, key);
  }

  /** A listing that gained one key gains its stripped name, in last place. */
  lemma ListingGrowthShows(b: Bucket, b': Bucket, userId: string, key: string)
    requires PhotoListing(b, UserPrefix(userId)).Done?
    requires PhotoListing(b', UserPrefix(userId)) == Done(PhotoListing(b, UserPrefix(userId)).value + [key])
    ensures ListUserPhotos(b', userId) == Done(ListUserPhotos(b, userId).value + [RemoveAll(key, UserPrefix(userId))])
    ensures CountUserPhotos(b', userId) == Done(CountUserPhotos(b, userId).value + 1)
  {
    var prefix := UserPrefix(userId);
    var names := StripAll(PhotoListing(b, prefix).value, prefix);
    assert ListUserPhotos(b, userId) == Done(names);
    assert ListUserPhotos(b', userId) == Done(names + [RemoveAll(key, prefix)]) by {
      StripAllAppend(PhotoListing(b, prefix).value, key, prefix);
    }
  }

  /** `uploadUserAvatar` keeps the extension as given, so an earlier `.jpg`
      avatar keeps being the one found after any later avatar upload. */
  lemma JpegAvatarShadowsLaterUploads(b: Bucket, userId: string, filename: Option<string>, data: seq<byte>, contentType: Option<string>, stamp: WriteStamp, expiryMinutes: int)
    requires AvatarCandidates(userId)[0] in b.objects
    requires AvatarCandidates(userId)[0] !in b.faults
    requires AvatarPath(userId, FileExtension(filename)) !in b.faults
    ensures var after := Put(b, AvatarPath(userId, FileExtension(filename)), data, contentType, stamp).1;
      AvatarUrl(after, userId, expiryMinutes) == Done(Some(PresignedUrl(b.name, AvatarCandidates(userId)[0], expiryMinutes)))
  {
    var after := Put(b, AvatarPath(userId, FileExtension(filename)), data, contentType, stamp).1;
    var cs := AvatarCandidates(userId);
    assert Exists(after, cs[0]) == Done(true);
    FirstHitWins(after, cs, 0);
  }

  /** An avatar uploaded with one of the probed extensions is found afterwards,
      provided no candidate check fails. */
  lemma ProbedAvatarUploadIsFound(b: Bucket, userId: string, filename: Option<string>, data: seq<byte>, contentType: Option<string>, stamp: WriteStamp)
    requires FileExtension(filename) in AvatarExtensions
    requires forall i :: 0 <= i < |AvatarCandidates(userId)| ==> AvatarCandidates(userId)[i] !in b.faults
    ensures HasAvatar(Put(b, AvatarPath(userId, FileExtension(filename)), data, contentType, stamp).1, userId) == Done(true)
  {
    var key := AvatarPath(userId, FileExtension(filename));
    var after := Put(b, key, data, contentType, stamp).1;
    var cs := AvatarCandidates(userId);
    AvatarUploadIsProbed(userId, filename);
    var i :| 0 <= i < |cs| && cs[i] == key;
    assert Exists(after, cs[i]) == Done(true);
    assert forall j :: 0 <= j < |cs| ==> Exists(after, cs[j]).Done?;
  }

  /** `uploadUserPhoto(userId, file)`: stores under a generated name and
      returns that bare name. */
  method UploadUserPhoto(store: ObjectStore, userId: string, file: MultipartFile, uuid: string, stamp: WriteStamp) returns (r: Outcome<string>)
    requires store.Valid()
    modifies store
    ensures store.Valid()
    ensures var put := Put(old(store.bucket), UserPhotoPath(userId, UniqueFileName(uuid, file.originalFilename)), file.bytes, file.contentType, stamp);
      && store.bucket == put.1
      && r == (if put.0.Done? then Done(UniqueFileName(uuid, file.originalFilename)) else Thrown(put.0.failure))
  {
    var fileName := UniqueFileName(uuid, file.originalFilename);
    var objectName := UserPhotoPath(userId, fileName);
    var _ :- store.UploadPhoto(objectName, file.bytes, file.contentType, stamp);
    r := Done(fileName);
  }

  /** `uploadUserPhoto(userId, photoName, file)`: returns the name it was given. */
  method UploadUserPhotoNamed(store: ObjectStore, userId: string, photoName: string, file: MultipartFile, stamp: WriteStamp) returns (r: Outcome<string>)
    requires store.Valid()
    modifies store
    ensures store.Valid()
    ensures var put := Put(old(store.bucket), UserPhotoPath(userId, photoName), file.bytes, file.contentType, stamp);
      && store.bucket == put.1
      && r == (if put.0.Done? then Done(photoName) else Thrown(put.0.failure))
  {
    var objectName := UserPhotoPath(userId, photoName);
    var _ :- store.UploadPhoto(objectName, file.bytes, file.contentType, stamp);
    r := Done(photoName);
  }

  /** `uploadUserAvatar`: stores under `avatar{ext}` and returns the full key. */
  method UploadUserAvatar(store: ObjectStore, userId: string, file: MultipartFile, stamp: WriteStamp) returns (r: Outcome<string>)
    requires store.Valid()
    modifies store
    ensures store.Valid()
    ensures var key := AvatarPath(userId, FileExtension(file.originalFilename));
      var put := Put(old(store.bucket), key, file.bytes, file.contentType, stamp);
      && store.bucket == put.1
      && r == (if put.0.Done? then Done(key) else Thrown(put.0.failure))
  {
    var extension := FileExtension(file.originalFilename);
    var objectName := UserPhotoPath(userId, "avatar" + extension);
    r := store.UploadPhoto(objectName, file.bytes, file.contentType, stamp);
  }

  /** `getUserAvatarUrl`: the probe loop, returning on the first hit. */
  method GetUserAvatarUrl(store: ObjectStore, userId: string, expiryMinutes: int) returns (r: Outcome<Option<Url>>)
    ensures r == AvatarUrl(store.bucket, userId, expiryMinutes)
  {
    ghost var candidates := AvatarCandidates(userId);
    for i := 0 to |AvatarExtensions|
      invariant FirstExisting(store.bucket, candidates) == FirstExisting(store.bucket, candidates[i..])
    {
      var objectName := UserPhotoPath(userId, "avatar" + AvatarExtensions[i]);
      assert candidates[i..][0] == objectName;
      assert candidates[i..][1..] == candidates[i + 1..];
      var found :- Exists(store.bucket, objectName);
      if found {
        return Done(Some(Presign(store.bucket, objectName, expiryMinutes)));
      }
    }
    return Done(None);
  }

  /** `userHasAvatar`: the same probe loop, answering whether it hit. */
  method UserHasAvatar(store: ObjectStore, userId: string) returns (r: Outcome<bool>)
    ensures r == HasAvatar(store.bucket, userId)
  {
    ghost var candidates := AvatarCandidates(userId);
    for i := 0 to |AvatarExtensions|
      invariant FirstExisting(store.bucket, candidates) == FirstExisting(store.bucket, candidates[i..])
    {
      var objectName := UserPhotoPath(userId, "avatar" + AvatarExtensions[i]);
      assert candidates[i..][0] == objectName;
      assert candidates[i..][1..] == candidates[i + 1..];
      var found :- Exists(store.bucket, objectName);
      if found {
        return Done(true);
      }
    }
    return Done(false);
  }
}
