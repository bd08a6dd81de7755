# Amooora photo storage, user service and client lists — a Dafny model

This project models the core of the Amooora application in Dafny.

- **Photo storage backend (Java, Spring).** The `StorageService` contract and its two implementations, `AwsS3Service` and `MinioService`. `UserPhotoService`, which keeps each user's photos under `users/{userId}/` and an avatar under `users/{userId}/avatar{ext}`. The two REST controllers: `UserPhotoController` (`/api/users/{userId}/photos`) and `PhotoController` (`/api/photos`).
- **User service (Java).** `UserServiceImpl` over its JPA repository, and the `UserDTO` conversions to and from the `User` entity.
- **Web client (TypeScript).** `uploadImage` from `src/lib/storage.ts`, and the `useFavorites` and `useAttendedEvents` hooks.

## How the model is laid out

All files are under `src/`. Each module follows one part of the program.

| module | file | models |
|---|---|---|
| `Common` | common.dfy | null-able values (`Option`), bytes, SDK errors, the exceptions that escape (`Failure`), and a call's result (`Outcome`) |
| `Text` | text.dfy | `lastIndexOf`, ASCII `toLowerCase`, `String.replace(t, "")`, `substring(lastIndexOf(c) + 1)` / `split(c).pop()`, and decimal printing of integers |
| `Seqs` | seqs.dfy | `filter` on sequences and distinctness |
| `MediaTypes` | media_types.dfy | `determineContentType` and `isImageFile`, which both backends define with the same text |
| `Http` | http.dfy | `MultipartFile`, `ResponseEntity` as a status and a body, and the `expiryMinutes` default of 60 |
| `PhotoNaming` | photo_naming.dfy | `buildUserPhotoPath`, `getFileExtension` and `generateUniqueFileName`, which the user service and the user controller both define; avatar candidate keys; prefix stripping |
| `Storage` | storage.dfy | the bucket as a value, the six `StorageService` operations for both backends, and the class `ObjectStore` whose bucket uploads replace |
| `UserPhotos` | user_photos.dfy | `UserPhotoService` |
| `UserPhotoApi` | user_photo_api.dfy | `UserPhotoController` |
| `PhotoApi` | photo_api.dfy | `PhotoController` |
| `Users` | users.dfy | `User` and `UserDTO` |
| `UserService` | user_service.dfy | `UserServiceImpl`, as a class over the repository's table |
| `ImageUpload` | image_upload.dfy | `uploadImage` |
| `IdLists` | id_lists.dfy | the toggle and filter the two hooks share, and reading `localStorage` |
| `Favorites` | favorites.dfy | `useFavorites`, as a class holding the state cell and the stored entry |
| `AttendedEvents` | attended_events.dfy | `useAttendedEvents`, in the same form |

### Modelling choices

- **The remote bucket is a value.** `Storage.Bucket` holds the stored objects, the order a listing returns them in, `faults`: the SDK error that a request naming a key meets, and `listFaults`: the SDK error that a listing of a prefix meets. Every storage operation is a function of the bucket. `ObjectStore` is the service's handle on the bucket, and its `UploadPhoto` replaces it.
- **The two backends are one datatype.** `Backend = S3 | Minio`, because the backends differ only in a few places:
  - S3 catches only `S3Exception`. A client-side AWS error (`ClientError`) therefore escapes unwrapped, even from `photoExists`.
  - MinIO catches every exception and wraps it, or answers "no" in `photoExists`.
  - On download, S3 serves the stored content type when there is one. MinIO always derives the type from the key.
- **A request's answer** is a `Response`: `Ok`, `Created`, `BadRequest`, `NotFound`, or `Raised` for an exception that escapes the handler (Spring's default 500).
- **Generated values are parameters.** Random UUIDs, timestamps, random strings, and the write time and ETag the remote side assigns are all passed in.
- **Loops stay loops.** The avatar probe loops (`getUserAvatarUrl`, `userHasAvatar`, `downloadAvatar`) and the listing loop are `for` loops. Each is proved equal to the function that specifies it (`FirstExisting`, `PhotoListing`).
- **State that changes in place is a class.** `UserRepositoryService` holds the table as a `map`, the row order as a `seq`, and the next IDENTITY value. The hooks hold their state cell and their `localStorage` entry.

### Where the code departs from its documented intent (the model follows the code)

- **Listing strips every occurrence of the prefix.** `listUserPhotos` and `getAllUserPhotoUrls` use `String.replace(prefix, "")`, which removes the prefix wherever it occurs, not only at the start. `PhotoNaming.StripRemovesInnerPrefix` shows a name that loses an inner copy.
- **An older `.jpg` avatar hides newer ones.** `uploadUserAvatar` keeps the extension as the file gives it, including its case and extensions outside the probed four. Lookups probe `.jpg`, `.jpeg`, `.png`, `.webp` in that order, lower case. So:
  - `me.PNG` is stored where no probe looks (`PhotoNaming.UpperCaseAvatarIsNotProbed`);
  - an older `avatar.jpg` is still found after a newer `avatar.png` is uploaded (`UserPhotos.JpegAvatarShadowsLaterUploads`).
- **`updateUser` resets `open_network`.** `UserDTO.toUser` leaves `open_network` false, so every update clears it (`UserService.UserRepositoryService.UpdateUser`).
- **The existence checks disagree.** `photoExists` on S3 lets a client-side SDK error escape rather than answer `false` (`Storage.ExistsAgainstStat`). A missing object's `/info` on `PhotoController` is a 500, not a 404 (`PhotoApi.PhotoInfoAfterUpload`).

## Model

| member | source | states |
|---|---|---|
| MediaTypes.ExtensionOf | login_back/src/main/java/br/com/amooora/users/service/AwsS3Service.java:207-208 | the extension is the text after the last dot (the whole key when there is none), lower-cased, and holds no dot |
| MediaTypes.ExtensionAfterDot | login_back/src/main/java/br/com/amooora/users/service/MinioService.java:203-204 | for a key `stem.ext` whose `ext` holds no dot, the extension is `ext` lower-cased |
| MediaTypes.DotlessKey | login_back/src/main/java/br/com/amooora/users/service/AwsS3Service.java:207-208 | a lower-case key with no dot is its own extension, so it is judged whole |
| MediaTypes.ImageIffTyped | login_back/src/main/java/br/com/amooora/users/service/AwsS3Service.java:206-223 | a key passes the image whitelist exactly when the content-type table gives it something other than `application/octet-stream` |
| MediaTypes.WhitelistIffTyped | login_back/src/main/java/br/com/amooora/users/service/MinioService.java:202-219 | extension by extension, the seven whitelisted extensions are exactly those the table maps to an image type |
| MediaTypes.CaseInsensitive | login_back/src/main/java/br/com/amooora/users/service/AwsS3Service.java:206-223 | the extension, the content type and the whitelist test are the same for a key and its lower-cased form |
| MediaTypes.JpegIsImage | login_back/src/main/java/br/com/amooora/users/service/AwsS3Service.java:209-211 | `users/42/a.jpg` is an image served as `image/jpeg` |
| MediaTypes.TextIsNotImage | login_back/src/main/java/br/com/amooora/users/service/AwsS3Service.java:209-217 | `users/42/notes.txt` is not an image and is served as `application/octet-stream` |
| MediaTypes.UpperCaseIsImage | login_back/src/main/java/br/com/amooora/users/service/MinioService.java:203-207 | `HOLIDAY.JPEG` is an image served as `image/jpeg`: the extension is lower-cased before the switch |
| MediaTypes.NamedKey | login_back/src/main/java/br/com/amooora/users/service/MinioService.java:202-219 | a key spelled `stem.ext` is typed and whitelisted by `ext` lower-cased |
| Text.LastIndexOf | login_back/src/main/java/br/com/amooora/users/service/UserPhotoService.java:162 | `lastIndexOf`: -1 or a position holding the character, with none after it |
| Text.AfterLast | src/lib/storage.ts:37 | the text after the last separator holds none, is a suffix of the input, and is the whole input when there is no separator |
| Text.RemoveAll | login_back/src/main/java/br/com/amooora/users/service/UserPhotoService.java:95-97 | `String.replace(prefix, "")` never lengthens the text |
| Text.RemoveAllAbsent | login_back/src/main/java/br/com/amooora/users/service/UserPhotoService.java:95-97 | a text in which the prefix does not occur is left as it is |
| Text.RemoveAllKeepsHead | login_back/src/main/java/br/com/amooora/users/service/UserPhotoService.java:95-97 | characters at which no occurrence starts are copied through |
| Text.DecimalRoundTrip | login_back/src/main/java/br/com/amooora/users/controller/PhotoController.java:72 | the decimal text of a number reads back as that number |
| Text.DecimalStringInjective | login_back/src/main/java/br/com/amooora/users/controller/PhotoController.java:72 | different expiries are echoed as different texts |
| PhotoNaming.FileExtension | login_back/src/main/java/br/com/amooora/users/service/UserPhotoService.java:158-163 | the extension is `.jpg` for a null or dotless name, otherwise the suffix from the last dot, which holds no other dot |
| PhotoNaming.UniqueFileNameKeepsExtension | login_back/src/main/java/br/com/amooora/users/service/UserPhotoService.java:153-163 | the generated name `uuid + ext`, read back with `getFileExtension`, gives the same extension as the original name (for a dot-free UUID) |
| PhotoNaming.UserPhotoPathInjective | login_back/src/main/java/br/com/amooora/users/service/UserPhotoService.java:149-151 | keys of different users, or of different names, never collide while user ids hold no slash |
| PhotoNaming.UserPhotoPathCancel | login_back/src/main/java/br/com/amooora/users/controller/UserPhotoController.java:249-251 | within one user the key determines the photo name |
| PhotoNaming.StripUserPhotoPath | login_back/src/main/java/br/com/amooora/users/service/UserPhotoService.java:90-98 | stripping the prefix from a key built for the user gives the photo name back, when the name does not contain the prefix |
| PhotoNaming.StripRemovesInnerPrefix | login_back/src/main/java/br/com/amooora/users/service/UserPhotoService.java:95-97 | a name that repeats the user prefix loses the inner copy too: every occurrence is removed |
| PhotoNaming.StripNested | login_back/src/main/java/br/com/amooora/users/service/UserPhotoService.java:95-97 | the prefix is removed at the head and again inside the name |
| PhotoNaming.AvatarUploadIsProbed | login_back/src/main/java/br/com/amooora/users/service/UserPhotoService.java:48-72 | an avatar upload lands on a probed key exactly when its extension, case included, is one of `.jpg`, `.jpeg`, `.png`, `.webp` |
| PhotoNaming.DotlessAvatarIsFoundFirst | login_back/src/main/java/br/com/amooora/users/service/UserPhotoService.java:48-72 | a file with no extension is stored as `avatar.jpg`, the first key probed |
| PhotoNaming.UpperCaseAvatarIsNotProbed | login_back/src/main/java/br/com/amooora/users/service/UserPhotoService.java:48-72 | `me.PNG` is stored as `avatar.PNG`, which no probe looks for |
| Storage.PhotoListingContents | login_back/src/main/java/br/com/amooora/users/service/AwsS3Service.java:123-148 | a listing fails exactly when the backend refuses the prefix; otherwise it holds each stored image key under the prefix once, and nothing else |
| Storage.PhotoListingFault | login_back/src/main/java/br/com/amooora/users/service/MinioService.java:149-151 | a refused listing raises the listing error message around the backend error |
| Storage.PutWellFormed | login_back/src/main/java/br/com/amooora/users/service/AwsS3Service.java:45-62 | an upload keeps every stored key listed exactly once |
| Storage.PutFault | login_back/src/main/java/br/com/amooora/users/service/AwsS3Service.java:58-61 | a refused upload changes nothing and raises the upload error |
| Storage.PutThenGet | login_back/src/main/java/br/com/amooora/users/service/AwsS3Service.java:68-91 | downloading an uploaded key streams the same bytes with their length and an inline disposition naming the key; S3 serves the stored content type, MinIO the one derived from the key |
| Storage.PutThenStat | login_back/src/main/java/br/com/amooora/users/service/AwsS3Service.java:154-204 | after an upload the object exists and its metadata is the upload's size, type, time and tag |
| Storage.PutKeepsOthers | login_back/src/main/java/br/com/amooora/users/service/MinioService.java:46-66 | an upload changes what no other key answers |
| Storage.PutThenListed | login_back/src/main/java/br/com/amooora/users/service/AwsS3Service.java:123-148 | an uploaded key is listed under a prefix exactly when it starts with it and is an image |
| Storage.PutNewKeyAppendsToListing | login_back/src/main/java/br/com/amooora/users/service/AwsS3Service.java:123-148 | a new image key joins the listing of every prefix it starts with: the listing's multiset gains exactly that key and its length grows by one; in the model's insertion order the key also comes last |
| Storage.ExistsAgainstStat | login_back/src/main/java/br/com/amooora/users/service/AwsS3Service.java:154-204 | the existence check says yes exactly when the metadata call succeeds; a missing key is "no" for one and an exception for the other; only an AWS client-side error escapes the check |
| Storage.MinioWrapsEverything | login_back/src/main/java/br/com/amooora/users/service/MinioService.java:72-200 | MinIO answers "no" to the existence check of any refused key and wraps every download or metadata failure with its own message |
| Storage.BackendsDifferOnContentType | login_back/src/main/java/br/com/amooora/users/service/AwsS3Service.java:78-79 | the two backends download the same object differently exactly when S3 holds a stored content type other than the one the key's extension gives |
| Storage.ObjectStore.UploadPhoto | login_back/src/main/java/br/com/amooora/users/service/AwsS3Service.java:45-62 | the bucket afterwards, and the answer, are those of one `uploadPhoto` call, and every key stays listed once |
| Storage.ObjectStore.ListPhotos | login_back/src/main/java/br/com/amooora/users/service/AwsS3Service.java:123-148 | the loop over the listing keeps exactly the image keys, in order |
| UserPhotos.FirstExisting | login_back/src/main/java/br/com/amooora/users/service/UserPhotoService.java:61-72 | the probe answers "none" exactly when every key is missing; a hit exists and is one of the keys; when no check throws, neither does the probe |
| UserPhotos.SkipMisses | login_back/src/main/java/br/com/amooora/users/service/UserPhotoService.java:61-72 | keys known to be missing can be skipped without changing the probe's answer |
| UserPhotos.FirstHitWins | login_back/src/main/java/br/com/amooora/users/service/UserPhotoService.java:61-72 | after a run of misses, the first existing key is the one returned |
| UserPhotos.FirstThrowEnds | login_back/src/main/java/br/com/amooora/users/service/UserPhotoService.java:61-72 | after a run of misses, a check that throws ends the probe with its exception |
| UserPhotos.AvatarUrlAgreesWithHasAvatar | login_back/src/main/java/br/com/amooora/users/service/UserPhotoService.java:61-114 | the avatar URL exists exactly when `userHasAvatar` says yes, and is absent exactly when all four candidates are missing |
| UserPhotos.UserPhotoUrlOnlyForExisting | login_back/src/main/java/br/com/amooora/users/service/UserPhotoService.java:77-85 | a URL is given exactly for a photo that exists, and it is presigned for that photo's key |
| UserPhotos.ListUserPhotosFollowsListing | login_back/src/main/java/br/com/amooora/users/service/UserPhotoService.java:90-98 | the user listing and the count fail with the backend listing; otherwise each name is its key with the prefix removed, in order, and the count is their number |
| UserPhotos.AllUserPhotoUrlsMatchListing | login_back/src/main/java/br/com/amooora/users/service/UserPhotoService.java:134-145 | one entry per listed key, in order, carrying that key, its stripped name and a URL presigned for it |
| UserPhotos.UploadedPhotoIsListed | login_back/src/main/java/br/com/amooora/users/service/UserPhotoService.java:36-43 | a named image uploaded for a user comes back in that user's listing under its own name |
| UserPhotos.NewPhotoAppendsToListing | login_back/src/main/java/br/com/amooora/users/service/UserPhotoService.java:90-129 | a new image key adds its name once to the user listing (as a multiset) and raises the count by one; in the model's insertion order the name also comes last |
| UserPhotos.ListingGrowthShows | login_back/src/main/java/br/com/amooora/users/service/UserPhotoService.java:90-129 | a listing that gains one key gains that key's stripped name in last place |
| UserPhotos.JpegAvatarShadowsLaterUploads | login_back/src/main/java/br/com/amooora/users/service/UserPhotoService.java:48-72 | once `avatar.jpg` exists, any later avatar upload leaves the URL pointing at `avatar.jpg` |
| UserPhotos.ProbedAvatarUploadIsFound | login_back/src/main/java/br/com/amooora/users/service/UserPhotoService.java:48-114 | an avatar uploaded with a probed extension is found afterwards when no candidate check fails |
| UserPhotos.UploadUserPhoto | login_back/src/main/java/br/com/amooora/users/service/UserPhotoService.java:23-31 | stores the file under `users/{userId}/{uuid}{ext}` and returns the bare generated name, or the storage exception |
| UserPhotos.UploadUserPhotoNamed | login_back/src/main/java/br/com/amooora/users/service/UserPhotoService.java:36-43 | stores the file under the given name and returns that name, or the storage exception |
| UserPhotos.UploadUserAvatar | login_back/src/main/java/br/com/amooora/users/service/UserPhotoService.java:48-56 | stores the file under `avatar{ext}` with the extension as given and returns the full key |
| UserPhotos.GetUserAvatarUrl | login_back/src/main/java/br/com/amooora/users/service/UserPhotoService.java:61-72 | the probe loop returns the URL of the first existing candidate, none when all are missing, or the first check's exception |
| UserPhotos.UserHasAvatar | login_back/src/main/java/br/com/amooora/users/service/UserPhotoService.java:103-114 | the same loop answers whether any candidate exists |
| UserPhotoApi.UploadUserPhoto | login_back/src/main/java/br/com/amooora/users/controller/UserPhotoController.java:28-58 | an empty file is a 400 with the fixed message and leaves storage untouched; otherwise the file is stored under the given or generated name and the answer is 201 with that name and key |
| UserPhotoApi.UploadAvatar | login_back/src/main/java/br/com/amooora/users/controller/UserPhotoController.java:64-90 | an empty file is a 400 and leaves storage untouched; otherwise 201 with the stored avatar key |
| UserPhotoApi.UploadedPhotoDownloads | login_back/src/main/java/br/com/amooora/users/controller/UserPhotoController.java:28-103 | the key named in an upload's answer downloads back the uploaded bytes |
| UserPhotoApi.AvatarDownloadNotFound | login_back/src/main/java/br/com/amooora/users/controller/UserPhotoController.java:109-122 | the avatar download is 404 exactly when no candidate exists |
| UserPhotoApi.AvatarDownloadFirstHit | login_back/src/main/java/br/com/amooora/users/controller/UserPhotoController.java:109-122 | after a run of missing candidates, the first stored one is streamed, named in its disposition |
| UserPhotoApi.DownloadAvatar | login_back/src/main/java/br/com/amooora/users/controller/UserPhotoController.java:109-122 | the controller's probe loop answers as the first existing candidate's download, 404 or the probe's exception |
| UserPhotoApi.UserPhotoUrlAnswers | login_back/src/main/java/br/com/amooora/users/controller/UserPhotoController.java:128-147 | a missing photo is 404; an existing one gets a URL for its key and the expiry echoed as text, "60" by default |
| UserPhotoApi.ListPhotosCounts | login_back/src/main/java/br/com/amooora/users/controller/UserPhotoController.java:153-168 | the body's total is the number of listed names, each the listed key stripped of the prefix |
| UserPhotoApi.PhotoExistsAnswers | login_back/src/main/java/br/com/amooora/users/controller/UserPhotoController.java:174-187 | on both backends the endpoint answers 200 exactly when the storage check answers, "present" exactly for a stored, reachable photo; it is a 500 exactly for an AWS client-side error on S3 |
| UserPhotoApi.PhotoInfoAnswers | login_back/src/main/java/br/com/amooora/users/controller/UserPhotoController.java:193-214 | a missing photo is 404 and the metadata call is not reached; a stored one reports its size, type, time and tag, and fails on a null content type or time; a refused key is 404, except that an S3 client error escapes |
| UserPhotoApi.PhotoUrlsOnePerPhoto | login_back/src/main/java/br/com/amooora/users/controller/UserPhotoController.java:220-245 | one URL per listed photo, presigned for its key, beside the same name the listing endpoint gives, with the count and the expiry |
| PhotoApi.EmptyUploadRefused | login_back/src/main/java/br/com/amooora/users/controller/PhotoController.java:32-35 | an empty file is a 400 with "Arquivo não pode estar vazio" and leaves the bucket as it was |
| PhotoApi.UploadFallsBackToFileName | login_back/src/main/java/br/com/amooora/users/controller/PhotoController.java:38-51 | without an object name the original file name is used: 201 with that name, which downloads back the uploaded bytes |
| PhotoApi.UploadPrefersObjectName | login_back/src/main/java/br/com/amooora/users/controller/PhotoController.java:38-51 | a given object name wins over the file name |
| PhotoApi.DownloadUrlEchoesExpiry | login_back/src/main/java/br/com/amooora/users/controller/PhotoController.java:66-73 | the expiry given to the presigner is the one echoed, 60 when none is given; no existence check is made |
| PhotoApi.ListWithoutPrefixListsAllImages | login_back/src/main/java/br/com/amooora/users/controller/PhotoController.java:79-83 | with no prefix every stored image key is listed, once |
| PhotoApi.PhotoExistsIsStorageAnswer | login_back/src/main/java/br/com/amooora/users/controller/PhotoController.java:89-93 | the endpoint answers 200 exactly when the storage check does, "present" exactly for a stored, reachable object |
| PhotoApi.PhotoInfoAfterUpload | login_back/src/main/java/br/com/amooora/users/controller/PhotoController.java:99-112 | the info of an uploaded object reports its name, size, type, time and tag; a missing object is a 500, not a 404 |
| Users.FromUser | login_back/src/main/java/br/com/amooora/users/service/dto/UserDTO.java:22-27 | the DTO keeps the entity's id and e-mail |
| Users.ToUser | login_back/src/main/java/br/com/amooora/users/service/dto/UserDTO.java:29-34 | the entity has no id, `open_network` false, and the DTO's e-mail |
| Users.DtoRoundTrip | login_back/src/main/java/br/com/amooora/users/service/dto/UserDTO.java:22-34 | a DTO comes back from the entity unchanged except for its id |
| Users.UserRoundTrip | login_back/src/main/java/br/com/amooora/users/service/dto/UserDTO.java:22-34 | an entity comes back from the DTO unchanged except for its id and `open_network` |
| Users.FromUserForgetsOnlyOpenNetwork | login_back/src/main/java/br/com/amooora/users/service/dto/UserDTO.java:22-27 | two entities give the same DTO exactly when they differ at most in `open_network` |
| UserService.UserRepositoryService.FindAll | login_back/src/main/java/br/com/amooora/users/service/impl/UserServiceImpl.java:22-27 | one DTO per stored row |
| UserService.UserRepositoryService.FindAllListsEveryUser | login_back/src/main/java/br/com/amooora/users/service/impl/UserServiceImpl.java:22-27 | every stored user appears in `findAll`, each entry is a stored user's DTO under its own id, and none twice |
| UserService.UserRepositoryService.FindUserById | login_back/src/main/java/br/com/amooora/users/service/impl/UserServiceImpl.java:30-34 | a stored id gives that user's DTO; an absent id is "Usuário não encontrado"; a null id is refused |
| UserService.UserRepositoryService.FindUserByEmail | login_back/src/main/java/br/com/amooora/users/service/impl/UserServiceImpl.java:37-42 | a hit carries the e-mail asked for and is a stored user's DTO; "Usuário não encontrado" exactly when no user has that e-mail |
| UserService.UserRepositoryService.FindUserByEmailUnique | login_back/src/main/java/br/com/amooora/users/database/repository/UserRepository.java:13-14 | when exactly one user has the e-mail, the lookup returns that user |
| UserService.UserRepositoryService.FindUserByEmailShared | login_back/src/main/java/br/com/amooora/users/service/impl/UserServiceImpl.java:37-42 | the lookup fails with a non-unique-result error exactly when two different users share the e-mail |
| UserService.MatchesShared | login_back/src/main/java/br/com/amooora/users/database/repository/UserRepository.java:13-14 | the single-result query matches more than one row exactly when two stored users share the e-mail |
| UserService.UserRepositoryService.SaveUser | login_back/src/main/java/br/com/amooora/users/service/impl/UserServiceImpl.java:45-48 | inserts the DTO under a fresh id, ignoring the id it carried, and answers with that row, which `findUserById` then finds |
| UserService.UserRepositoryService.UpdateUser | login_back/src/main/java/br/com/amooora/users/service/impl/UserServiceImpl.java:51-56 | an unknown id fails and changes nothing; otherwise the row is replaced under the same id and its `open_network` is reset to false |
| UserService.UserRepositoryService.DeleteUser | login_back/src/main/java/br/com/amooora/users/service/impl/UserServiceImpl.java:60-63 | a null or unknown id fails and changes nothing; otherwise exactly that row is removed |
| ImageUpload.UploadImage | src/lib/storage.ts:10-73 | exactly one of url and error is set; there is a URL exactly when the file is valid and storage accepted it; a refused file reports the validation error |
| ImageUpload.TypeCheckedFirst | src/lib/storage.ts:17-23 | a wrong type reports the type error whatever the size and storage would do |
| ImageUpload.SizeLimitIsInclusive | src/lib/storage.ts:25-32 | for any accepted type, the size error is given exactly when the file is larger than 5 MiB (5242880 bytes); 5 MiB itself passes |
| ImageUpload.StoredPath | src/lib/storage.ts:34-65 | an accepted, stored file's URL points at `timestamp-random.ext` in the bucket, under `folder/` for a non-empty folder and bare when the folder is omitted or empty |
| ImageUpload.FileNameKeepsExtension | src/lib/storage.ts:37-38 | the stored name ends with the original name's text after its last dot, or the whole name when it has none |
| ImageUpload.FailuresAreReported | src/lib/storage.ts:49-72 | a storage refusal is reported behind "Erro ao fazer upload: "; a thrown non-Error value gives the fixed fallback text |
| IdLists.Without | src/app/hooks/useFavorites.ts:46 | the id is gone and every other id is kept |
| IdLists.ToggleMembership | src/app/hooks/useFavorites.ts:39-55 | after a toggle the id is present exactly when it was absent, and every other id is as it was |
| IdLists.ToggleAbsentAppends | src/app/hooks/useAttendedEvents.ts:43 | an absent id is appended after the unchanged list |
| IdLists.WithoutKeepsOrder | src/app/hooks/useAttendedEvents.ts:40 | removing an id keeps the others in order, and a list without it is unchanged |
| IdLists.ToggleTwiceRestores | src/app/hooks/useAttendedEvents.ts:33-49 | toggling an absent id twice gives the list back |
| IdLists.ToggleTwiceMovesToEnd | src/app/hooks/useAttendedEvents.ts:33-49 | toggling a present id twice moves it to the end, once |
| IdLists.ToggleKeepsDistinct | src/app/hooks/useFavorites.ts:39-55 | a list without repetitions keeps none after a toggle |
| Favorites.FavoriteLists.With | src/app/hooks/useFavorites.ts:41-49 | replaces the list of one kind and keeps the other two |
| Favorites.ToggleFavoriteIsLocal | src/app/hooks/useFavorites.ts:39-55 | a toggle changes only its own kind's list and flips the id there |
| Favorites.ToggleFavoriteTwice | src/app/hooks/useFavorites.ts:39-55 | toggling an absent favourite twice restores all three lists |
| Favorites.FavoritesHook.constructor | src/app/hooks/useFavorites.ts:11-32 | mounting starts from the stored lists or three empty ones |
| Favorites.FavoritesHook.ToggleFavorite | src/app/hooks/useFavorites.ts:39-55 | the new state is the toggled one, it is saved, `isFavorite` flips for that kind and id and for nothing else |
| Favorites.FavoritesHook.ClearFavorites | src/app/hooks/useFavorites.ts:65-69 | three empty lists, saved; nothing is a favourite |
| AttendedEvents.AttendedEventsHook.constructor | src/app/hooks/useAttendedEvents.ts:5-26 | mounting starts from the stored list or an empty one |
| AttendedEvents.AttendedEventsHook.ToggleAttendedEvent | src/app/hooks/useAttendedEvents.ts:33-49 | the new list is the toggled one, it is saved, `hasAttended` flips for that event and for no other |
| AttendedEvents.AttendedEventsHook.ClearAttendedEvents | src/app/hooks/useAttendedEvents.ts:59-62 | an empty list, saved; no event is attended |

## Left out

- **Presigning.** It is modelled as always succeeding: the URL records the bucket, the key and the expiry. The signature, the URL text, signing failures and the SDKs' limits on expiry are not modelled.
- **Listing order and paging.** Listings return keys in the order they were first stored. S3's lexicographic order, its 1000-key page limit, and MinIO's non-recursive listing (which does not descend below a `/` after the prefix) are not modelled.
- Storage.PutNewKeyAppendsToListing: the clause that the new key comes last holds only under the model's insertion order; S3 and MinIO list keys lexicographically. The multiset and length clauses hold for any listing order.
- UserPhotos.NewPhotoAppendsToListing: the clause that the new name comes last holds only under the model's insertion order; S3 and MinIO list keys lexicographically. The multiset and count clauses hold for any listing order.
- **Default content type.** When an upload gives no content type, the object stores none. The default each SDK or server would apply is not modelled.
- **`MediaType.parseMediaType`.** A malformed stored content type can make it throw during a download. This is not modelled.
- **Download streams and `getBytes()`.** The body is the stored bytes, and `contentLength` is their number. Streams and the `IOException` of `getBytes()` are left out.
- **Null object names.** An upload with neither an object name nor a file name is a single `NullObjectName` failure for both backends. Which SDK exception each backend would raise is not modelled. Other null arguments (a null user id or photo name in a path) cannot arise from Spring path variables and are not modelled.
- **JSON field names.** The Java `exists` field is called `present`, because `exists` is a Dafny keyword. The response maps are modelled as datatypes with one field per key.
- **Bean Validation, Jackson date formats, and controller exception handlers.** These lie outside the modelled core.
- `UserService.UserRepositoryService.FindUserByEmail`: the repository query uses `like`, and it is modelled as exact equality. `%` and `_` wildcards in an e-mail are not interpreted.
- **Database concurrency, transactions and constraint violations.** Not modelled. The IDENTITY column is a counter that starts at 1.
- **`deleteImage` in `src/lib/storage.ts`.** It only forwards one path to Supabase `remove` and logs a failure. It returns nothing, and no modelled operation depends on it, so it is not modelled.
- **`Supabase` upload options** (`cacheControl`, `upsert: false`). The storage call's outcome is a parameter, so a refusal of an existing path is one of its possible answers.
- **`localStorage` and JSON.** The hooks' stored entry is either missing or empty, unreadable, or a value of the right shape. A stored JSON value of another shape (for example, a favourites object missing one of its three lists, which `getFavoritesByType` would turn into `[]`) is not modelled, nor is a failing `setItem`. The mount-time `useEffect` that re-reads the entry is the constructor.
- Text.ToLowerAscii: lowers ASCII letters only. Java's `toLowerCase()` lowers every Unicode letter and follows the default locale. This changes the result only under a locale such as Turkish, where `GIF` becomes `gıf` (dotless ı) and so fails the image whitelist.
- **React rendering and the order in which state updates are batched.** Each hook operation is one atomic method.
