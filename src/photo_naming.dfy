/** How user-scoped storage keys are built: the private helpers that
    UserPhotoService and UserPhotoController both define with the same text
    (`buildUserPhotoPath`, `getFileExtension`, `generateUniqueFileName`), the
    avatar's candidate keys, and the prefix stripping done when listing. */
module PhotoNaming {
  import opened Common
  import opened Text

  const DefaultExtension := ".jpg"

  /** The extensions under which an avatar is looked for, in probing order. */
  const AvatarExtensions: seq<string> := [".jpg", ".jpeg", ".png", ".webp"]

  /** `"users/" + userId + "/"`, the prefix listed for one user. */
  function UserPrefix(userId: string): string {
    "users/" + userId + "/"
  }

  /** `String.format("users/%s/%s", userId, photoName)`. */
  function UserPhotoPath(userId: string, photoName: string): string {
    UserPrefix(userId) + photoName
  }

  /** `getFileExtension`: from the last dot to the end, dot included, or
      ".jpg" when the name is null or holds no dot. */
  function FileExtension(filename: Option<string>): (e: string)
    ensures filename.None? ==> e == DefaultExtension
    ensures filename.Some? && '.' !in filename.value ==> e == DefaultExtension
    ensures filename.Some? && '.' in filename.value ==>
      && 0 < |e| <= |filename.value|
      && e[0] == '.'
      && '.' !in e[1..]
      && filename.value[|filename.value| - |e|..] == e
  {
    if filename.None? || '.' !in filename.value then DefaultExtension
    else
      var name := filename.value;
      var i := LastIndexOf(name, '.');
      assert i >= 0;
      assert forall j :: 0 <= j < |name[i..][1..]| ==> name[i..][1..][j] == name[i + 1 + j];
      name[i..]
  }

  /** `generateUniqueFileName`: a random UUID, given here, and the file's extension. */
  function UniqueFileName(uuid: string, filename: Option<string>): string {
    uuid + FileExtension(filename)
  }

  /** The generated name keeps the uploaded file's extension: read back with
      `getFileExtension`, it gives what the original name gave, provided the
      UUID holds no dot (a random UUID's text never does). */
  lemma UniqueFileNameKeepsExtension(uuid: string, filename: Option<string>)
    requires '.' !in uuid
    ensures FileExtension(Some(UniqueFileName(uuid, filename))) == FileExtension(filename)
  {
    var e := FileExtension(filename);
    var s := uuid + e;
    assert e[0] == '.' && '.' !in e[1..];
    forall j | |uuid| < j < |s|
      ensures s[j] != '.'
    {
      assert s[j] == e[1..][j - |uuid| - 1];
    }
    LastIndexOfAt(s, '.', |uuid|);
    assert s[|uuid|..] == e;
  }

  /** The key `users/{userId}/avatar{ext}`. */
  function AvatarPath(userId: string, ext: string): string {
    UserPhotoPath(userId, "avatar" + ext)
  }

  /** The avatar keys probed for a user, in order. */
  function AvatarCandidates(userId: string): seq<string> {
    seq(|AvatarExtensions|, i requires 0 <= i < |AvatarExtensions| => AvatarPath(userId, AvatarExtensions[i]))
  }

  /** `path.replace(prefix, "")` on every listed key. */
  function StripAll(keys: seq<string>, prefix: string): (names: seq<string>)
    requires prefix != []
    ensures |names| == |keys|
  {
    seq(|keys|, i requires 0 <= i < |keys| => RemoveAll(keys[i], prefix))
  }

  lemma StripAllAppend(keys: seq<string>, key: string, prefix: string)
    requires prefix != []
    ensures StripAll(keys + [key], prefix) == StripAll(keys, prefix) + [RemoveAll(key, prefix)]
  {
  }

  /** Two users' keys never collide while user ids hold no slash. */
  lemma UserPhotoPathInjective(u1: string, n1: string, u2: string, n2: string)
    requires '/' !in u1 && '/' !in u2
    requires UserPhotoPath(u1, n1) == UserPhotoPath(u2, n2)
    ensures u1 == u2 && n1 == n2
  {
    var k := UserPhotoPath(u1, n1);
    assert k == "users/" + (u1 + "/" + n1);
    assert k == "users/" + (u2 + "/" + n2);
    var t1 := u1 + "/" + n1;
    var t2 := u2 + "/" + n2;
    assert t1 == k[6..] == t2;
    FirstSlash(u1, n1);
    FirstSlash(u2, n2);
    assert |u1| == |u2|;
    assert u1 == t1[..|u1|] == t2[..|u2|] == u2;
    assert n1 == t1[|u1| + 1..] == t2[|u2| + 1..] == n2;
  }

  /** The first slash of `u/n` follows `u` when `u` holds none. */
  lemma FirstSlash(u: string, n: string)
    requires '/' !in u
    ensures (u + "/" + n)[|u|] == '/'
    ensures forall j :: 0 <= j < |u| ==> (u + "/" + n)[j] != '/'
  {
    assert forall j :: 0 <= j < |u| ==> (u + "/" + n)[j] == u[j];
  }

  /** Within one user, the key determines the photo name. */
  lemma UserPhotoPathCancel(userId: string, n1: string, n2: string)
    requires UserPhotoPath(userId, n1) == UserPhotoPath(userId, n2)
    ensures n1 == n2
  {
    var p := UserPrefix(userId);
    assert n1 == (p + n1)[|p|..] == (p + n2)[|p|..] == n2;
  }

  /** Listing strips the user's prefix from a key built for that user, giving
      back the photo name, provided the name does not itself contain the prefix. */
  lemma StripUserPhotoPath(userId: string, photoName: string)
    requires !Occurs(UserPrefix(userId), photoName)
    ensures RemoveAll(UserPhotoPath(userId, photoName), UserPrefix(userId)) == photoName
  {
    RemoveAllLeading(UserPrefix(userId), photoName);
    RemoveAllAbsent(photoName, UserPrefix(userId));
  }

  /** `String.replace` removes every occurrence of the prefix, so a photo
      name that repeats the user's own key loses the inner copy as well. */
  lemma StripRemovesInnerPrefix(userId: string)
    ensures RemoveAll(UserPhotoPath(userId, "a/" + UserPhotoPath(userId, "b.jpg")), UserPrefix(userId)) == "a/b.jpg"
  {
    var p := UserPrefix(userId);
    assert UserPhotoPath(userId, "a/" + UserPhotoPath(userId, "b.jpg")) == p + ("a/" + (p + "b.jpg"));
    assert p[0] == 'u' && |p| > 5;
    StripNested(p, "a/", "b.jpg");
  }

  /** The prefix `p` is removed both at the head and inside the name. */
  lemma StripNested(p: string, dir: string, name: string)
    requires p != [] && |name| < |p|
    requires forall i :: 0 <= i < |dir| ==> dir[i] != p[0]
    ensures RemoveAll(p + (dir + (p + name)), p) == dir + name
  {
    RemoveAllLeading(p, dir + (p + name));
    HeadLacksStart(dir, p + name, p);
    RemoveAllKeepsHead(dir, p + name, p);
    RemoveAllLeading(p, name);
    ShortTextLacks(name, p);
    RemoveAllAbsent(name, p);
  }

  /** An avatar upload lands on a probed key exactly when the file's extension,
      case included, is one of the four probed ones. */
  lemma AvatarUploadIsProbed(userId: string, filename: Option<string>)
    ensures AvatarPath(userId, FileExtension(filename)) in AvatarCandidates(userId)
            <==> FileExtension(filename) in AvatarExtensions
  {
    var e := FileExtension(filename);
    var cs := AvatarCandidates(userId);
    if AvatarPath(userId, e) in cs {
      var i :| 0 <= i < |cs| && cs[i] == AvatarPath(userId, e);
      UserPhotoPathCancel(userId, "avatar" + e, "avatar" + AvatarExtensions[i]);
      assert e == ("avatar" + e)[6..] == ("avatar" + AvatarExtensions[i])[6..] == AvatarExtensions[i];
    }
    if e in AvatarExtensions {
      var i :| 0 <= i < |AvatarExtensions| && AvatarExtensions[i] == e;
      assert cs[i] == AvatarPath(userId, e);
    }
  }

  /** A file with no extension is stored as `avatar.jpg`, which is probed first. */
  lemma DotlessAvatarIsFoundFirst(userId: string, name: string)
    requires '.' !in name
    ensures AvatarPath(userId, FileExtension(Some(name))) == AvatarCandidates(userId)[0]
  {
  }

  /** An avatar uploaded as `me.PNG` is stored under `avatar.PNG`, which is never probed. */
  lemma UpperCaseAvatarIsNotProbed(userId: string)
    ensures FileExtension(Some("me.PNG")) == ".PNG"
    ensures AvatarPath(userId, FileExtension(Some("me.PNG"))) !in AvatarCandidates(userId)
  {
    LastIndexOfAt("me.PNG", '.', 2);
    assert '.' in "me.PNG";
    AvatarUploadIsProbed(userId, Some("me.PNG"));
  }
}
