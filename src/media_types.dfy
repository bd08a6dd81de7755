/** The two pure helpers that AwsS3Service and MinioService both define, with
    the same text: the extension-to-MIME table (`determineContentType`) and the
    image whitelist (`isImageFile`). */
module MediaTypes {
  import opened Text

  const ImageExtensions: seq<string> := ["jpg", "jpeg", "png", "gif", "webp", "bmp", "svg"]
  const OctetStream := "application/octet-stream"

  /** `key.substring(key.lastIndexOf('.') + 1).toLowerCase()`: the text after
      the last dot, lower-cased; the whole key when it has no dot. */
  function ExtensionOf(key: string): (e: string)
    ensures |e| <= |key| && '.' !in e
    ensures e == ToLowerAscii(key[|key| - |e|..])
    ensures '.' !in key ==> e == ToLowerAscii(key)
    ensures '.' in key ==> |e| < |key| && key[|key| - |e| - 1] == '.'
  {
    ToLowerAscii(AfterLast(key, '.'))
  }

  /** The extension of `stem.ext`, when `ext` holds no dot, is `ext` lower-cased. */
  lemma ExtensionAfterDot(stem: string, ext: string)
    requires '.' !in ext
    ensures ExtensionOf(stem + "." + ext) == ToLowerAscii(ext)
  {
    AfterLastSeparator(stem, '.', ext);
  }

  /** The `switch` on the extension. */
  function ContentTypeFor(ext: string): string {
    if ext == "jpg" || ext == "jpeg" then "image/jpeg"
    else if ext == "png" then "image/png"
    else if ext == "gif" then "image/gif"
    else if ext == "webp" then "image/webp"
    else if ext == "bmp" then "image/bmp"
    else if ext == "svg" then "image/svg+xml"
    else OctetStream
  }

  function ContentTypeOf(key: string): string {
    ContentTypeFor(ExtensionOf(key))
  }

  predicate IsImageFile(key: string) {
    ExtensionOf(key) in ImageExtensions
  }

  /** The whitelist and the table agree: a key is an image exactly when the
      table gives it an `image/` type rather than the binary default. */
  lemma ImageIffTyped(key: string)
    ensures IsImageFile(key) <==> ContentTypeOf(key) != OctetStream
  {
    WhitelistIffTyped(ExtensionOf(key));
  }

  /** The same agreement, extension by extension. */
  lemma WhitelistIffTyped(ext: string)
    ensures ext in ImageExtensions <==> ContentTypeFor(ext) != OctetStream
  {
    assert ext in ImageExtensions <==>
      ext == "jpg" || ext == "jpeg" || ext == "png" || ext == "gif" || ext == "webp" || ext == "bmp" || ext == "svg";
  }

  /** Both helpers ignore the case of the key. */
  lemma CaseInsensitive(key: string)
    ensures ExtensionOf(ToLowerAscii(key)) == ExtensionOf(key)
    ensures ContentTypeOf(ToLowerAscii(key)) == ContentTypeOf(key)
    ensures IsImageFile(ToLowerAscii(key)) == IsImageFile(key)
  {
    var i := LastIndexOf(key, '.') + 1;
    LowerKeepsLastDot(key);
    LowerSuffix(key, i);
    LowerIdempotent(key[i..]);
  }

  lemma JpegIsImage()
    ensures IsImageFile("users/42/a.jpg") && ContentTypeOf("users/42/a.jpg") == "image/jpeg"
  {
    NamedKey("users/42/a.jpg", "users/42/a", "jpg", "jpg");
    assert ImageExtensions[0] == "jpg";
  }

  lemma TextIsNotImage()
    ensures !IsImageFile("users/42/notes.txt") && ContentTypeOf("users/42/notes.txt") == OctetStream
  {
    NamedKey("users/42/notes.txt", "users/42/notes", "txt", "txt");
    WhitelistIffTyped("txt");
  }

  lemma UpperCaseIsImage()
    ensures IsImageFile("HOLIDAY.JPEG") && ContentTypeOf("HOLIDAY.JPEG") == "image/jpeg"
  {
    NamedKey("HOLIDAY.JPEG", "HOLIDAY", "JPEG", "jpeg");
    assert ImageExtensions[1] == "jpeg";
  }

  /** Helper for the examples: a key spelled `stem.ext` is judged by `lower`,
      the lower-cased `ext`. */
  lemma NamedKey(key: string, stem: string, ext: string, lower: string)
    requires key == stem + "." + ext && '.' !in ext && ToLowerAscii(ext) == lower
    ensures ExtensionOf(key) == lower
    ensures ContentTypeOf(key) == ContentTypeFor(lower)
    ensures IsImageFile(key) <==> lower in ImageExtensions
  {
    ExtensionAfterDot(stem, ext);
  }

  /** A key without a dot is judged whole: a lower-case dotless key is its
      own extension, so a key named `png` counts as an image. */
  lemma DotlessKey(key: string)
    requires '.' !in key
    requires forall i :: 0 <= i < |key| ==> !('A' <= key[i] <= 'Z')
    ensures ExtensionOf(key) == key
  {
    assert AfterLast(key, '.') == key;
    assert ToLowerAscii(key) == key;
  }
}
