/**
 * The pure helpers of P2Pclipbord2/src/ClipboardImageHandler.cpp: recognising
 * an image URL by its extension, and the content-type byte, file extension
 * and MIME type of an image format.
 */
module ClipboardImageHandler {
  import opened Common

  /** ClipboardImageFormat is an enum class over uint8_t: any byte can be held, two are named. */
  type ImageFormat = byte

  const PNG: ImageFormat := 3
  const JPEG: ImageFormat := 4

  const IMAGE_EXTENSIONS: seq<string> := [".jpg", ".jpeg", ".png", ".gif", ".webp", ".bmp", ".tiff", ".tif"]

  /** std::string::find_last_of with a single character. */
  function FindLastOf(s: string, c: char): (r: Option<nat>)
    ensures r.None? <==> forall j :: 0 <= j < |s| ==> s[j] != c
    ensures r.Some? ==> r.value < |s| && s[r.value] == c
    ensures r.Some? ==> forall j :: r.value < j < |s| ==> s[j] != c
  {
    if s == [] then None
    else if s[|s| - 1] == c then Some(|s| - 1)
    else FindLastOf(s[..|s| - 1], c)
  }

  /** ::tolower in the "C" locale: only 'A'..'Z' change. */
  function ToLower(c: char): char
  {
    if 'A' <= c <= 'Z' then (c as int + 32) as char else c
  }

  function ToLowerString(s: string): (r: string)
    ensures |r| == |s| && forall i :: 0 <= i < |s| ==> r[i] == ToLower(s[i])
  {
    seq(|s|, i requires 0 <= i < |s| => ToLower(s[i]))
  }

  /** The lowercased suffix from the last '.', or empty when there is no dot. */
  function Extension(url: string): string
  {
    match FindLastOf(url, '.')
    case None => ""
    case Some(dotPos) => ToLowerString(url[dotPos..])
  }

  /**
   * ClipboardImageHandler::isImageURL: true exactly when some suffix of the
   * URL, lowercased, is one of the listed extensions, so the match ignores
   * case and is anchored at the end of the string.
   */
  function IsImageURL(url: string): (r: bool)
    ensures r <==> exists k :: 0 <= k <= |url| && ToLowerString(url[k..]) in IMAGE_EXTENSIONS
  {
    ExtensionMatchCharacterised(url);
    Extension(url) in IMAGE_EXTENSIONS
  }

  /** Every listed extension is a dot followed by characters that are neither dots nor uppercase. */
  lemma ExtensionsShape()
    ensures forall e :: e in IMAGE_EXTENSIONS ==>
      |e| >= 2 && e[0] == '.' && forall i :: 1 <= i < |e| ==> e[i] != '.' && !('A' <= e[i] <= 'Z')
  {
  }

  /**
   * The extension from the last dot is a listed one exactly when some
   * lowercased suffix is: a listed extension has a single dot, at its front.
   */
  lemma ExtensionMatchCharacterised(url: string)
    ensures Extension(url) in IMAGE_EXTENSIONS <==> exists k :: 0 <= k <= |url| && ToLowerString(url[k..]) in IMAGE_EXTENSIONS
  {
    ExtensionsShape();
    if k :| 0 <= k <= |url| && ToLowerString(url[k..]) in IMAGE_EXTENSIONS {
      var e := ToLowerString(url[k..]);
      assert url[k] == '.' by {
        assert e[0] == ToLower(url[k..][0]);
      }
      forall j | k < j < |url|
        ensures url[j] != '.'
      {
        assert e[j - k] == ToLower(url[k..][j - k]);
      }
      assert FindLastOf(url, '.') == Some(k);
    }
  }

  /** A string without a dot is never an image URL: its extension is empty. */
  lemma NoDotIsNotImage(url: string)
    requires forall j :: 0 <= j < |url| ==> url[j] != '.'
    ensures !IsImageURL(url)
  {
  }

  /** Upper-case extensions match. */
  lemma UpperCaseExtensionMatches()
    ensures IsImageURL("A.PNG")
  {
    LastDotAt("A.PNG", 1);
    assert ToLowerString("A.PNG"[1..]) == ".png";
  }

  /** A query string after the extension defeats the match. */
  lemma QueryStringDefeatsMatch()
    ensures !IsImageURL("x.png?v=1")
  {
    LastDotAt("x.png?v=1", 1);
    assert ToLowerString("x.png?v=1"[1..]) == ".png?v=1";
  }

  /** A path after the extension defeats the match. */
  lemma PathAfterExtensionDefeatsMatch()
    ensures !IsImageURL("a.png/b")
  {
    LastDotAt("a.png/b", 1);
    assert ToLowerString("a.png/b"[1..]) == ".png/b";
  }

  /** The one dot of a string with a single dot is the last one. */
  lemma LastDotAt(s: string, k: nat)
    requires k < |s| && s[k] == '.'
    requires forall j :: 0 <= j < |s| && j != k ==> s[j] != '.'
    ensures FindLastOf(s, '.') == Some(k)
  {
  }

  /** ClipboardImageHandler::getContentType: the enum's underlying byte, which is the wire content type. */
  function GetContentType(format: ImageFormat): (t: byte)
    ensures format == PNG ==> t == 3
    ensures format == JPEG ==> t == 4
    ensures t == format
  {
    format
  }

  /** ClipboardImageHandler::getFileExtension. */
  function GetFileExtension(format: ImageFormat): (ext: string)
    ensures format == JPEG <==> ext == ".jpg"
    ensures format == PNG <==> ext == ".png"
    ensures format != JPEG && format != PNG <==> ext == ".bin"
  {
    if format == JPEG then ".jpg" else if format == PNG then ".png" else ".bin"
  }

  /** ClipboardImageHandler::getMimeType. */
  function GetMimeType(format: ImageFormat): (mime: string)
    ensures format == JPEG <==> mime == "image/jpeg"
    ensures format == PNG <==> mime == "image/png"
    ensures format != JPEG && format != PNG <==> mime == "application/octet-stream"
  {
    if format == JPEG then "image/jpeg" else if format == PNG then "image/png" else "application/octet-stream"
  }

  /** The extension a format is saved under is itself recognised as an image for the two named formats. */
  lemma NamedFormatsAreImageExtensions(format: ImageFormat)
    requires format == JPEG || format == PNG
    ensures GetFileExtension(format) in IMAGE_EXTENSIONS
    ensures IsImageURL("clip" + GetFileExtension(format))
  {
    var url := "clip" + GetFileExtension(format);
    assert url[4..] == GetFileExtension(format);
    assert ToLowerString(url[4..]) == GetFileExtension(format);
  }
}
