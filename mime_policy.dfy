/**
 * The allow-list of declared content types an upload may carry, and the
 * canonical file extension each one is stored under. The declared type is
 * trusted as given: it is matched exactly, and the bytes are never inspected.
 */
module MimePolicy {
  import opened Wrappers

  const ALLOWED_MIME: map<string, string> := map[
    "image/png" := ".png",
    "image/jpeg" := ".jpg",
    "image/webp" := ".webp",
    "image/gif" := ".gif",
    "video/mp4" := ".mp4",
    "video/webm" := ".webm",
    "video/ogg" := ".ogv"
  ]

  /** A character that may appear after the dot of a stored extension. */
  predicate ExtensionChar(c: char) {
    ('a' <= c <= 'z') || ('0' <= c <= '9')
  }

  /** A dot followed by at least one lower-case letter or digit. */
  predicate WellFormedExtension(ext: string) {
    |ext| >= 2 && ext[0] == '.' && forall k :: 1 <= k < |ext| ==> ExtensionChar(ext[k])
  }

  predicate IsImageType(contentType: string) {
    |contentType| >= 6 && contentType[..6] == "image/"
  }

  /**
   * The extension for a declared content type, or None when the type is not
   * on the allow-list. Every extension handed out is a dot followed by
   * lower-case letters and digits, so it is itself the final extension of any
   * name it ends.
   */
  function ExtensionFor(contentType: string): (ext: Option<string>)
    ensures ext.Some? ==> WellFormedExtension(ext.value)
  {
    if contentType == "image/png" then Some(".png")
    else if contentType == "image/jpeg" then Some(".jpg")
    else if contentType == "image/webp" then Some(".webp")
    else if contentType == "image/gif" then Some(".gif")
    else if contentType == "video/mp4" then Some(".mp4")
    else if contentType == "video/webm" then Some(".webm")
    else if contentType == "video/ogg" then Some(".ogv")
    else None
  }

  /**
   * ExtensionFor is the `ALLOWED_MIME.get` lookup: the table's extension for
   * a listed type, and None for every other type.
   */
  lemma ExtensionForIsTableLookup(contentType: string)
    ensures ExtensionFor(contentType) ==
      if contentType in ALLOWED_MIME then Some(ALLOWED_MIME[contentType]) else None
  {
  }
}
