/**
 * The two endpoints over a mutable upload directory: the batch upload, which
 * writes each accepted file under a fresh safe name, and the media listing.
 * Both are loops over the directory's current entries; each is proved to do
 * what the specification functions of UploadStore and MediaLister describe.
 */
module MediaService {
  import opened Wrappers
  import opened Strings
  import opened MimePolicy
  import opened SafeFilename
  import opened MediaDir
  import opened UploadStore
  import opened MediaLister

  /** The upload directory, whose entries the endpoints read and extend. */
  class MediaStore {
    var entries: Directory

    constructor(initial: Directory)
      ensures entries == initial
    {
      entries := initial;
    }

    /**
     * POST /upload. An empty batch is refused and nothing changes. Otherwise
     * the files are stored one after the other; the first file whose declared
     * type is not allowed ends the request with an error, and the files
     * stored before it stay stored.
     */
    method Upload(files: seq<UploadFile>) returns (result: Result<seq<StoredMedia>, UploadError>)
      modifies this
      ensures files == [] ==> result == Failure(NoFilesUploaded) && entries == old(entries)
      ensures files != [] ==>
        var b := StoreAll(old(entries), PrepareAll(Accepted(files)));
        && entries == b.dir
        && (|Accepted(files)| < |files| ==>
              result == Failure(UnsupportedType(files[|Accepted(files)|].contentType)))
        && (|Accepted(files)| == |files| ==> result == Success(b.saved))
    {
      if files == [] {
        return Failure(NoFilesUploaded);
      }
      var saved: seq<StoredMedia> := [];
      var i := 0;
      while i < |files|
        invariant 0 <= i <= |files|
        invariant AllSupported(files[..i])
        invariant StoreAll(old(entries), PrepareAll(files[..i])) == Batch(entries, saved)
      {
        var f := files[i];
        var ext := ExtensionFor(f.contentType);
        if ext.None? {
          AcceptedStopsAt(files, i);
          return Failure(UnsupportedType(f.contentType));
        }
        var p := Prepare(f);
        var name := ResolveName(entries.Keys, p.base, p.ext);
        BatchStep(old(entries), files, i, entries, saved);
        ghost var step := StoreOne(entries, p);
        assert name == StoredName(entries, p);
        entries := entries[name := RegularFile(f.data)];
        var record := StoredMedia(name, UrlFor(name), f.contentType, SizeOf(entries[name]));
        assert step == Stored(entries, record);
        saved := saved + [record];
        i := i + 1;
      }
      assert files[..i] == files;
      AcceptedStopsAt(files, i);
      return Success(saved);
    }

    /**
     * GET /media: the regular media files of the directory, in ascending
     * name order. Every item describes its file, and every regular file with
     * an image or video suffix is listed.
     */
    method ListMedia() returns (items: seq<MediaItem>)
      ensures InNameOrder(items)
      ensures forall it :: it in items ==> Describes(it, entries)
      ensures forall name :: name in entries && entries[name].RegularFile? && Classify(name).Some? ==>
        ItemFor(name, entries).Some? && ItemFor(name, entries).value in items
    {
      var names := SortNames(entries.Keys);
      items := [];
      var k := 0;
      while k < |names|
        invariant 0 <= k <= |names|
        invariant items == Listing(names[..k], entries)
      {
        var name := names[k];
        ListingNext(names, k, entries);
        if name in entries && entries[name].RegularFile? {
          ItemForBySuffix(name, entries);
          var lower := AsciiLower(name);
          var kind: Option<MediaKind>;
          if EndsWithAny(lower, IMAGE_SUFFIXES) {
            kind := Some(Image);
          } else if EndsWithAny(lower, VIDEO_SUFFIXES) {
            kind := Some(Video);
          } else {
            kind := None;
          }
          if kind.Some? {
            items := items + [MediaItem(name, UrlFor(name), kind.value, SizeOf(entries[name]))];
          }
        }
        k := k + 1;
      }
      assert names[..k] == names;
      SortedListing(names, entries);
    }
  }

  /** The loop stops at index i exactly when Accepted(files) has length i. */
  lemma AcceptedStopsAt(files: seq<UploadFile>, i: nat)
    requires i <= |files|
    requires AllSupported(files[..i])
    requires i < |files| ==> !Supported(files[i])
    ensures |Accepted(files)| == i && Accepted(files) == files[..i]
  {
  }

  /**
   * One turn of the upload loop: when the first i files have produced dir and
   * saved, the first i + 1 produce what storing file i into dir adds.
   */
  lemma BatchStep(start: Directory, files: seq<UploadFile>, i: nat, dir: Directory, saved: seq<StoredMedia>)
    requires i < |files| && AllSupported(files[..i]) && Supported(files[i])
    requires StoreAll(start, PrepareAll(files[..i])) == Batch(dir, saved)
    ensures AllSupported(files[..i + 1])
    ensures var one := StoreOne(dir, Prepare(files[i]));
      StoreAll(start, PrepareAll(files[..i + 1])) == Batch(one.dir, saved + [one.record])
  {
    PrepareAllNext(files, i);
    StoreAllAppend(start, PrepareAll(files[..i]), Prepare(files[i]));
  }

  // ---------------------------------------------------------------------------
  // Upload and listing together
  // ---------------------------------------------------------------------------

  /** The kind a declared content type stands for: its major type. */
  function KindFor(contentType: string): MediaKind {
    if IsImageType(contentType) then Image else Video
  }

  /** Lower-casing leaves a lower-case extension at the end of a name. */
  lemma LowerKeepsExtension(name: string, ext: string)
    requires WellFormedExtension(ext)
    requires EndsWith(name, ext)
    ensures EndsWith(AsciiLower(name), ext)
  {
    forall k | 0 <= k < |ext|
      ensures !('A' <= ext[k] <= 'Z')
    {
      assert k == 0 || ExtensionChar(ext[k]);
    }
    AsciiLowerKeepsSuffix(name, ext);
  }

  /** The allowed extension of an image type is an image suffix, that of a video type a video suffix. */
  lemma ExtensionMatchesKind(contentType: string)
    requires ExtensionFor(contentType).Some?
    ensures KindFor(contentType) == Image ==> ExtensionFor(contentType).value in IMAGE_SUFFIXES
    ensures KindFor(contentType) == Video ==> ExtensionFor(contentType).value in VIDEO_SUFFIXES
  {
    if contentType in {"image/png", "image/jpeg", "image/webp", "image/gif"} {
      assert contentType[..6] == "image/";
    } else {
      assert contentType[..6] == "video/";
    }
  }

  /** A lower-cased name ending with a video extension ends with no image suffix: the last characters differ. */
  lemma VideoExtensionNotImage(lower: string, ext: string)
    requires ext in VIDEO_SUFFIXES
    requires EndsWith(lower, ext)
    ensures !EndsWithAny(lower, IMAGE_SUFFIXES)
  {
    var last := lower[|lower| - 1];
    assert last == ext[|ext| - 1];
    forall k | 0 <= k < |IMAGE_SUFFIXES|
      ensures !EndsWith(lower, IMAGE_SUFFIXES[k])
    {
    }
  }

  /**
   * A name ending with the extension an allowed content type is stored
   * under is listed as that type's kind: an image type gives Image, a video
   * type gives Video.
   */
  lemma StoredExtensionClassified(name: string, contentType: string)
    requires ExtensionFor(contentType).Some?
    requires EndsWith(name, ExtensionFor(contentType).value)
    ensures Classify(name) == Some(KindFor(contentType))
  {
    var ext := ExtensionFor(contentType).value;
    var lower := AsciiLower(name);
    LowerKeepsExtension(name, ext);
    ExtensionMatchesKind(contentType);
    if KindFor(contentType) == Image {
      var k :| 0 <= k < |IMAGE_SUFFIXES| && IMAGE_SUFFIXES[k] == ext;
      assert EndsWith(lower, IMAGE_SUFFIXES[k]);
    } else {
      var k :| 0 <= k < |VIDEO_SUFFIXES| && VIDEO_SUFFIXES[k] == ext;
      VideoExtensionNotImage(lower, ext);
      assert EndsWith(lower, VIDEO_SUFFIXES[k]);
    }
  }

  /**
   * Every file a batch stores shows up in the listing of the resulting
   * directory with the name, url and size the upload reported and the kind
   * of its declared content type.
   */
  lemma UploadedFileListed(dir: Directory, files: seq<UploadFile>, j: nat)
    requires AllSupported(files)
    requires j < |files|
    ensures var b := StoreAll(dir, PrepareAll(files));
      && |b.saved| == |files|
      && ItemFor(b.saved[j].filename, b.dir) ==
         Some(MediaItem(b.saved[j].filename, b.saved[j].url, KindFor(files[j].contentType), b.saved[j].size))
  {
    var ps := PrepareAll(files);
    PrepareAllAt(files, j);
    StoreAllRecordFields(dir, ps, j);
    StoreAllRecordHolds(dir, ps, j);
    var b := StoreAll(dir, ps);
    StoredExtensionClassified(b.saved[j].filename, files[j].contentType);
  }
}
