/**
 * The media listing: every regular file of the upload directory whose name,
 * lower-cased, ends with a known image or video suffix, in ascending name
 * order, with its url, kind and size. Sub-directories and files with any
 * other suffix are skipped.
 */
module MediaLister {
  import opened Wrappers
  import opened Strings
  import opened MediaDir

  datatype MediaKind = Image | Video

  /** One entry of the listing. */
  datatype MediaItem = MediaItem(filename: string, url: string, kind: MediaKind, size: nat)

  const IMAGE_SUFFIXES: seq<string> := [".png", ".jpg", ".jpeg", ".webp", ".gif"]
  const VIDEO_SUFFIXES: seq<string> := [".mp4", ".webm", ".ogv"]

  /**
   * The kind inferred from a name's suffix, ignoring case; image suffixes are
   * tried first. None means the name is not media and is left out.
   */
  function Classify(name: string): (r: Option<MediaKind>)
    ensures r.Some? <==> EndsWithAny(AsciiLower(name), IMAGE_SUFFIXES + VIDEO_SUFFIXES)
    ensures r == Some(Image) <==> EndsWithAny(AsciiLower(name), IMAGE_SUFFIXES)
  {
    var lower := AsciiLower(name);
    EndsWithAnyConcat(lower, IMAGE_SUFFIXES, VIDEO_SUFFIXES);
    if EndsWithAny(lower, IMAGE_SUFFIXES) then Some(Image)
    else if EndsWithAny(lower, VIDEO_SUFFIXES) then Some(Video)
    else None
  }

  lemma AsciiLowerIdempotent(s: string)
    ensures AsciiLower(AsciiLower(s)) == AsciiLower(s)
  {
  }

  /** Classification ignores case: a name and its lower-cased form are classified alike. */
  lemma ClassifyIgnoresCase(name: string)
    ensures Classify(AsciiLower(name)) == Classify(name)
  {
    AsciiLowerIdempotent(name);
  }

  /** The item a directory name contributes, if any. */
  function ItemFor(name: string, dir: Directory): (r: Option<MediaItem>)
    ensures r.Some? <==> name in dir && dir[name].RegularFile? && Classify(name).Some?
    ensures r.Some? ==> r.value.filename == name && Describes(r.value, dir)
  {
    if name in dir && dir[name].RegularFile? && Classify(name).Some? then
      Some(MediaItem(name, UrlFor(name), Classify(name).value, SizeOf(dir[name])))
    else None
  }

  /**
   * A regular file's item follows the two suffix checks in order: an image
   * suffix gives an image item, otherwise a video suffix gives a video item,
   * otherwise there is no item.
   */
  lemma ItemForBySuffix(name: string, dir: Directory)
    requires name in dir && dir[name].RegularFile?
    ensures var lower, item := AsciiLower(name), MediaItem(name, UrlFor(name), Image, SizeOf(dir[name]));
      && (EndsWithAny(lower, IMAGE_SUFFIXES) ==> ItemFor(name, dir) == Some(item))
      && (!EndsWithAny(lower, IMAGE_SUFFIXES) && EndsWithAny(lower, VIDEO_SUFFIXES) ==>
            ItemFor(name, dir) == Some(item.(kind := Video)))
      && (!EndsWithAny(lower, IMAGE_SUFFIXES) && !EndsWithAny(lower, VIDEO_SUFFIXES) ==>
            ItemFor(name, dir) == None)
  {
  }

  /** The listing produced by walking the names in the given order. */
  function Listing(names: seq<string>, dir: Directory): (items: seq<MediaItem>)
    ensures |items| <= |names|
  {
    if names == [] then []
    else
      var last := names[|names| - 1];
      Listing(names[..|names| - 1], dir) +
        (if ItemFor(last, dir).Some? then [ItemFor(last, dir).value] else [])
  }

  /** Walking one more name appends at most that name's item. */
  lemma ListingNext(names: seq<string>, k: nat, dir: Directory)
    requires k < |names|
    ensures Listing(names[..k + 1], dir) == Listing(names[..k], dir) +
      (if ItemFor(names[k], dir).Some? then [ItemFor(names[k], dir).value] else [])
  {
    assert names[..k + 1][..k] == names[..k];
  }

  /**
   * An item truthfully describes a regular media file of the directory: its
   * url serves that name, its kind is the one its suffix gives, its size is
   * the file's byte count.
   */
  predicate Describes(item: MediaItem, dir: Directory) {
    && item.filename in dir
    && dir[item.filename].RegularFile?
    && Classify(item.filename) == Some(item.kind)
    && item.url == "/uploads/" + item.filename
    && item.size == |dir[item.filename].data|
  }

  /** Items in strictly ascending order of their names. */
  predicate InNameOrder(items: seq<MediaItem>) {
    forall i, j :: 0 <= i < j < |items| ==> Below(items[i].filename, items[j].filename)
  }

  /** Every listed item comes from one of the walked names. */
  lemma {:induction false} ListingFromNames(names: seq<string>, dir: Directory)
    ensures forall it :: it in Listing(names, dir) ==> it.filename in names
  {
    if names != [] {
      var init := names[..|names| - 1];
      ListingFromNames(init, dir);
      forall it | it in Listing(init, dir)
        ensures it.filename in names
      {
        var k :| 0 <= k < |init| && init[k] == it.filename;
        assert names[k] == it.filename;
      }
    }
  }

  /** Every listed item describes its file. */
  lemma {:induction false} ListingSound(names: seq<string>, dir: Directory)
    ensures forall it :: it in Listing(names, dir) ==> Describes(it, dir)
  {
    if names != [] {
      ListingSound(names[..|names| - 1], dir);
    }
  }

  /** Every walked name that is a regular media file is listed, with its item. */
  lemma {:induction false} ListingComplete(names: seq<string>, dir: Directory, name: string)
    requires name in names
    requires name in dir && dir[name].RegularFile? && Classify(name).Some?
    ensures ItemFor(name, dir).Some? && ItemFor(name, dir).value in Listing(names, dir)
  {
    var init := names[..|names| - 1];
    if name != names[|names| - 1] {
      var k :| 0 <= k < |names| && names[k] == name;
      assert init[k] == name;
      ListingComplete(init, dir, name);
    }
  }

  /** Walking the names in ascending order lists the items in ascending name order. */
  lemma {:induction false} ListingOrdered(names: seq<string>, dir: Directory)
    requires StrictlyAscending(names)
    ensures InNameOrder(Listing(names, dir))
  {
    if names != [] {
      var init := names[..|names| - 1];
      var last := names[|names| - 1];
      var prev := Listing(init, dir);
      assert StrictlyAscending(init) by {
        forall i, j | 0 <= i < j < |init| ensures Below(init[i], init[j]) {
          assert init[i] == names[i] && init[j] == names[j];
        }
      }
      ListingOrdered(init, dir);
      var item := ItemFor(last, dir);
      if item.Some? {
        ListingFromNames(init, dir);
        forall i | 0 <= i < |prev|
          ensures Below(prev[i].filename, last)
        {
          assert prev[i] in prev;
          var k :| 0 <= k < |init| && init[k] == prev[i].filename;
          assert names[k] == init[k];
        }
        assert item.value.filename == last;
        assert Listing(names, dir) == prev + [item.value];
        AppendOrdered(prev, item.value);
      }
    }
  }

  /** Appending an item whose name is above every listed name keeps the listing ordered. */
  lemma AppendOrdered(prev: seq<MediaItem>, item: MediaItem)
    requires InNameOrder(prev)
    requires forall i :: 0 <= i < |prev| ==> Below(prev[i].filename, item.filename)
    ensures InNameOrder(prev + [item])
  {
    var items := prev + [item];
    forall i, j | 0 <= i < j < |items|
      ensures Below(items[i].filename, items[j].filename)
    {
      assert items[i] == prev[i];
    }
  }

  /**
   * Walking every name of the directory in ascending order lists exactly the
   * regular media files, each described truthfully, in ascending name order.
   */
  lemma SortedListing(names: seq<string>, dir: Directory)
    requires StrictlyAscending(names)
    requires forall x :: x in names <==> x in dir
    ensures InNameOrder(Listing(names, dir))
    ensures forall it :: it in Listing(names, dir) ==> Describes(it, dir)
    ensures forall name :: name in dir && dir[name].RegularFile? && Classify(name).Some? ==>
      ItemFor(name, dir).Some? && ItemFor(name, dir).value in Listing(names, dir)
  {
    ListingOrdered(names, dir);
    ListingSound(names, dir);
    forall name | name in dir && dir[name].RegularFile? && Classify(name).Some?
      ensures ItemFor(name, dir).Some? && ItemFor(name, dir).value in Listing(names, dir)
    {
      ListingComplete(names, dir, name);
    }
  }

  /** A plain-text file is never listed. */
  lemma TextFileSkipped(data: seq<byte>)
    ensures Listing(["notes.txt"], map["notes.txt" := RegularFile(data)]) == []
  {
    var lower := AsciiLower("notes.txt");
    assert lower == "notes.txt";
    assert !EndsWithAny(lower, IMAGE_SUFFIXES) by {
      forall k | 0 <= k < |IMAGE_SUFFIXES|
        ensures !EndsWith(lower, IMAGE_SUFFIXES[k])
      {
        assert lower[|lower| - 4..] == ".txt";
      }
    }
    assert !EndsWithAny(lower, VIDEO_SUFFIXES) by {
      forall k | 0 <= k < |VIDEO_SUFFIXES|
        ensures !EndsWith(lower, VIDEO_SUFFIXES[k])
      {
        assert lower[|lower| - 4..] == ".txt";
      }
    }
  }

  /** An upper-case image suffix still counts: "A.PNG" is an image. */
  lemma UpperCaseSuffixIsImage()
    ensures Classify("A.PNG") == Some(Image)
  {
    var lower := AsciiLower("A.PNG");
    assert lower == "a.png";
    assert EndsWith(lower, IMAGE_SUFFIXES[0]);
  }

  /** A sub-directory is skipped even when its name looks like media. */
  lemma DirectorySkipped()
    ensures Listing(["clips.mp4"], map["clips.mp4" := NotRegular]) == []
  {
    var names := ["clips.mp4"];
    assert names[..0] == [];
  }
}
