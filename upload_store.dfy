/**
 * What a batch upload does to the upload directory, stated as functions on
 * directory values: each accepted file is written under its resolved name and
 * produces one stored-media record. The imperative upload loop in MediaService
 * is proved to follow these functions step by step.
 *
 * A file is first prepared (its safe base and allowed extension are worked
 * out); storing then only needs the prepared file and the names already taken.
 */
module UploadStore {
  import opened Wrappers
  import opened Strings
  import opened MimePolicy
  import opened SafeFilename
  import opened MediaDir

  /** One file of a multipart upload: client name, declared type and bytes. */
  datatype UploadFile = UploadFile(filename: string, contentType: string, data: seq<byte>)

  /** The record reported back for each stored file. */
  datatype StoredMedia = StoredMedia(filename: string, url: string, contentType: string, size: nat)

  /** The two ways an upload request is refused; both answer HTTP 400. */
  datatype UploadError = NoFilesUploaded | UnsupportedType(contentType: string)
  {
    /** The message an error answers with; a refused type is named at its end. */
    function Detail(): (d: string)
      ensures d != []
      ensures UnsupportedType? ==> EndsWith(d, contentType)
    {
      match this
      case NoFilesUploaded => "No files uploaded"
      case UnsupportedType(ct) =>
        var lead := "Unsupported file type: ";
        assert (lead + ct)[|lead|..] == ct;
        lead + ct
    }
  }

  /** The refusal of an unsupported file carries the declared type, and differs from the empty-batch refusal. */
  lemma UnsupportedDetailNamesType(contentType: string)
    ensures EndsWith(UnsupportedType(contentType).Detail(), contentType)
    ensures UnsupportedType(contentType).Detail() != NoFilesUploaded.Detail()
  {
    assert |UnsupportedType(contentType).Detail()| != |NoFilesUploaded.Detail()|;
  }

  datatype Stored = Stored(dir: Directory, record: StoredMedia)

  datatype Batch = Batch(dir: Directory, saved: seq<StoredMedia>)

  predicate Supported(f: UploadFile) {
    ExtensionFor(f.contentType).Some?
  }

  predicate AllSupported(files: seq<UploadFile>) {
    forall j :: 0 <= j < |files| ==> Supported(files[j])
  }

  /** How many files are processed before the first unsupported one (all of them if none is). */
  function SupportedPrefix(files: seq<UploadFile>): (n: nat)
    ensures n <= |files|
    ensures forall j :: 0 <= j < n ==> Supported(files[j])
    ensures n < |files| ==> !Supported(files[n])
  {
    if files == [] || !Supported(files[0]) then 0 else 1 + SupportedPrefix(files[1..])
  }

  /** The files an upload processes: all of them up to the first unsupported one. */
  function Accepted(files: seq<UploadFile>): (acc: seq<UploadFile>)
    ensures acc <= files
    ensures AllSupported(acc)
    ensures |acc| < |files| ==> !Supported(files[|acc|])
  {
    files[..SupportedPrefix(files)]
  }

  /** An accepted file as the upload loop holds it: safe base, allowed extension, declared type, bytes. */
  datatype Pending = Pending(base: string, ext: string, contentType: string, data: seq<byte>)

  /** Preparing an accepted file: sanitise its name's root and look up its extension. */
  function Prepare(f: UploadFile): (p: Pending)
    requires Supported(f)
    ensures WellFormedExtension(p.ext) && ExtensionFor(f.contentType) == Some(p.ext)
    ensures p.contentType == f.contentType && p.data == f.data
  {
    Pending(SafeBase(f.filename), ExtensionFor(f.contentType).value, f.contentType, f.data)
  }

  /** The accepted files of a batch, each prepared, in order. */
  function PrepareAll(files: seq<UploadFile>): (ps: seq<Pending>)
    requires AllSupported(files)
    ensures |ps| == |files|
  {
    if files == [] then []
    else
      assert AllSupported(files[..|files| - 1]);
      PrepareAll(files[..|files| - 1]) + [Prepare(files[|files| - 1])]
  }

  /** Preparing a batch with one more file at the end appends that file, prepared. */
  lemma PrepareAllSnoc(init: seq<UploadFile>, f: UploadFile)
    requires AllSupported(init) && Supported(f)
    ensures AllSupported(init + [f])
    ensures PrepareAll(init + [f]) == PrepareAll(init) + [Prepare(f)]
  {
    var files := init + [f];
    assert files[..|files| - 1] == init && files[|files| - 1] == f;
  }

  /** The j-th prepared file is the j-th file, prepared. */
  lemma {:induction false} PrepareAllAt(files: seq<UploadFile>, j: nat)
    requires AllSupported(files)
    requires j < |files|
    ensures PrepareAll(files)[j] == Prepare(files[j])
  {
    var init, last := files[..|files| - 1], files[|files| - 1];
    assert files == init + [last];
    PrepareAllSnoc(init, last);
    if j < |init| {
      PrepareAllAt(init, j);
      assert init[j] == files[j];
    }
  }

  /** Preparing one more file appends its prepared form. */
  lemma PrepareAllNext(files: seq<UploadFile>, i: nat)
    requires i < |files|
    requires AllSupported(files[..i]) && Supported(files[i])
    ensures AllSupported(files[..i + 1])
    ensures PrepareAll(files[..i + 1]) == PrepareAll(files[..i]) + [Prepare(files[i])]
  {
    assert files[..i + 1] == files[..i] + [files[i]];
    PrepareAllSnoc(files[..i], files[i]);
  }

  /**
   * A name as the service stores uploads: a non-empty run of safe characters
   * (the base and any "-i" counter) followed by the given extension.
   */
  predicate SafeNameWithExt(name: string, ext: string) {
    && |ext| < |name|
    && name[|name| - |ext|..] == ext
    && AllSafe(name[..|name| - |ext|])
  }

  lemma CandidateWellFormed(base: string, i: nat, ext: string)
    requires base != [] && AllSafe(base)
    ensures SafeNameWithExt(Candidate(base, i, ext), ext)
  {
    var mid := if i == 0 then "" else "-" + Decimal(i);
    var stem := base + mid;
    assert Candidate(base, i, ext) == stem + ext;
    assert AllSafe(stem) by {
      forall m | 0 <= m < |stem|
        ensures SafeChar(stem[m])
      {
        if m >= |base| && m > |base| {
          assert stem[m] == Decimal(i)[m - |base| - 1];
        }
      }
    }
    assert (stem + ext)[..|stem|] == stem && (stem + ext)[|stem|..] == ext;
  }

  /** The name under which a prepared file is stored into dir: the first free candidate for its base. */
  function StoredName(dir: Directory, p: Pending): (name: string)
    ensures name !in dir
    ensures FirstFreeName(name, p.base, p.ext, dir.Keys)
  {
    Candidate(p.base, FirstFree(dir.Keys, p.base, p.ext), p.ext)
  }

  /** Every name the store assigns is safe characters followed by the file's allowed extension. */
  lemma StoredNameWellFormed(dir: Directory, f: UploadFile)
    requires Supported(f)
    ensures SafeNameWithExt(StoredName(dir, Prepare(f)), ExtensionFor(f.contentType).value)
  {
    var p := Prepare(f);
    CandidateWellFormed(p.base, FirstFree(dir.Keys, p.base, p.ext), p.ext);
  }

  /**
   * Storing one prepared file: exactly one new entry, under a name that was
   * free and ends with the file's extension, holding the file's bytes;
   * nothing that existed changes; the record's url, type and size describe
   * that entry.
   */
  function StoreOne(dir: Directory, p: Pending): (r: Stored)
    ensures r.record.filename !in dir
    ensures FirstFreeName(r.record.filename, p.base, p.ext, dir.Keys)
    ensures EndsWith(r.record.filename, p.ext)
    ensures r.dir.Keys == dir.Keys + {r.record.filename}
    ensures forall n :: n in dir ==> r.dir[n] == dir[n]
    ensures r.dir[r.record.filename] == RegularFile(p.data)
    ensures r.record.url == "/uploads/" + r.record.filename
    ensures r.record.contentType == p.contentType
    ensures r.record.size == |p.data|
  {
    var name := StoredName(dir, p);
    var dir' := dir[name := RegularFile(p.data)];
    Stored(dir', StoredMedia(name, UrlFor(name), p.contentType, SizeOf(dir'[name])))
  }

  /** Storing a sequence of prepared files one after the other, in order. */
  function StoreAll(dir: Directory, ps: seq<Pending>): (b: Batch)
    ensures |b.saved| == |ps|
  {
    if ps == [] then Batch(dir, [])
    else
      var prev := StoreAll(dir, ps[..|ps| - 1]);
      var one := StoreOne(prev.dir, ps[|ps| - 1]);
      Batch(one.dir, prev.saved + [one.record])
  }

  /** Storing one more file after a batch extends the batch. */
  lemma StoreAllAppend(dir: Directory, ps: seq<Pending>, p: Pending)
    ensures var prev := StoreAll(dir, ps);
      var one := StoreOne(prev.dir, p);
      StoreAll(dir, ps + [p]) == Batch(one.dir, prev.saved + [one.record])
  {
    assert (ps + [p])[..|ps|] == ps;
  }

  /** The names a sequence of records reports. */
  function Names(saved: seq<StoredMedia>): set<string> {
    set j | 0 <= j < |saved| :: saved[j].filename
  }

  lemma NamesAppend(saved: seq<StoredMedia>, r: StoredMedia)
    ensures Names(saved + [r]) == Names(saved) + {r.filename}
  {
    var all := saved + [r];
    forall x | x in Names(all)
      ensures x in Names(saved) + {r.filename}
    {
      var j :| 0 <= j < |all| && all[j].filename == x;
      if j < |saved| {
        assert saved[j].filename == x;
      }
    }
    forall x | x in Names(saved)
      ensures x in Names(all)
    {
      var j :| 0 <= j < |saved| && saved[j].filename == x;
      assert all[j].filename == x;
    }
    assert all[|saved|].filename == r.filename;
  }

  /** The j-th record of a batch is what storing file j reports in the directory the files before it left. */
  /** Below the last index, a sequence and its initial part agree. */
  lemma PrefixOfInit<T>(s: seq<T>, j: nat)
    requires j < |s| - 1
    ensures s[..|s| - 1][..j] == s[..j] && s[..|s| - 1][j] == s[j]
  {
  }

  /** Storing a last file leaves the records before it unchanged. */
  lemma StoreAllEarlier(dir: Directory, ps: seq<Pending>, j: nat)
    requires j < |ps| - 1
    ensures StoreAll(dir, ps).saved[j] == StoreAll(dir, ps[..|ps| - 1]).saved[j]
  {
  }

  /** The last record is the one storing the last file into the directory the earlier files left. */
  lemma StoreAllLast(dir: Directory, ps: seq<Pending>, j: nat)
    requires j == |ps| - 1
    ensures StoreAll(dir, ps).saved[j] == StoreOne(StoreAll(dir, ps[..j]).dir, ps[j]).record
  {
  }

  lemma {:induction false} StoreAllRecordAt(dir: Directory, ps: seq<Pending>, j: nat)
    requires j < |ps|
    ensures StoreAll(dir, ps).saved[j] == StoreOne(StoreAll(dir, ps[..j]).dir, ps[j]).record
  {
    var init := ps[..|ps| - 1];
    if j < |init| {
      StoreAllEarlier(dir, ps, j);
      StoreAllRecordAt(dir, init, j);
      PrefixOfInit(ps, j);
    } else {
      StoreAllLast(dir, ps, j);
    }
  }

  /**
   * Each record's name is the first free candidate of its file's base: a
   * candidate that every smaller candidate was taken in the directory the
   * files before it left.
   */
  lemma StoreAllRecordName(dir: Directory, ps: seq<Pending>, j: nat)
    requires j < |ps|
    ensures FirstFreeName(StoreAll(dir, ps).saved[j].filename, ps[j].base, ps[j].ext, StoreAll(dir, ps[..j]).dir.Keys)
  {
    StoreAllRecordAt(dir, ps, j);
  }

  /** A batch overwrites nothing: every entry that existed is still there with the same content. */
  lemma {:induction false} StoreAllKeeps(dir: Directory, ps: seq<Pending>)
    ensures var b := StoreAll(dir, ps);
      forall n :: n in dir ==> n in b.dir && b.dir[n] == dir[n]
  {
    if ps != [] {
      StoreAllKeeps(dir, ps[..|ps| - 1]);
    }
  }

  /** The directory's names after a batch are exactly the old ones plus the reported ones. */
  lemma {:induction false} StoreAllKeys(dir: Directory, ps: seq<Pending>)
    ensures var b := StoreAll(dir, ps);
      b.dir.Keys == dir.Keys + Names(b.saved)
  {
    if ps != [] {
      var init := ps[..|ps| - 1];
      StoreAllKeys(dir, init);
      var prev := StoreAll(dir, init);
      var one := StoreOne(prev.dir, ps[|ps| - 1]);
      NamesAppend(prev.saved, one.record);
    }
  }

  /**
   * Each record describes its own file: the url serves the record's name, the
   * content type and size are the file's, and the name ends with the file's
   * extension.
   */
  lemma StoreAllRecordFields(dir: Directory, ps: seq<Pending>, j: nat)
    requires j < |ps|
    ensures var b := StoreAll(dir, ps);
      && |b.saved| == |ps|
      && b.saved[j].url == "/uploads/" + b.saved[j].filename
      && b.saved[j].contentType == ps[j].contentType
      && b.saved[j].size == |ps[j].data|
      && EndsWith(b.saved[j].filename, ps[j].ext)
  {
    StoreAllRecordAt(dir, ps, j);
  }


  /** Each record names an entry of the new directory that holds exactly that file's bytes. */
  lemma {:induction false} StoreAllRecordHolds(dir: Directory, ps: seq<Pending>, j: nat)
    requires j < |ps|
    ensures var b := StoreAll(dir, ps);
      && |b.saved| == |ps|
      && b.saved[j].filename in b.dir
      && b.dir[b.saved[j].filename] == RegularFile(ps[j].data)
  {
    var init := ps[..|ps| - 1];
    if j < |init| {
      StoreAllRecordHolds(dir, init, j);
      assert ps[j] == init[j];
    }
  }

  /** Each record names an entry that was absent before the batch. */
  lemma {:induction false} StoreAllRecordFresh(dir: Directory, ps: seq<Pending>, j: nat)
    requires j < |ps|
    ensures var b := StoreAll(dir, ps);
      |b.saved| == |ps| && b.saved[j].filename !in dir
  {
    var init := ps[..|ps| - 1];
    if j < |init| {
      StoreAllRecordFresh(dir, init, j);
    } else {
      StoreAllKeeps(dir, init);
    }
  }

  /** No two files of a batch are stored under the same name. */
  lemma {:induction false} StoreAllDistinct(dir: Directory, ps: seq<Pending>)
    ensures var b := StoreAll(dir, ps);
      |b.saved| == |ps| &&
      forall i, j :: 0 <= i < j < |ps| ==> b.saved[i].filename != b.saved[j].filename
  {
    if ps != [] {
      var init := ps[..|ps| - 1];
      StoreAllDistinct(dir, init);
      StoreAllKeys(dir, init);
      var prev := StoreAll(dir, init);
      var last := StoreOne(prev.dir, ps[|ps| - 1]).record;
      var saved := StoreAll(dir, ps).saved;
      assert saved == prev.saved + [last];
      forall i, j | 0 <= i < j < |ps|
        ensures saved[i].filename != saved[j].filename
      {
        assert saved[i] == prev.saved[i];
        if j == |init| {
          assert prev.saved[i].filename in Names(prev.saved);
          assert last.filename !in prev.dir;
        } else {
          assert saved[j] == prev.saved[j];
        }
      }
    }
  }

  /** Records with pairwise distinct names report as many names as records. */
  lemma {:induction false} NamesCount(saved: seq<StoredMedia>)
    requires forall i, j :: 0 <= i < j < |saved| ==> saved[i].filename != saved[j].filename
    ensures |Names(saved)| == |saved|
  {
    if saved != [] {
      var init := saved[..|saved| - 1];
      NamesCount(init);
      assert Names(saved) == Names(init) + {saved[|saved| - 1].filename};
      assert saved[|saved| - 1].filename !in Names(init);
    }
  }

  /** A batch of n files grows the directory by exactly n entries. */
  lemma StoreAllGrowth(dir: Directory, ps: seq<Pending>)
    ensures |StoreAll(dir, ps).dir| == |dir| + |ps|
  {
    var b := StoreAll(dir, ps);
    StoreAllKeys(dir, ps);
    StoreAllDistinct(dir, ps);
    forall j | 0 <= j < |ps|
      ensures b.saved[j].filename !in dir
    {
      StoreAllRecordFresh(dir, ps, j);
    }
    NamesCount(b.saved);
    assert dir.Keys !! Names(b.saved);
    assert |b.dir.Keys| == |dir.Keys| + |Names(b.saved)|;
  }

  /** Into an empty directory a file is stored under its plain `base + ext`. */
  lemma FirstCopyPlain(p: Pending)
    ensures StoreOne(map[], p).record.filename == p.base + p.ext
  {
    var empty: Directory := map[];
    assert empty.Keys == {};
    NothingTakenPlain(p.base, p.ext);
  }

  /** Stored again into the directory the first copy produced, the same file gets the "-1" name. */
  lemma SecondCopyDashOne(p: Pending)
    ensures StoreOne(StoreOne(map[], p).dir, p).record.filename == p.base + "-1" + p.ext
  {
    var first := StoreOne(map[], p);
    FirstCopyPlain(p);
    assert |p.base + "-1" + p.ext| != |p.base + p.ext|;
    SecondCopyGetsSuffixOne(first.dir.Keys, p.base, p.ext);
  }

  /** The same prepared file stored twice into an empty directory: `base + ext`, then `base-1 + ext`. */
  lemma SamePendingTwice(p: Pending)
    ensures var b := StoreAll(map[], [p, p]);
      && |b.saved| == 2
      && b.saved[0].filename == p.base + p.ext
      && b.saved[1].filename == p.base + "-1" + p.ext
  {
    StoreAllAppend(map[], [], p);
    StoreAllAppend(map[], [p], p);
    assert [] + [p] == [p] && [p] + [p] == [p, p];
    FirstCopyPlain(p);
    SecondCopyDashOne(p);
  }

  /** A prepared file's base and extension, as the upload derives them. */
  lemma PrepareParts(f: UploadFile)
    requires Supported(f)
    ensures Prepare(f).base == SafeBase(f.filename)
    ensures Prepare(f).ext == ExtensionFor(f.contentType).value
  {
  }

  lemma PrepareTwice(f: UploadFile)
    requires Supported(f)
    ensures PrepareAll([f, f]) == [Prepare(f), Prepare(f)]
  {
    assert [f, f][..1] == [f] && [f][..0] == [];
  }

  /**
   * Uploading the same accepted file twice into an empty directory stores it
   * under its safe base plus extension, then under the same with "-1" before
   * the extension.
   */
  lemma SameFileTwice(f: UploadFile)
    requires Supported(f)
    ensures var b := StoreAll(map[], PrepareAll([f, f]));
      var base, ext := SafeBase(f.filename), ExtensionFor(f.contentType).value;
      && |b.saved| == 2
      && b.saved[0].filename == base + ext
      && b.saved[1].filename == base + "-1" + ext
  {
    PrepareParts(f);
    SameFileTwiceAs(f, SafeBase(f.filename), ExtensionFor(f.contentType).value);
  }

  /** SameFileTwice with the base and extension named, so the proof need not look inside SafeBase. */
  lemma SameFileTwiceAs(f: UploadFile, base: string, ext: string)
    requires Supported(f) && Prepare(f).base == base && Prepare(f).ext == ext
    ensures var b := StoreAll(map[], PrepareAll([f, f]));
      && |b.saved| == 2
      && b.saved[0].filename == base + ext
      && b.saved[1].filename == base + "-1" + ext
  {
    PrepareTwice(f);
    SamePendingTwice(Prepare(f));
  }
}
