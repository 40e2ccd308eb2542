# Media upload backend: a verified model of the upload and listing core

The backend accepts multipart uploads of images and videos, stores each file
in an upload directory under a safe, unique name, and lists the media files
that directory holds. This project models that core in Dafny:

- the allow-list of declared content types and the extension each is stored
  under (`MimePolicy`);
- deriving a safe base name from the client's file name (the root that
  POSIX `os.path.splitext` leaves, spaces to `_`, only ASCII letters, digits, `_`
  and `-` kept, `"file"` when nothing is left) and the `while True` loop
  that tries `base + ext`, `base-1 + ext`, `base-2 + ext`, ... until a name
  is free (`SafeFilename`);
- the batch upload as functions on directory values (`UploadStore`) and as
  the imperative loop over a mutable directory (`MediaService.MediaStore.Upload`);
- the listing as a function on directory values (`MediaLister`) and as the
  imperative loop over the sorted names (`MediaService.MediaStore.ListMedia`).

The upload directory is a `map<string, Entry>`: a name is present exactly when
`os.path.exists` would report it, and an entry is either a regular file with
its bytes or something else (a sub-directory, a device). `MediaStore.entries`
holds it and the two endpoint methods read and extend it. A file's bytes are
given as a `seq<byte>`; writing a file stores them, and its size is their
count.

Supporting pieces live in `Strings`: `str(i)` for the counter, with a
round-trip proof against a parser; `str.rfind`; ASCII lower-casing;
`str.endswith`; and Python's code-point ordering of names with the selection
sort that stands for `sorted`. `Wrappers` holds `Option` and `Result`.

## Model

| member | source | states |
|---|---|---|
| MimePolicy.ExtensionFor | main.py:76-84 | every extension handed out is a dot followed by lower-case letters and digits |
| MimePolicy.ExtensionForIsTableLookup | main.py:76-84 | the lookup gives the table's extension for exactly the seven listed types and nothing for any other type |
| Strings.Decimal | main.py:102 | the counter's spelling is non-empty, all digits, and has no leading zero |
| Strings.ParseDecimalRoundTrip | main.py:102 | reading the spelling of a counter back gives the counter |
| Strings.DecimalInjective | main.py:102 | different counters are spelled differently |
| Strings.AsciiLower | main.py:126-128 | same length, no upper-case letter left, each upper-case ASCII letter moved to its lower-case partner, every other character kept |
| Strings.AsciiLowerKeepsSuffix | main.py:126-128 | lower-casing a name that ends with a suffix free of upper-case letters keeps that suffix at the end |
| Strings.EndsWith | main.py:126-128 | holds exactly when the text is some text followed by the suffix |
| Strings.EndsWithAnyConcat | main.py:126-128 | ending with one of two suffix lists joined is ending with one of either list |
| Strings.LastIndexOf | main.py:98 | the result is the last position of the character, or -1 when it does not occur |
| Strings.LastIndexOfAppend | main.py:98 | appending text without the character leaves its last position unchanged |
| Strings.BelowIrreflexive | main.py:122 | no name sorts before itself |
| Strings.BelowTransitive | main.py:122 | the name order is transitive |
| Strings.BelowTotal | main.py:122 | of two different names one sorts before the other |
| Strings.MinName | main.py:122 | the result is in the set and sorts before every other member |
| Strings.SortNames | main.py:122 | the result is strictly ascending and holds exactly the given names |
| SafeFilename.StripExt | main.py:98 | the root is a prefix of the name; when it is shorter, the rest starts with the last dot and holds no further dot or slash |
| SafeFilename.StripExtChanges | main.py:98 | something is stripped exactly when the final path segment has a dot with a non-dot before it |
| SafeFilename.ExtensionSeparators | main.py:98 | after a dot-led extension is appended, the last dot is the extension's and the last slash is the root's |
| SafeFilename.StripExtAppended | main.py:98 | stripping an appended extension gives back a root whose final segment is not all dots |
| SafeFilename.StripExtNoDot | main.py:98 | a name whose final segment holds no dot is its own root |
| SafeFilename.ReplaceSpaces | main.py:98 | same length; every space becomes `_`, every other character stays |
| SafeFilename.ReplaceSpacesAppend | main.py:98 | replacing spaces in a concatenation replaces them in each part |
| SafeFilename.KeepSafe | main.py:99 | keeps only safe characters, changes an all-safe text not at all, and is empty exactly when no character is safe |
| SafeFilename.KeepSafeChar | main.py:99 | one character is kept exactly when it is a letter, digit, `_` or `-` |
| SafeFilename.KeepSafeCons | main.py:99 | filtering a text is filtering its first character, then the rest |
| SafeFilename.KeepSafeAppend | main.py:99 | filtering a concatenation is filtering each part and joining them, so the kept characters stay in their original order |
| SafeFilename.Sanitise | main.py:98-99 | the sanitised root holds only safe characters and is empty exactly when the root holds no safe character and no space |
| SafeFilename.SanitiseChar | main.py:98-99 | one character: a space gives `_`, a safe character stays, any other character is dropped |
| SafeFilename.SanitiseAppend | main.py:98-99 | sanitising a concatenation sanitises each part in place, so it is determined by the one-character case |
| SafeFilename.SanitiseSafeOrSpace | main.py:98-99 | a root of safe characters and spaces loses nothing; only its spaces become `_` |
| SafeFilename.SanitiseSafe | main.py:98-99 | a root of safe characters is kept unchanged |
| SafeFilename.SanitiseWordsAndTail | main.py:98-99 | two safe words around a space, followed by unsafe characters, give the words joined by `_` |
| SafeFilename.SafeBase | main.py:98-99 | the base is non-empty and holds only letters, digits, `_` and `-`; it is `"file"` when nothing of the root survives, and the sanitised root otherwise |
| SafeFilename.SpacesBecomeUnderscores | main.py:98-99 | when the root holds only safe characters and spaces, the base is the root with each space as `_` |
| SafeFilename.SafeBaseIdempotent | main.py:98-99 | sanitising a sanitised base changes nothing |
| SafeFilename.FallbackExample | main.py:99 | `"???.png"` gets the base `"file"` |
| SafeFilename.PhotoRoot | main.py:98 | the root of `"My Photo!!.png"` is `"My Photo!!"` |
| SafeFilename.MixedRootExample | main.py:98-99 | `"My Photo!!.png"` gets the base `"My_Photo"`: the space becomes `_`, the `!` characters are dropped |
| SafeFilename.Candidate | main.py:102 | every candidate starts with the base and ends with the extension, and only the first one is exactly their concatenation |
| SafeFilename.CandidateInjective | main.py:102 | different counters give different candidate names |
| SafeFilename.CandidatesBound | main.py:100-106 | if the first n candidates are all taken, at least n names are taken |
| SafeFilename.FirstFreeFrom | main.py:100-106 | the index found is free, and every index below it is taken |
| SafeFilename.FirstFree | main.py:100-106 | the smallest index whose candidate is free |
| SafeFilename.FirstFreeUnique | main.py:100-106 | a free index with all smaller ones taken is the one chosen |
| SafeFilename.FirstFreeNameUnique | main.py:100-106 | a free name that is a candidate with every smaller candidate taken is the candidate the loop chooses |
| SafeFilename.NothingTakenPlain | main.py:102 | with no names taken the plain `base + ext` is chosen |
| SafeFilename.ResolveName | main.py:100-106 | the loop terminates with a name that is not taken and is the first free candidate |
| SafeFilename.SecondCopyGetsSuffixOne | main.py:100-106 | with `base + ext` taken and `base-1 + ext` free, the loop picks `base-1 + ext` |
| UploadStore.UploadError.Detail | main.py:90-96 | every refusal has a message, and the unsupported-type message ends with the declared type |
| UploadStore.UnsupportedDetailNamesType | main.py:89-96 | the unsupported-type refusal ends with the declared type and differs from the empty-batch refusal |
| UploadStore.SupportedPrefix | main.py:93-96 | the files before the count are all supported and the one at the count, if any, is not |
| UploadStore.Accepted | main.py:93-96 | the processed files are a prefix of the batch, all supported, followed by an unsupported file or nothing |
| UploadStore.Prepare | main.py:94-99 | a prepared file carries the allowed extension of its declared type, which is well formed, and its own type and bytes |
| UploadStore.PrepareAll | main.py:93-99 | one prepared file per accepted file |
| UploadStore.PrepareAllAt | main.py:93-99 | the prepared batch holds each file's safe base and allowed extension, in order |
| UploadStore.PrepareAllNext | main.py:93-99 | preparing one more file appends its prepared form |
| UploadStore.PrepareAllSnoc | main.py:93-99 | a batch extended by one accepted file is accepted, and its prepared form is extended by that file's prepared form |
| UploadStore.CandidateWellFormed | main.py:99-102 | every candidate is safe characters followed by the extension |
| UploadStore.StoredName | main.py:100-106 | the name is free in the directory and is the first free candidate of the file's base and extension: every smaller candidate is taken |
| UploadStore.StoredNameWellFormed | main.py:98-106 | every stored name is safe characters followed by the file's allowed extension |
| UploadStore.StoreOne | main.py:98-114 | one new entry under a name that was free, ends with the extension and is the first free candidate of the file's base (every smaller candidate taken), holding the bytes; old entries unchanged; url, type and size describe the entry |
| UploadStore.StoreAll | main.py:93-114 | storing a batch reports one record per file |
| UploadStore.StoreAllAppend | main.py:93-114 | storing one more file after a batch extends the batch |
| UploadStore.NamesAppend | main.py:109-114 | the reported names grow by the appended record's name |
| UploadStore.StoreAllRecordAt | main.py:93-114 | each record of a batch is the one storing its file gives into the directory the earlier files left |
| UploadStore.StoreAllRecordName | main.py:93-106 | each record's name is the first free candidate of its file's base and extension in the directory the earlier files left |
| UploadStore.StoreAllKeeps | main.py:100-108 | no existing entry is removed or overwritten |
| UploadStore.StoreAllKeys | main.py:107-116 | the directory's names afterwards are the old ones plus the reported ones |
| UploadStore.StoreAllRecordFields | main.py:109-114 | each record's url is `/uploads/` plus its name, its type and size are its file's, and its name ends with the file's extension |
| UploadStore.StoreAllRecordHolds | main.py:107-108 | each reported name holds exactly its file's bytes |
| UploadStore.StoreAllRecordFresh | main.py:100-106 | each reported name was absent before the batch |
| UploadStore.StoreAllDistinct | main.py:100-114 | no two files of a batch get the same name |
| UploadStore.NamesCount | main.py:109-114 | records with distinct names report as many names as records |
| UploadStore.StoreAllGrowth | main.py:107-108 | a batch of n files grows the directory by exactly n entries |
| UploadStore.FirstCopyPlain | main.py:100-106 | into an empty directory a file is stored as `base + ext` |
| UploadStore.SecondCopyDashOne | main.py:100-106 | the same file stored again is named `base-1 + ext` |
| UploadStore.SamePendingTwice | main.py:93-114 | a prepared file stored twice gets `base + ext`, then `base-1 + ext` |
| UploadStore.PrepareTwice | main.py:93-99 | a batch of the same file twice prepares to that file's prepared form twice |
| UploadStore.SameFileTwice | main.py:88-116 | uploading the same file twice into an empty directory stores `base + ext`, then `base-1 + ext` |
| MediaLister.Classify | main.py:126-131 | a name is media exactly when its lower-cased form ends with an image or video suffix, and it is an image exactly when that form ends with an image suffix |
| MediaLister.ItemFor | main.py:124-132 | a name gives an item exactly when it is a regular file with a media suffix, and the item describes that file |
| MediaLister.AsciiLowerIdempotent | main.py:126-128 | lower-casing twice is lower-casing once |
| MediaLister.ClassifyIgnoresCase | main.py:126-128 | a name and its lower-cased form are classified alike |
| MediaLister.ItemForBySuffix | main.py:124-131 | a regular file's item follows the suffix checks in order: image suffix, else video suffix, else no item |
| MediaLister.Listing | main.py:120-133 | the listing has no more items than walked names |
| MediaLister.ListingNext | main.py:122-132 | walking one more name appends that name's item, if it has one |
| MediaLister.ListingFromNames | main.py:122-132 | every item comes from a walked name |
| MediaLister.ListingSound | main.py:123-132 | every item is a regular file of the directory with its suffix's kind, url `/uploads/` plus its name, and its byte count as size |
| MediaLister.ListingComplete | main.py:122-132 | every walked name that is a regular file with a media suffix is listed with its item |
| MediaLister.ListingOrdered | main.py:122 | walking ascending names lists items in ascending name order |
| MediaLister.SortedListing | main.py:120-133 | walking every name in ascending order lists the items in name order, each describing a regular media file, and lists every regular media file |
| MediaLister.AppendOrdered | main.py:132 | appending an item above all listed names keeps the order |
| MediaLister.TextFileSkipped | main.py:130-131 | a `.txt` file is not listed |
| MediaLister.UpperCaseSuffixIsImage | main.py:126-127 | `"A.PNG"` is an image |
| MediaLister.DirectorySkipped | main.py:124 | a sub-directory named like a video is not listed |
| MediaService.MediaStore.Upload | main.py:88-116 | empty batch: refused, nothing changes; else the accepted prefix is stored as the batch function says, an unsupported file ends with its type in the error, and success returns the records |
| MediaService.MediaStore.ListMedia | main.py:120-133 | the items are in ascending name order, each describes a regular media file, and every regular media file is listed |
| MediaService.BatchStep | main.py:93-114 | storing the next accepted file extends the stored batch by that file's record and directory |
| MediaService.AcceptedStopsAt | main.py:93-96 | the loop stops at the first unsupported file, which is where the accepted prefix ends |
| MediaService.LowerKeepsExtension | main.py:126 | lower-casing a name keeps its lower-case extension at the end |
| MediaService.ExtensionMatchesKind | main.py:76-84 | image types are stored under image suffixes, video types under video suffixes |
| MediaService.VideoExtensionNotImage | main.py:126-128 | a name ending with a video extension ends with no image suffix |
| MediaService.StoredExtensionClassified | main.py:126-129 | a name ending with an allowed extension is classified as its content type's kind |
| MediaService.UploadedFileListed | main.py:88-133 | every uploaded file shows up in the listing with the reported name, url and size and the kind of its content type |

## Left out

- The web framework: application setup, CORS, the static mount, the server
  start-up, and the HTTP status codes. An error is a `Failure` value.
- The `/test` diagnostic endpoint and the `/` and `/api/hello` greetings.
  They probe the environment and a database.
- Real file-system I/O. The directory is a map value; `open`/`write` and
  `os.path.getsize` are map updates and lookups. `os.listdir` and `isfile`
  read the map's keys and entry kinds. `await f.read()` is the given bytes.
  Creating the directory at start-up is not modelled.
- Concurrent requests and the race between the existence check and the
  write. The model has a single sequential caller.
- Unicode: `str.isalnum` and `str.lower` are modelled on ASCII only.
  Non-ASCII letters are dropped from names, and non-ASCII upper-case suffixes
  are not folded.
- A missing client file name or content type (`None`). Both are strings in
  the model.
- Symbolic links: an entry is a regular file or not, with no link
  resolution.
- Windows paths: only `/` separates path segments, as in POSIX `os.path`.
  On Windows `ntpath.splitext` also splits at `\`, so a name such as
  `"a.b\c"` keeps its whole text as the root there but loses `".b\c"` here.
- Strings.SortNames: Python's `sorted` is modelled by a selection sort. Only
  its result (ascending, same names) is claimed, not its algorithm.
- UploadStore.StoreOne: the record's size is read back from the stored entry,
  as `os.path.getsize` would. A failing or partial write is not modelled.
