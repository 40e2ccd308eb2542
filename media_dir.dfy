/**
 * The upload directory as a value: a finite map from entry name to entry.
 * An entry is a regular file with its bytes, or anything else the directory
 * may hold (a sub-directory, a device, ...). A name is "present", as
 * `os.path.exists` reports it, exactly when it is a key of the map.
 */
module MediaDir {

  newtype byte = b: int | 0 <= b < 256

  datatype Entry = RegularFile(data: seq<byte>) | NotRegular

  type Directory = map<string, Entry>

  /** What `os.path.getsize` reports for a regular file: its byte count. */
  function SizeOf(e: Entry): nat
    requires e.RegularFile?
  {
    |e.data|
  }

  /** The public URL under which the static mount serves a stored name. */
  function UrlFor(name: string): string {
    "/uploads/" + name
  }
}
