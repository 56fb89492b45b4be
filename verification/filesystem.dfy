/** The part of the operating system the item store consults, as data: what
    reading a file yields, what listing a directory yields, and how a relative
    path is made absolute. Nothing here performs I/O; a `Host` value fixes the
    answers for one moment in time. */
module FileSystem {

  /** The outcome of opening and decoding a file as UTF-8 text. */
  datatype ReadResult = Contents(text: string) | ReadError(description: string)

  /** One name in a directory listing. `Special` is a name that is neither a
      directory nor a regular file (a dangling link, a socket); the tree
      renderer skips it. */
  datatype Entry =
    | File(name: string)
    | Dir(name: string, listing: Listing)
    | Special(name: string)

  /** What listing a directory yields: `Unreadable` stands for a permission
      error or a directory that no longer exists. */
  datatype Listing = Unreadable | Listed(entries: seq<Entry>)

  datatype Host = Host(
    read: string -> ReadResult,
    absPath: string -> string,
    listDir: string -> Listing
  )

  const ErrorOpen := "[Error reading file: "
  const ErrorClose := "]"

  /** `AppLogic.read_file`: the file's text, or an inline error note in its place. */
  function ReadFile(host: Host, path: string): (r: string)
    ensures host.read(path).Contents? ==> r == host.read(path).text
    ensures host.read(path).ReadError? ==>
              ErrorOpen <= r && r[|ErrorOpen|..] == host.read(path).description + ErrorClose
  {
    match host.read(path)
    case Contents(text) => text
    case ReadError(description) => ErrorOpen + description + ErrorClose
  }
}
