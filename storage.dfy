/** The grievances file `data/grievances.json` and the three things the
    routes do with it: read it, parse it, overwrite it. The file system
    calls and JSON.parse/JSON.stringify are not modelled; the file is
    described by what parsing its text would give. */
module Storage {
  import opened Records

  datatype Option<T> = None | Some(value: T)

  /** The text of an existing file, as JSON.parse sees it. */
  datatype Content =
    | EmptyText                          // zero bytes: falsy for submit, a parse error for everybody else
    | Unparseable                        // non-empty text that JSON.parse rejects
    | Json(records: seq<Grievance>)      // a JSON array of grievance records

  /** The state of the one file the store owns. */
  datatype FileState = Absent | Present(content: Content)

  /** What `fs.readFile` hands to its callback. */
  datatype ReadResult =
    | NoEntry                            // err.code === 'ENOENT'
    | ReadError                          // any other error
    | Text(content: Content)             // no error; the file's text

  /** What an `fs.writeFile` of the whole list did. A failed write may have
      happened before or after the file was opened and truncated, so the
      file it leaves behind is part of the outcome. */
  datatype WriteOutcome = Written | WriteFailed(leftBehind: FileState)

  /** Reading the file. `fault` stands for a read error other than a missing
      file (permissions, an I/O error), which the environment decides. */
  function Read(file: FileState, fault: bool): ReadResult
  {
    if fault then ReadError
    else match file
      case Absent => NoEntry
      case Present(c) => Text(c)
  }

  /** `JSON.parse` of the file's text. */
  function Parse(c: Content): Option<seq<Grievance>>
  {
    match c
    case Json(rs) => Some(rs)
    case _ => None
  }

  /** The file after an attempt to overwrite it with the JSON text of `data`. */
  function Write(data: seq<Grievance>, w: WriteOutcome): FileState
  {
    match w
    case Written => Present(Json(data))
    case WriteFailed(left) => left
  }
}
