/** Each route of the server as one atomic step of a state machine whose
    state is the grievances file: given the file before the request and
    what the environment does to its read and write, the step gives the
    file after the request and the HTTP status of the reply. */
module Routes {
  import opened Values
  import opened Records
  import opened Storage

  /** The statuses a route replies with. */
  datatype Status = Ok | NotFound | ServerError {
    function Code(): int
    {
      match this
      case Ok => 200
      case NotFound => 404
      case ServerError => 500
    }
  }

  /** The file after a request, and the reply's status. */
  datatype Outcome = Outcome(file: FileState, status: Status)

  /** The file after server startup, and whether the server got as far as
      listening (a failed `writeFileSync` throws and ends the process). */
  datatype Boot = Boot(file: FileState, started: bool)

  /** What the admin view puts on its page: the error text, the
      "no grievances yet" notice, or the records it goes on to render,
      in stored order (the newest-first sort is not modelled). */
  datatype Page = ErrorText | NoGrievancesYet | Listed(records: seq<Grievance>)

  datatype Listing = Listing(status: Status, page: Page)

  /** The end of a route that overwrites the file with `data`. */
  function Save(data: seq<Grievance>, w: WriteOutcome): Outcome
  {
    Outcome(Write(data, w), if w.Written? then Ok else ServerError)
  }

  /** Startup: a missing file is created holding an empty list; an existing
      file, whatever it holds, is left alone. */
  function Startup(file: FileState, w: WriteOutcome): (b: Boot)
    ensures file.Present? ==> b == Boot(file, true)
    ensures file.Absent? ==> (b.started <==> w.Written?)
    ensures file.Absent? && w.Written? ==> b.file == Present(Json([]))
    ensures file.Absent? && w.WriteFailed? ==> b.file == w.leftBehind
    ensures b.started ==> b.file.Present?
  {
    if file.Absent? then Boot(Write([], w), w.Written?) else Boot(file, true)
  }

  /** The list submit appends to: a missing file and an empty file both
      count as the empty list; None for a read error other than a missing
      file, and for text that does not parse. */
  function SubmitBase(r: ReadResult): Option<seq<Grievance>>
  {
    match r
    case ReadError => None
    case NoEntry => Some([])
    case Text(c) => if c.EmptyText? then Some([]) else Parse(c)
  }

  /** POST /submit-grievance. */
  function Submit(file: FileState, body: Form, clock: int, readFault: bool, w: WriteOutcome): (o: Outcome)
    ensures o.status != NotFound
    ensures o.status == Ok <==> !readFault && file != Present(Unparseable) && w.Written?
    ensures o.status == Ok && file.Present? && file.content.Json? ==>
              o.file == Present(Json(file.content.records + [NewGrievance(clock, body)]))
    ensures o.status == Ok && (file.Absent? || file.content.EmptyText?) ==>
              o.file == Present(Json([NewGrievance(clock, body)]))
    ensures readFault || file == Present(Unparseable) ==> o == Outcome(file, ServerError)
    ensures !readFault && file != Present(Unparseable) && w.WriteFailed? ==>
              o == Outcome(w.leftBehind, ServerError)
  {
    var newGrievance := NewGrievance(clock, body);
    assert [] + [newGrievance] == [newGrievance];
    match SubmitBase(Read(file, readFault))
    case None => Outcome(file, ServerError)
    case Some(grievances) => Save(grievances + [newGrievance], w)
  }

  /** GET /admin/grievances, up to the point where the page is rendered:
      any read error (a missing file included) or parse error gives 500;
      otherwise 200 with the notice for an empty list or the records. The
      route never writes, so it has no file in its result. */
  function View(file: FileState, readFault: bool): (l: Listing)
    ensures l.status == Ok <==> !readFault && file.Present? && file.content.Json?
    ensures l.status != Ok ==> l == Listing(ServerError, ErrorText)
    ensures l.status == Ok && file.content.records == [] ==> l.page == NoGrievancesYet
    ensures l.status == Ok && file.content.records != [] ==> l.page == Listed(file.content.records)
  {
    match Read(file, readFault)
    case Text(c) =>
      (match Parse(c)
       case None => Listing(ServerError, ErrorText)
       case Some(grievances) =>
         if |grievances| == 0 then Listing(Ok, NoGrievancesYet) else Listing(Ok, Listed(grievances)))
    case _ => Listing(ServerError, ErrorText)
  }

  /** POST /admin/delete-grievance. */
  function Delete(file: FileState, id: Value, readFault: bool, w: WriteOutcome): (o: Outcome)
    ensures readFault || file.Absent? || !file.content.Json? ==> o == Outcome(file, ServerError)
    ensures !readFault && file.Present? && file.content.Json? && !HasId(file.content.records, id) ==>
              o == Outcome(file, NotFound)
    ensures !readFault && file.Present? && file.content.Json? && HasId(file.content.records, id) ==>
              (o.status == Ok <==> w.Written?) &&
              (w.Written? ==> o.file == Present(Json(Without(file.content.records, id)))) &&
              (w.WriteFailed? ==> o == Outcome(w.leftBehind, ServerError))
  {
    match Read(file, readFault)
    case Text(c) =>
      (match Parse(c)
       case None => Outcome(file, ServerError)
       case Some(grievances) =>
         var updated := Without(grievances, id);
         WithoutUnchangedIffNoMatch(grievances, id);
         if |updated| == |grievances| then Outcome(file, NotFound) else Save(updated, w))
    case _ => Outcome(file, ServerError)
  }

  /** POST /admin/clear-all-grievances: overwrites the file with an empty
      list without reading it, so the prior state plays no part. */
  function ClearAll(w: WriteOutcome): (o: Outcome)
    ensures o.status == Ok <==> w.Written?
    ensures o.status != NotFound
    ensures w.Written? ==> o.file == Present(Json([]))
    ensures w.WriteFailed? ==> o == Outcome(w.leftBehind, ServerError)
  {
    Save([], w)
  }
}
