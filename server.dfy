/** The running server: one object owns the grievances file, and each
    route handler is a method that reads the file, works on its own copy of
    the list and overwrites the file. The environment's part (a read fault,
    the write's outcome, the `Date.now()` reading) comes in as parameters.
    Each method is proved to take exactly the step its route takes in the
    state machine of module Routes. */
module Server {
  import opened Values
  import opened Records
  import opened Storage
  import opened Routes

  class GrievanceStore {
    /** The file `data/grievances.json`. */
    var file: FileState

    constructor (initial: FileState)
      ensures file == initial
    {
      file := initial;
    }

    /** Startup: create the file with an empty list when it is missing. */
    method InitialiseFile(w: WriteOutcome) returns (started: bool)
      modifies this
      ensures Boot(file, started) == Startup(old(file), w)
    {
      started := true;
      if file.Absent? {
        file := Write([], w);
        started := w.Written?;
      }
    }

    /** POST /submit-grievance: build the record, read and parse the file
        (a missing or empty file counts as an empty list), push the record
        and write the whole list back. */
    method SubmitGrievance(body: Form, clock: int, readFault: bool, w: WriteOutcome) returns (status: Status)
      modifies this
      ensures Outcome(file, status) == Submit(old(file), body, clock, readFault, w)
    {
      var newGrievance := NewGrievance(clock, body);
      var data := Read(file, readFault);
      if data.ReadError? {
        return ServerError;
      }
      var grievances: seq<Grievance> := [];
      if data.Text? && !data.content.EmptyText? {
        var parsed := Parse(data.content);
        if parsed.None? {
          return ServerError;
        }
        grievances := parsed.value;
      }
      grievances := grievances + [newGrievance];
      file := Write(grievances, w);
      status := if w.Written? then Ok else ServerError;
    }

    /** GET /admin/grievances, up to rendering: read and parse the file, and
        choose between the empty-list notice and the records. Changes
        nothing. */
    method ViewGrievances(readFault: bool) returns (status: Status, page: Page)
      ensures Listing(status, page) == View(file, readFault)
    {
      var data := Read(file, readFault);
      if !data.Text? {
        return ServerError, ErrorText;
      }
      var parsed := Parse(data.content);
      if parsed.None? {
        return ServerError, ErrorText;
      }
      var grievances := parsed.value;
      if |grievances| == 0 {
        status, page := Ok, NoGrievancesYet;
      } else {
        status, page := Ok, Listed(grievances);
      }
    }

    /** POST /admin/delete-grievance: read and parse the file, filter out
        the records whose id is strictly equal to `id`, answer 404 without
        writing when the length did not change, and write otherwise. */
    method DeleteGrievance(id: Value, readFault: bool, w: WriteOutcome) returns (status: Status)
      modifies this
      ensures Outcome(file, status) == Delete(old(file), id, readFault, w)
    {
      var data := Read(file, readFault);
      if !data.Text? {
        return ServerError;
      }
      var parsed := Parse(data.content);
      if parsed.None? {
        return ServerError;
      }
      var grievances := parsed.value;
      var initialLength := |grievances|;
      var updated := Without(grievances, id);
      if |updated| == initialLength {
        return NotFound;
      }
      file := Write(updated, w);
      status := if w.Written? then Ok else ServerError;
    }

    /** POST /admin/clear-all-grievances: overwrite the file with an empty
        list without reading it. */
    method ClearAllGrievances(w: WriteOutcome) returns (status: Status)
      modifies this
      ensures Outcome(file, status) == ClearAll(w)
    {
      file := Write([], w);
      status := if w.Written? then Ok else ServerError;
    }
  }
}
