# Grievance record store

A model of the record store of a small Express web service (`server.js`).
The service keeps an ordered list of grievance records
`{id, title, complaint, mood, date}` in one JSON file,
`data/grievances.json`. The model covers:

- startup, which creates the file holding an empty list when it is missing;
- `POST /submit-grievance`, which reads and parses the file, appends a new
  record and writes the whole list back;
- `GET /admin/grievances`, which reads and parses the file and shows either
  the "no grievances yet" notice or the records;
- `POST /admin/delete-grievance`, which removes every record whose id is
  strictly equal (`===`) to the requested one, answers 404 without writing
  when nothing was removed, and writes otherwise;
- `POST /admin/clear-all-grievances`, which overwrites the file with an
  empty list without reading it.

Each route is one atomic step of a state machine over a single state value,
the file (module `Routes`). This is a pure function from the file before the
request, plus what the environment does, to the file after the request and
the HTTP status. The environment supplies three things: a read error other
than "file missing", the outcome of the write, and the `Date.now()` reading.
The server itself is the class `Server.GrievanceStore`. Its `file` field is
the file, and each of its methods runs a route step by step (read, parse,
push or filter, write). Each method is proved to end in exactly the state
and status of the matching step function. Lemmas in `Scenarios` relate
several requests to each other.

Modules, in dependency order:

- `Values`: JavaScript values as far as `===` can tell them apart. Numbers
  are integers. Objects and arrays are `Composite` and are never strictly
  equal to anything.
- `Records`: the record, the record a submission builds, the delete filter
  `Without`, and the lemmas about that filter.
- `Storage`: the file's states. The file is either `Absent` or `Present`
  with content that is empty, unparseable, or a JSON array of records. It
  also defines the abstract read, parse and write.
- `Routes`: one step function per route.
- `Scenarios`: lemmas about sequences of requests.
- `Server`: the class with one method per route.

Points where one might expect more of the store than the code does. The
model follows the code:

- Missing file. One might expect a missing file to count as an empty list
  everywhere, since startup creates it (server.js:24-26). In the code only
  submit does so (server.js:39), and submit also treats an empty file as an
  empty list (server.js:45). The admin view and delete answer 500 for a
  missing file (server.js:71-73, server.js:218-220). They also answer 500
  for an empty file, because `JSON.parse("")` throws.
- Unique ids. The comment on server.js:31 calls the id a "simple unique
  ID", but it is the bare `Date.now()` reading. `Scenarios.SameClockCollides`
  shows two same-millisecond submits sharing an id, and one delete then
  removing both. Uniqueness is proved only as a conditional invariant:
  `Scenarios.SubmitWithFreshClockKeepsDistinct` and
  `Scenarios.DeleteWithDistinctIdsRemovesOne`.
- Failed writes. One might expect a failed write to leave the file as it
  was, but `fs.writeFile` (server.js:56, 238, 251) truncates the file
  before it writes. So a failed write is modelled as
  `WriteFailed(leftBehind)`, and the file after a failed write is
  unconstrained: `leftBehind` may be any file state, and every contract
  holds whatever it is.

Helpers without a contract of their own: `Storage.Read`, `Storage.Parse`
and `Storage.Write` stand for the file system calls and `JSON.parse`;
`Routes.SubmitBase` is the list submit starts from (server.js:39-52);
`Routes.Save` is the closing write and its 200/500 reply (server.js:56-62,
238-244, 251-257); `Routes.Status.Code` gives the numeric HTTP status of
each reply. Their behaviour is fixed by the contracts of `Routes.Submit`,
`Routes.Delete` and `Routes.ClearAll`.

## Model

| member | source | states |
|---|---|---|
| `Values.StrictEquals` | server.js:232 | `===` holds exactly when both values have the same type and value and are not objects or arrays; a string id never equals a numeric id |
| `Records.NewGrievance` | server.js:30-36 | the new record's id is the clock reading as a number, and its title, complaint, mood and date are the request's, verbatim |
| `Records.Without` | server.js:232 | the filtered list is never longer than the stored list |
| `Records.WithoutMembership` | server.js:232 | a record is kept by the filter exactly when it was stored and its id is not strictly equal to the requested id |
| `Records.WithoutDistributes` | server.js:232 | filtering works record by record in order: filtering `a + b` gives filter(a) + filter(b), so the kept records keep their order |
| `Records.WithoutCount` | server.js:231-234 | the filter shortens the list by exactly the number of matching records |
| `Records.WithoutUnchangedIffNoMatch` | server.js:231-236 | comparing lengths gives "not found" correctly: the lengths are equal exactly when no record matches, and then the filtered list is the stored list |
| `Records.WithoutKeepsDistinct` | server.js:232 | filtering never creates a duplicate id |
| `Records.DistinctAtMostOneMatch` | server.js:231-234 | when stored ids are distinct, at most one record matches a requested id |
| `Routes.Startup` | server.js:24-26 | an existing file is left untouched whatever it holds; a missing file becomes an empty list; if that write fails the server does not start; once started, the file exists |
| `Routes.Submit` | server.js:29-65 | 200 exactly when there is no read error other than a missing file, the text parses or is empty, and the write succeeds; then the file holds the old list with the new record appended (a one-record list for a missing or empty file); a read error or a parse failure gives 500 with the file unchanged; a failed write gives 500; never 404 |
| `Routes.View` | server.js:70-82 | 200 exactly when the read succeeds and the text parses, with the notice for an empty list (the check of line 141) and the stored records otherwise; every other case, a missing or empty file included, gives 500; the result contains no file, so nothing is written |
| `Routes.Delete` | server.js:214-247 | any read error (a missing file included) or a parse failure gives 500 with the file unchanged; when no stored id is strictly equal to the requested one, 404 with the file unchanged; otherwise the filtered list is written, giving 200, or 500 when the write fails |
| `Routes.ClearAll` | server.js:250-259 | without reading, the file becomes the empty list with 200, or 500 when the write fails; never 404 |
| `Scenarios.StartupIdempotent` | server.js:21-26 | running startup again after a successful start changes neither the file nor the outcome |
| `Scenarios.SubmitThenView` | server.js:44-62 | after a successful submit, the list the view reads (before its newest-first sort) is the earlier records unchanged and in order, then the new record carrying the clock id and the request's fields |
| `Scenarios.MissingOrEmptyFileTreatedDifferently` | server.js:38-52 | a missing or empty file lets submit store a one-record list, while the admin view and delete answer 500 for the same file |
| `Scenarios.ClearThenView` | server.js:250-259 | after a successful clear, the admin view shows the empty-list notice, whatever the file held before |
| `Scenarios.DeleteThenDeleteAgain` | server.js:231-244 | after a successful delete, the stored records are exactly the earlier ones whose id does not match, and deleting the same id again gives 404 without a write |
| `Scenarios.StringIdNeverMatchesNumericIds` | server.js:232-236 | when every stored id is a number, a delete by a string id gives 404 and leaves the file as it was |
| `Scenarios.StringFiveIsNotNumberFive` | server.js:232-236 | a record with id 5 survives a delete request for "5", which gives 404 |
| `Scenarios.SubmitWithFreshClockKeepsDistinct` | server.js:31-36 | if the clock reading is not already a stored id, a submit keeps ids distinct |
| `Scenarios.DeleteWithDistinctIdsRemovesOne` | server.js:231-244 | when ids are distinct, a successful delete removes exactly one record and keeps ids distinct |
| `Scenarios.SameClockCollides` | server.js:31 | two submits with the same clock reading store two records with equal ids, and one delete removes both |
| `Scenarios.Session` | server.js:24-259 | fresh start, submit A, submit B: the list the view reads (before its sort) is [A, B]; delete A leaves [B] with 200; after a clear the view shows the empty notice |
| `Server.GrievanceStore.constructor` | server.js:17 | the store starts with the given file |
| `Server.GrievanceStore.InitialiseFile` | server.js:24-26 | the new file and the started flag are those of `Routes.Startup` |
| `Server.GrievanceStore.SubmitGrievance` | server.js:29-65 | the new file and the status are those of `Routes.Submit` |
| `Server.GrievanceStore.ViewGrievances` | server.js:69-82 | the status and page are those of `Routes.View`; the method modifies nothing |
| `Server.GrievanceStore.DeleteGrievance` | server.js:214-247 | the new file and the status are those of `Routes.Delete` |
| `Server.GrievanceStore.ClearAllGrievances` | server.js:250-259 | the new file and the status are those of `Routes.ClearAll` |

## Left out

- Express setup, the body parsers, static file serving and `app.listen`
  (server.js:1-14, 262-264). These are framework plumbing. A request body
  is given directly as its parsed fields.
- The `fs` calls. Reading is modelled by the file's state plus a flag for
  a read error other than ENOENT. Writing is modelled by `Written` or
  `WriteFailed(leftBehind)`.
- `JSON.parse` and `JSON.stringify`. The file is described by what parsing
  its text gives. The model takes it that writing a list and parsing it
  again yields the same list. The pretty-printing is irrelevant.
- Creating the `data` directory (server.js:20-23) is not modelled.
- Text that parses to JSON other than an array of objects is not
  modelled. For `{}` or `null` the route's `push`, `filter`, `sort` or
  `length` throws inside the callback and ends the process, and the model
  has no crash outcome for a request. An array of non-objects such as `[1]`
  runs on with every field of such an element read as `undefined` (submit
  appends to it, delete keeps it unless the requested id is itself
  `undefined`, the view renders it); an array holding `null` runs on in
  submit but throws in delete and in the view.
- Numbers are integers. Fractional ids and double rounding are not
  modelled; the server's own ids come from `Date.now()` and are integers.
- The newest-first sort of the admin view (server.js:145) is not
  modelled. It is floating-point `Date` arithmetic, and its comparator is
  inconsistent for unparseable dates. `Routes.View` therefore gives the
  records in stored order, the order they have before that sort.
- The HTML page, the string building in the render loop and the inline
  client script (server.js:84-208) are presentation.
- `console` logging and the reply texts. Only status codes are modelled.
- `Date.now()` itself is left out; the clock reading is a parameter.
- Concurrent requests and the lost-update race between interleaved
  callbacks are left out. Each route is one atomic step.
