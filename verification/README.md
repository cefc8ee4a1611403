# School attendance and materials API, modelled in Dafny

This project models the request-handling rules of the school attendance and
learning-material server (`server.js`). The server keeps three SQLite
tables: accounts (`users`), uploaded learning materials (`materials`) and
daily attendance records (`attendance`). Every `/api/` route except login
requires a bearer token. The uploaded files under `/uploads`, and the other
static files, are served without a token; that serving is not modelled.
Role checks guard the routes that write tables, the students list and
today's status. The materials list and `GET /api/me` check no role, and the
attendance list only chooses its query by the caller's role (student, or
teacher/admin).

In the model:

- The tables are `seq` fields of the class `Api.School`. The AUTOINCREMENT
  counters of the two tables that grow are fields too.
- The routes that change a table are methods with frame clauses:
  `CreateMaterial`, `DeleteMaterial` and `SubmitAttendance`.
- The read routes and login are functions over the state: `Login`,
  `MaterialList`, `AttendanceList`, `StudentList` and `TodayStatus`.
- Each route takes the caller's decoded claims, as the handlers read
  `req.user`, and returns either a body or a `Failure` with the server's
  status code and message.
- Bearer-header parsing and the authentication middleware are in `Auth`.
- The upload file-type filter and Node's `path.extname` are in `Upload`.
- SQLite's `db.get`, `WHERE` and `ORDER BY` semantics are in `Query`.
  `ORDER BY` is an insertion sort proved to return an ordered permutation
  of its input. NULL sorts first, and texts compare by code point, which is
  the BINARY collation's order.
- The clock, token signing and verification, and password hashing are
  parameters: `today`, `now`, `verify` and `passwordMatches`.

The object invariant `School.Valid()` holds that:

- account ids and usernames are unique;
- material and attendance ids are ascending and below their counters;
- at most one attendance record exists per student and date.

The schema has no UNIQUE constraint on (student_id, date).
`Schema.AppendKeepsOnePerDay` proves that appending a record keeps the
last property exactly when the handler's lookup found nothing. So the
invariant rests on that lookup alone.

Two methods without contracts, `Api.AttendanceOncePerDay` and
`Api.UploadWithoutFile`, follow two request sequences a client sends, using
only the routes' contracts:

- A student logs in, marks attendance, and is refused the second time on
  the same day.
- A teacher uploads a material without a file, and the list then shows it
  with no stored file.

Some answers differ from what a client might expect, and the model follows
the code:

- A refused upload file type answers 500, not 400. The code passes the
  filter's error to Express's default error handler. The filter also runs
  before the role check, so a student sending a refused file gets 500, not
  403.
- A second attendance on the same day answers 400, not 409.
- A token that fails verification answers 403 ("Invalid token"), not 401.
  Only a missing token gets 401.
- A status outside `present`/`absent`/`late` is not rejected by the handler.
  It reaches the insert, where the table's CHECK constraint fails, and the
  handler answers 500 ("Database error").

## Model

| member | source | states |
|---|---|---|
| `Strings.Split` | server.js:122 | `split(' ')` yields at least one field, and no field contains the separator |
| `Strings.JoinSplit` | server.js:122 | joining the fields of a split with the separator gives back the header |
| `Strings.SplitJoin` | server.js:122 | splitting the join of separator-free fields gives back those fields |
| `Auth.BearerToken` | server.js:121-122 | the token taken from a header is non-empty, contains no space, and exists only when a header does |
| `Auth.BearerTokenOfHeader` | server.js:122 | in a header `scheme token rest`, the token is the text between the first space and the next one; an empty second field gives no token |
| `Auth.BearerTokenNeedsSpace` | server.js:122-126 | a header without a space carries no token |
| `Auth.Authenticate` | server.js:120-135 | 401 "Access token required" exactly when no token can be extracted; 403 "Invalid token" exactly when a token exists but fails verification; otherwise the verified claims |
| `Auth.MissingTokenIsUnauthenticated` | server.js:121-126 | a bare scheme, or a scheme and a space, is refused with 401 whatever the verifier says |
| `Auth.RejectedTokenIsForbidden` | server.js:128-131 | a well-formed header whose token fails verification is refused with 403, not 401 |
| `Upload.PatternTestFindsInfix` | server.js:106-108 | the unanchored pattern's test succeeds exactly when one of the twelve alternatives occurs anywhere in the text |
| `Upload.Extname` | server.js:107 | the extension is empty or starts with a dot, and contains no further dot or slash |
| `Upload.ExtnameOfFileName` | server.js:107 | a plain file name `stem.e` has extension `.e` |
| `Upload.FileAllowed` | server.js:105-114 | an upload passes exactly when both the lower-cased extension and the MIME type contain an allowed alternative |
| `Upload.UnanchoredExtensionPasses` | server.js:106-107 | an extension starting with an allowed alternative passes, whatever follows it (for example `.docm`); containment anywhere is `FileAllowed`'s ensures |
| `Upload.NoDotNoExtension` | server.js:107 | a name without a dot has an empty extension |
| `Upload.LeadingDotOnly` | server.js:107 | a slash-free name whose only dot is its first character, such as `.pdf`, has an empty extension |
| `Upload.NoExtensionRefused` | server.js:106-112 | an upload with an empty extension is refused whatever its MIME type |
| `Upload.NoDotRefused` | server.js:106-112 | an upload named without a dot, such as `report`, is refused whatever its MIME type |
| `Upload.LeadingDotRefused` | server.js:106-112 | an upload whose only dot leads its name, such as `.pdf`, is refused whatever its MIME type |
| `Query.FirstWhere` | server.js:143 | `db.get` returns a row that satisfies the WHERE clause, and returns none only when no row does |
| `Query.Where` | server.js:245 | the filtered rows are exactly the rows that satisfy the predicate |
| `Query.OrderBy` | server.js:184 | ORDER BY returns a permutation of the rows in an order that the clause allows |
| `Schema.ParseStatus` | server.js:60 | the status CHECK constraint stores exactly `present`, `absent` and `late`, and reads each back as the same text |
| `Schema.StoredStatus` | server.js:281 | a missing or empty status is stored as `present`; a given status is stored exactly when the CHECK constraint admits it |
| `Schema.AppendKeepsOnePerDay` | server.js:266-288 | appending a record keeps at most one record per student and date if and only if no record existed for that student and date |
| `Api.AppendFreshId` | server.js:42-53 | an appended row with the counter's id keeps the ids ascending and is distinct from every existing id |
| `Api.WhereKeepsIds` | server.js:245 | deleting rows keeps the remaining ids ascending and below the counter |
| `Api.FileToRemove` | server.js:232-242 | the file to delete is a non-empty stored path of a row with that id; there is none when no row has the id |
| `Api.FileToRemoveOfRow` | server.js:232-241 | with unique ids, the row that carries the id decides the file: its stored path when that is non-empty, and none otherwise |
| `Api.School.constructor` | server.js:66-89 | a fresh database holds the seven seeded accounts with unique ids and usernames, and no materials or attendance |
| `Api.School.Login` | server.js:140-169 | every failure is the same 401 "Invalid credentials"; a success carries exactly the stored account's id, username, role and name; with unique usernames, login succeeds exactly when an account has that username and a matching password |
| `Api.School.UsernameIdentifiesAccount` | server.js:143 | with unique usernames, a username names at most one account |
| `Api.School.MaterialList` | server.js:179-193 | the list is a permutation of the materials joined with their uploaders' names, newest first |
| `Api.School.MaterialListIsComplete` | server.js:180-185 | every material is listed once with its uploader's name, and nothing else is listed |
| `Api.School.AttendanceList` | server.js:294-324 | a student gets a permutation of their own records, newest date first; a teacher or admin gets a permutation of all records, newest date first and then by student name |
| `Api.School.StudentSeesOnlyOwnRecords` | server.js:297-306 | a student's list holds exactly the records whose student is the caller |
| `Api.School.ReportHasEveryRecord` | server.js:307-316 | the teacher/admin report holds every record once, with the student's name and class |
| `Api.School.StudentList` | server.js:327-342 | students get 403; anyone else gets a permutation of the student accounts, ordered by class and then name |
| `Api.School.StudentListHoldsStudentsOnly` | server.js:333 | the students list holds every student account and no account of another role |
| `Api.School.TodayStatus` | server.js:345-362 | non-students get 403; for a student, `hasAttendance` holds exactly when the caller has a record for today, and the returned record is such a record |
| `Api.School.CreateMaterial` | server.js:196-221 | a refused file type gives 500; then a student gets 403; then a missing or empty title gives 400; each error leaves the table unchanged; a success appends exactly one row with a fresh id, the caller as uploader, and null file fields when no file was sent |
| `Api.School.DeleteMaterial` | server.js:224-252 | students get 403 and nothing changes; otherwise every row with the id is removed and all other rows stay; the file removal attempted is exactly the row's stored path when it is non-empty, and none otherwise; the response is success whether or not any row matched |
| `Api.School.SubmitAttendance` | server.js:257-291 | non-students get 403; an existing record for the caller today gives 400 and no change; a status the CHECK constraint refuses gives 500; otherwise exactly one record is appended with the given status or `present`; at most one record per student and date is kept |

## Left out

- `GET /api/me` is not modelled: it returns the decoded claims unchanged.
- Token signing, verification and the 24-hour expiry are the `verify`
  parameter. The signed token is represented by the claims it carries.
- Password hashing and comparison are the `passwordMatches` parameter.
  Seed accounts take their hashes as constructor parameters.
- Store failures are not modelled: SQLite I/O errors that make a handler
  answer 500 "Database error". The one store-failure 500 that is modelled is
  the status CHECK constraint.
- The constructor models a fresh database. Re-running the seed inserts
  (`INSERT OR IGNORE`) against an existing file is not modelled.
- The clock is parameters: `today` is the UTC date the handlers compute, and
  `now` is the `created_at` default.
- File storage is not modelled:
  - where the upload middleware writes files and how it names them;
  - its 50 MB limit;
  - creating the uploads directory;
  - files left stored when a request fails after the upload.
  Deleting a file is modelled only as the path `DeleteMaterial` returns, so
  that the failure of the deletion cannot reach the response.
- The refused-file-type 500 carries Express's default error page, not a JSON
  body. Its content (the error's text outside production mode, a generic
  text in production) is not modelled; `FileTypeNotAllowed` gives only the
  status and the error's own message.
- `Upload.Extname` is the POSIX `path.extname`: the server is assumed to run
  on a POSIX system. On Windows a backslash would also separate components.
- `Upload.FileAllowed` lower-cases only the letters A to Z. Characters whose
  JavaScript lower-case form differs in other ways are compared as given.
- `Api.School.DeleteMaterial` takes the route parameter as an integer.
  SQLite's conversion of the URL text to the integer column is not modelled.
- Request bodies are modelled as optional strings. JSON values of other types,
  repeated multipart fields, and a login body without a username or password
  are not modelled.
- `Api.School.Login` states the exact success condition only for tables with
  unique usernames, which the schema and the invariant guarantee.
- Requests are sequential. The check-then-insert race between two concurrent
  attendance submissions is a concurrency effect outside this model.
- Express routing, CORS, static file serving and the listening server are
  not modelled.
- The browser dashboard (`dashboard.js`) is not part of this model.
