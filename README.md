# Attendance registry and face-embedding login, modelled in Dafny

This project models the two stateful pieces of logic in an attendance web
application and its face-recognition prototype, and proves what they do.

- **The attendance registry** (`app.py`) has two tables, admins and
  students. Each admin row carries a `session_active` flag and each student
  row an `is_logged_in` flag. The route handlers are transitions over these
  tables, guarded by the id stored in the web session:
  - `register_admin` and `register_student` add a row, refusing duplicates;
  - `login_student` and `logout` set or clear one student's flag;
  - `start_session` and `end_session` set or clear one admin's flag, and
    `end_session` also logs every student out;
  - `active_students` and `download_attendance` list the logged-in students
    ordered by `student_id`.

  Each handler is a pure step function over a `Db` value in module
  `Attendance`, with its frame and error cases in its contract and its
  properties proved as lemmas. Class `Attendance.Registry` holds the two
  tables as mutable sequences. Each of its methods is proved to perform
  exactly the corresponding step. `EndSession` clears the student flags with
  a loop that rewrites the table row by row.
- **The BSSID extraction** of `get_wifi_bssid` (`app.py`, module
  `WifiBssid`) is a leftmost regular-expression search with a capture group.
  It is computed by a scanner and proved equal to the declarative meaning of
  each platform's pattern.
- **The face-embedding store** (`facerectest.py`, module `FaceRecognition`)
  is an insertion-ordered dictionary from user id to embedding. Login scans
  it for the strictly best similarity and accepts above 0.7. The loop is a
  method with its invariant. Class `FaceStore` holds the store and updates it
  in place.

Supporting modules:
- `Wrappers` defines `Option`.
- `Query` defines `First`, the first row satisfying a filter. It stands for
  `query.filter(...).first()` and for dictionary key lookup.
- `Collation` defines the text order SQLite's default BINARY collation uses
  for `ORDER BY` (lexicographic by code point). It proves that this order is
  total.

Inputs and collaborators that the code obtains from outside are parameters:
- the session's admin id or student id, as an `Option`;
- the stored password hash of a new row;
- the password check `checkPassword(hash, password)`;
- the platform name and the wireless tool's output text;
- the key pressed, the detected boxes, the embedding network `embed` and
  the similarity score `similarity(probe, stored)`.

## Model

| member | source | states |
|---|---|---|
| Query.First | app.py:82-84 | the index returned satisfies the filter and no earlier row does; `None` exactly when no row satisfies it |
| Query.FirstAgrees | app.py:238 | two tables that agree row by row on a filter give the same first match, so flipping a flag the filter does not read moves no lookup |
| Collation.LeReflexive | app.py:157 | every text is ordered before or equal to itself |
| Collation.LeTotal | app.py:157 | any two texts are ordered one way or the other |
| Collation.LeTransitive | app.py:157 | the text order is transitive |
| Collation.LeAntisymmetric | app.py:157 | texts ordered both ways are equal |
| Attendance.AdminClash | app.py:82-84 | an admin is found exactly when some admin has the given `idname` or the given `username` |
| Attendance.StudentClash | app.py:183-185 | a student is found exactly when some student has the given `student_id` or the given `username` |
| Attendance.LoggedOutAll | app.py:149 | the bulk update: the same rows, in the same order, with their ids, usernames and hashes kept and every `is_logged_in` false |
| Attendance.RegisterAdminStep | app.py:69-99 | a wrong secret key (anything but "69420") is refused first; then a clash on `idname` or `username` with any admin is refused; a refusal changes nothing; otherwise exactly one admin is appended, with the next id and `session_active` false; uniqueness and the id numbering are preserved |
| Attendance.RegisterStudentStep | app.py:175-200 | refused, with nothing changed, exactly when some student has the same `student_id` or the same `username`; otherwise exactly one logged-out student is appended; uniqueness is preserved |
| Attendance.LoginAdmin | app.py:106-117 | an id is stored in the session only for an admin with that username whose password check passes |
| Attendance.LoginAdminExactly | app.py:111-113 | on unique usernames, login succeeds exactly when some admin has the username and passes the check |
| Attendance.LoginStudentStep | app.py:206-220 | a failed lookup or check changes nothing; a success stores the found student's `student_id` in the session and sets that student's `is_logged_in` and no other row |
| Attendance.LoginStudentExactly | app.py:211-213 | on unique usernames, login succeeds exactly when some student has the username and passes the check |
| Attendance.LoginThenActive | app.py:211-215 | after a successful login the student is in the active list |
| Attendance.LogoutStep | app.py:236-243 | no session student, or none with the session's `student_id`, means nothing changes; otherwise the row the lookup finds is logged out, and only a row with that `student_id` may change, and only to logged out; admins never change; uniqueness is preserved |
| Attendance.LogoutThenInactive | app.py:237-241 | after logout the session student is in no row of the active list |
| Attendance.LogoutIdempotent | app.py:236-243 | logging out twice leaves the same tables as logging out once |
| Attendance.StartSessionStep | app.py:134-140 | no admin in the session gives a 403 and no change; an admin id with no row gives a server error and no change; otherwise exactly that admin's `session_active` is set and nothing else changes |
| Attendance.EndSessionStep | app.py:143-153 | the same guards as `start_session`; success clears exactly that admin's `session_active` and sets every student's `is_logged_in` to false, changing nothing else |
| Attendance.EndSessionClearsAttendance | app.py:149-153 | after a successful `end_session` the active list is empty |
| Attendance.SessionStepsTouchOneAdmin | app.py:136-146 | an admin other than the session's is left unchanged by both session handlers |
| Attendance.LoggedInRows | app.py:157-158 | a projected row is listed exactly when some logged-in student has it |
| Attendance.InsertById | app.py:157 | inserting into a list sorted by `student_id` keeps it sorted and adds exactly that row |
| Attendance.SortById | app.py:157 | the result is sorted by `student_id` and is a permutation of the input |
| Attendance.ActiveStudents | app.py:156-159 | the result is sorted by `student_id` and is a permutation of the logged-in students' projected rows |
| Attendance.ActiveStudentsMembers | app.py:157-158 | a row is in the active list exactly when some logged-in student projects to it |
| Attendance.LoggedInRowsDistinct | app.py:34 | the logged-in rows carry distinct `student_id`s when the table's ids are unique |
| Attendance.ActiveStudentsStrictlySorted | app.py:157 | on unique ids the active list is strictly increasing by `student_id` |
| Attendance.StrictlySortedUnique | app.py:157 | two strictly sorted lists with the same members are equal |
| Attendance.ActiveStudentsDetermined | app.py:155-159 | any strictly sorted list holding exactly the logged-in students' rows is the active list, so the order the database returns is fixed |
| Attendance.AttendanceCsv | app.py:162-170 | defined as the header `Student ID, Username` followed by one row per active student, in the active list's order |
| Attendance.Registry.constructor | app.py:39-41 | both tables start empty and well formed |
| Attendance.Registry.RegisterAdmin | app.py:69-99 | updates the tables in place exactly as `RegisterAdminStep`, with its reply |
| Attendance.Registry.RegisterStudent | app.py:175-200 | updates the tables in place exactly as `RegisterStudentStep`, with its reply |
| Attendance.Registry.LoginStudent | app.py:206-220 | updates the tables in place exactly as `LoginStudentStep` and returns the id to store in the session |
| Attendance.Registry.Logout | app.py:236-243 | updates the tables in place exactly as `LogoutStep` |
| Attendance.Registry.StartSession | app.py:134-140 | updates the tables in place exactly as `StartSessionStep`, with its reply |
| Attendance.Registry.EndSession | app.py:143-153 | updates the tables in place exactly as `EndSessionStep`; the student table is logged out row by row |
| WifiBssid.Span | app.py:51 | the run counted lies inside the text, every character in it is in the class, and it stops at the end or at a character outside the class |
| WifiBssid.SpanExact | app.py:51 | a run in the class that ends at the text's end or at a character outside the class is the span |
| WifiBssid.IsSpace | app.py:51 | defined as the characters Python's `\s` matches in a text pattern (those `str.isspace()` accepts): tab to carriage return, the separators U+001C to U+001F, space, U+0085, U+00A0, U+1680, U+2000 to U+200A, U+2028, U+2029, U+202F, U+205F and U+3000 |
| WifiBssid.GroupAt | app.py:51-54 | the greedy group `(...+)`: a non-empty text made only of characters of the class |
| WifiBssid.UnixMatchAt | app.py:54 | defined as `Access Point: ([0-9A-Fa-f:]+)` tried at one position: the label, then the greedy group of `[0-9A-Fa-f:]`; its meaning is proved in `UnixMatchAtIsPattern` |
| WifiBssid.WindowsMatchAt | app.py:51 | defined as `BSSID\s*:\s*([0-9A-Fa-f:-]+)` tried at one position: the label, greedy whitespace, a colon, greedy whitespace, then the greedy group of `[0-9A-Fa-f:-]`; its meaning is proved in `WindowsMatchAtIsPattern` |
| WifiBssid.MatchAt | app.py:49-54 | defined as the Windows pattern when the platform is "Windows" and the `Access Point: ` pattern otherwise, with no match past the end of the text |
| WifiBssid.UnixMatchAtIsPattern | app.py:54 | the scanner matches at a position with group `g` exactly when `Access Point: ` starts there followed by `g`, a non-empty maximal run of `[0-9A-Fa-f:]` |
| WifiBssid.BssidCharIsNotSpace | app.py:51 | no character of `[0-9A-Fa-f:-]` counts as whitespace, so the optional whitespace cannot swallow part of the group |
| WifiBssid.WindowsPatternIsMatch | app.py:51 | every way of reading `BSSID\s*:\s*(...)` at a position gives the scanner's group |
| WifiBssid.WindowsMatchIsPattern | app.py:51 | a scanner match is a reading of the Windows pattern |
| WifiBssid.WindowsMatchAtIsPattern | app.py:51 | the scanner matches at a position with group `g` exactly when `BSSID`, whitespace, `:`, whitespace and then `g` occur there, `g` being a non-empty maximal run of `[0-9A-Fa-f:-]` |
| WifiBssid.MatchAtIsPattern | app.py:49-54 | the platform chooses the pattern: the Windows pattern when the platform is "Windows", the `Access Point: ` pattern otherwise |
| WifiBssid.Leftmost | app.py:51 | the search finds nothing only when no position matches, and otherwise returns the group at the first matching position |
| WifiBssid.NoMatchAnywhere | app.py:56 | a failed search means no position of the output matches |
| WifiBssid.FirstMatchFound | app.py:56 | a successful search returns the group at the leftmost matching position |
| WifiBssid.GroupIsNotFallback | app.py:56 | a captured group is never the fallback text, so the fallback is unambiguous |
| WifiBssid.GetWifiBssid | app.py:44-56 | the result is "BSSID not found" exactly when no position matches; otherwise it is the group at the leftmost matching position |
| WifiBssid.GetWifiBssidIsLeftmostMatch | app.py:49-56 | the same result, stated through the patterns' declarative meaning |
| FaceRecognition.Ids | facerectest.py:96 | defined as the keys, one per entry, in the dictionary's iteration order |
| FaceRecognition.Lookup | facerectest.py:54-56 | a user id has an embedding exactly when some entry has that key |
| FaceRecognition.Put | facerectest.py:54-58 | an existing key keeps its position and now holds the new embedding; the other keys keep their values and positions; a new key is appended at the end; keys stay unique |
| FaceRecognition.PutLookup | facerectest.py:56 | after registering, the id gives the new embedding and every other id gives what it gave before |
| FaceRecognition.SelectFace | facerectest.py:45-46 | defined as: a capture happens exactly on key 32 with at least one box detected, and it uses the first box |
| FaceRecognition.ExtraFacesIgnored | facerectest.py:82-83 | further boxes neither block nor change a capture |
| FaceRecognition.IsBestMatch | facerectest.py:94-100 | defined as what the login loop leaves: a score bounding every entry's score; with no user matched the score is -1; otherwise it is above -1 and is the score of the matched user, the earliest entry reaching it |
| FaceRecognition.BestMatch | facerectest.py:94-100 | the loop leaves a score that bounds every entry's score; with no user matched it is -1, otherwise it is above -1 and is the score of the matched user, the earliest entry reaching it |
| FaceRecognition.BestMatchDeterministic | facerectest.py:94-100 | the score and user the loop leaves are determined by the store and the scores |
| FaceRecognition.BestMatchIsMaximum | facerectest.py:94-100 | for a non-empty store with scores of at least -1, the final score is the score of some entry, hence the maximum |
| FaceRecognition.TieGoesToEarliest | facerectest.py:98-100 | a later entry with the same top score is not the one matched |
| FaceRecognition.EmptyStoreMatchesNobody | facerectest.py:94-95 | an empty store leaves no user matched and the score -1 |
| FaceRecognition.LoginUser | facerectest.py:94-105 | welcome exactly when some entry scores strictly above 0.7, so a top score of exactly 0.7 fails; a welcome names the best match with its score |
| FaceRecognition.FaceStore.constructor | facerectest.py:18-20 | the store starts empty |
| FaceRecognition.FaceStore.Register | facerectest.py:54-58 | updates the dictionary in place exactly as `Put` |
| FaceRecognition.FaceStore.RegisterFrame | facerectest.py:38-60 | one pass of the registration loop: captures exactly when `SelectFace` does, and then registers the first box's embedding; otherwise changes nothing |
| FaceRecognition.FaceStore.LoginFrame | facerectest.py:75-106 | one pass of the login loop: decides exactly when a face is captured, with the outcome of `LoginUser` on the first box's embedding |

## Left out

- Web framework: Flask routing, templates, `flash` and `redirect` are left out, as is the session cookie. The session's content is a parameter, and clearing the session in `logout` (app.py:243) is the caller's step.
- Persistence: SQLAlchemy, the SQLite binds and transactions are left out. The tables are in-memory sequences, and a handler's writes happen all at once.
- Password hashing: bcrypt is a foreign library. A new row receives its hash as an input, and the check is an uninterpreted parameter.
- Attendance.RegisterAdminStep, Attendance.RegisterStudentStep: hashing is assumed to succeed. bcrypt refuses an empty password with an error, and the request then ends in a server error with no row added; the model instead registers the row.
- Attendance.RegisterAdminStep, Attendance.RegisterStudentStep: requests are modelled one at a time. Under a threaded server two registrations can both pass the duplicate check (app.py:82-88, 183-189) before either commits; the unique constraint then makes the second commit fail. That race is not modelled.
- `get_wifi_bssid`: the `platform` and `subprocess` calls are left out, as is the exception path returning `str(e)` (app.py:45-58). The platform name and the tool's output are inputs.
- `download_attendance`: writing `attendance.csv` to disk and `send_file` are not modelled. Only the rows written are.
- `index`, `admin_dashboard` and `student_dashboard` only render pages and are not modelled. The student list `admin_dashboard` shows is the same query as `ActiveStudents` (app.py:129).
- The student table's integer `id` column is never read by the code and is not modelled.
- Admin ids are modelled as row numbers 1, 2, ... SQLite assigns them that way to a table that is never deleted from.
- `start_session` and `end_session` with a session admin id that has no row: the code fails dereferencing `None` before committing. The model replies `ServerError` and changes nothing.
- The face prototype's hardware and models are foreign code with floating-point numerics, so they are parameters, not code: the camera capture loop, `cv2` drawing and window handling, YOLO detection, the FaceNet embedding and `cosine_similarity` (facerectest.py:23-26, 30-52, 67-89). Scores are exact reals.
- The `while True` capture loops of `register_user` and `login_user` are modelled one frame at a time (`RegisterFrame`, `LoginFrame`). A frame is discarded when the camera read fails (facerectest.py:35-36), and this is not modelled.
- Loading and saving `embeddings.pkl`, the printed messages and the interactive `input()` menu (facerectest.py:111-124) are I/O and are left out.
- `static/app.js` is browser code and is not part of this model.
- FaceRecognition.BestMatchIsMaximum: requires every score to be at least -1, as cosine similarities are. If every score were below -1, the loop would keep -1, which is not any entry's score.
- The code has no rooms, activity windows, heartbeats, durations or attendance ledger. The model has none either.
- `login_student` does not consult any admin's `session_active` flag or the BSSID (app.py:206-215). The model follows the code in this.
