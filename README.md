# Test-session backend: a Dafny model

This project models the server side of a proctored-test class manager built on
Cloud Functions, Firestore and Cloud Storage. A teacher holds a bearer token
(`teacherId`) that a checksum guards. The teacher creates a class, and students
join it anonymously. During the test each student reports an `ok` status,
optionally with a note. The teacher polls for notes not yet delivered and
watches a WebSocket for "not OK" alerts. Once a test has been over for a day, a
daily sweep deletes the class together with its stored PDF files.

The model has these modules:

- `Common` has the JavaScript values a request body can carry (`Value`), replies (`Reply`) and the string helpers: `split`, decimal digits and zero padding.
- `Validations` models `functions/utils/validations.js`, the token checksum.
- `Firestore` models the store. The `Db` class holds the `classes` collection, the `students` subcollections (with their `Notes`) and the storage bucket. The module also models `getClassById`/`verifyTeacher` from `functions/utils/firestore.js`, folder deletion from `functions/utils/storage.js`, and the helpers about notes that the class and teacher handlers share.
- `Teacher`, `Classes` and `Students` model the HTTP handlers of `functions/teacher.js`, `functions/classes.js` and `functions/students.js`. Each handler is a module-level method that takes the store `db: Db` as a parameter and has one `ensures` per reply it can send.
- `Schedule` models `functions/schedule.js`: the date arithmetic of `new Date(y, m, d, h, min)`, the expiry test and the sweep.
- `Socket` models `functions/socket.js`: the `classClients` registry as a class, its connection and close handlers, and the Firestore trigger that notifies teachers.

Throughout, `Db.Valid()` is the store invariant that every writer in the model preserves:

- no class has the empty id;
- no stored `teacherId` is empty, because `createNewClass` only stores a token that passes `verifyTeacherId` and `editClass` never rewrites it.

The two bulk deletions require `Valid()`. `deleteClassesByTeacher` forwards the id it was given to `deleteClass`, and the sweep forwards each class's stored `teacherId`. For the sweep's calls to be accepted, no stored `teacherId` may be empty. For a bulk deletion never to touch a class with the empty id, "" must not be a class id.

The store's auto-ids for new classes, students and notes are inputs to the model. A precondition says that each chosen id is fresh. The `uuidv4` disconnect id is an input too, with no condition on it: nothing in the code relies on it being unique.

As in the code, time is a number of milliseconds and is likewise an input.

The model keeps these behaviours of the code as written:

- A token whose first fifteen characters are not all digits has the checksum `"00NaN"`, so such a token verifies when its last five characters are `00NaN` (`Validations.NonDigitTokenVerifiesIff`).
- The sweep is scheduled "every 24 hours"; its doc comment says every 5 minutes.
- Deleting a class removes the files under `pdfs/<classId>/`, while uploads are stored under `uploads/<classId>/` (`Firestore.UploadsSurvivePdfRemoval`).
- Deleting a class does not delete its `students` subcollection. The model keeps `students` as a separate map that deletion leaves unchanged.
- The class form checks only the types of the two durations. A test whose end then falls outside the range of a JavaScript `Date` (more than 8.64e15 ms from the epoch) has an Invalid end date, and the sweep never deletes it (`Schedule.HugeNegativeDurationNeverDue`).
- `classClients` is a plain object. A class id such as `constructor` names a property every object inherits, so the connection handler throws and registers nothing (`Socket.Registry.OnConnection`).

## Model

| member | source | states |
|---|---|---|
| Common.Split | functions/schedule.js:26-27 | `split` on one character: joining the parts back with the separator gives the input, and no part contains the separator |
| Common.NatToString | functions/utils/validations.js:12 | `toString()` of a non-negative integer is a non-empty digit string whose value is that integer, with no leading zero |
| Common.PadStartZeros | functions/utils/validations.js:12 | `padStart(width, "0")` gives `width` characters, or the string itself when it is already that long |
| Common.PadStartZerosParts | functions/utils/validations.js:12 | the padded string is zeros in front of the string unchanged |
| Validations.ParseDigit | functions/utils/validations.js:11 | `parseInt(c, 10)` of one character is finite exactly for a decimal digit, and then it is that digit's value |
| Validations.AddNaN | functions/utils/validations.js:11 | `+` on numbers: NaN absorbs, and otherwise it is the integer sum |
| Validations.DigitSum | functions/utils/validations.js:9-11 | the reduce is finite exactly when every character is a digit, and then it is at most 9 per character |
| Validations.CalculateChecksum | functions/utils/validations.js:8-13 | the checksum is always five characters long |
| Validations.VerifyTeacherId | functions/utils/validations.js:21-30 | only 20-character tokens verify |
| Validations.MintVerifies | functions/utils/validations.js:21-30 | round trip: ten characters, then five, then their checksum, always verify, whatever the characters are |
| Validations.VerifiedIffMinted | functions/utils/validations.js:21-30 | a token verifies if and only if it is 20 characters long and equals the mint of its own first ten and next five characters |
| Validations.DigitChecksumRange | functions/utils/validations.js:8-13 | for up to fifteen digits the sum is at most 135, the modulo never changes it, and the checksum is "00" followed by digits whose value is the sum |
| Validations.DigitChecksumInjective | functions/utils/validations.js:8-13 | for digit strings, equal checksums mean equal digit sums |
| Validations.DigitSumConcat | functions/utils/validations.js:9-11 | the digit sum of a concatenation is the NaN-absorbing sum of the parts' sums |
| Validations.DigitSumAt | functions/utils/validations.js:9-11 | the sum is any one character's value plus the sum of the rest |
| Validations.DigitSumPermutation | functions/utils/validations.js:9-11 | reordering the characters does not change the digit sum |
| Validations.PermutedPrefixStaysValid | functions/utils/validations.js:21-30 | any reordering of a valid token's first fifteen characters keeps it valid (the checksum ignores order) |
| Validations.DigitChangeInvalidates | functions/utils/validations.js:21-30 | changing one digit of an all-digit prefix to another digit makes a valid token invalid |
| Validations.OneDigitApart | functions/utils/validations.js:9-11 | two digit strings that differ in exactly one position have different digit sums |
| Validations.ChecksumChangeInvalidates | functions/utils/validations.js:26-29 | changing any checksum character makes a valid token invalid |
| Validations.NonDigitChecksum | functions/utils/validations.js:8-13 | any non-digit character gives the checksum "00NaN" |
| Validations.NonDigitTokenVerifiesIff | functions/utils/validations.js:21-30 | a 20-character token with a non-digit in its first fifteen characters verifies if and only if it ends in "00NaN" |
| Validations.DigitPrefixNeverNaN | functions/utils/validations.js:21-30 | an all-digit prefix never has the checksum "00NaN" |
| Firestore.RosterOf | functions/students.js:82-83 | a class without a students subcollection has an empty roster |
| Firestore.FinishedStaysTransitive | functions/students.js:154-156 | "a finished student stays finished" composes over consecutive writes |
| Firestore.GetClassById | functions/utils/firestore.js:3-7 | the document is present exactly when the id is in the collection, and then it is the stored one |
| Firestore.VerifyTeacher | functions/utils/firestore.js:9-17 | absent class throws "Class not found"; a different owner throws "Permission denied"; nothing is thrown if and only if the class exists and its teacherId is the caller's |
| Firestore.Refuse | functions/teacher.js:24-32 | "Class not found" becomes a 404 and "Permission denied" a 403 |
| Firestore.OwnershipIsPlainEquality | functions/utils/firestore.js:14-16 | ownership compares strings only: a token that does not verify still owns a class that stores it |
| Firestore.PdfFolderParts | functions/teacher.js:34 | the folder is `pdfs/`, the class id, then a slash, so the class id can be read back from it |
| Firestore.RemoveFolder | functions/utils/storage.js:9-15 | exactly the files under the prefix leave the bucket, and the rest keep their contents |
| Firestore.DeleteFilesInFolder | functions/utils/storage.js:9-15 | on success the bucket loses the folder; on a storage error it reports failure and is unchanged |
| Firestore.UploadsSurvivePdfRemoval | functions/teacher.js:34 | removing `pdfs/<id>/` leaves every file under `uploads/<other>/` |
| Firestore.RemovePdfFolders | functions/teacher.js:71-84 | removing the pdf folders of a set of classes keeps exactly the files outside all of them |
| Firestore.RemoveOneMorePdfFolder | functions/teacher.js:71-84 | removing folders one class at a time equals removing the folders of the whole set |
| Firestore.RemoveNoPdfFolder | functions/teacher.js:71-84 | removing no folder leaves the bucket as it is |
| Firestore.Snapshot | functions/teacher.js:163 | a query snapshot lists each document id of the collection exactly once |
| Firestore.MarkDelivered | functions/teacher.js:184 | every note of every student is marked as delivered to the teacher; students, student documents and note contents are kept |
| Firestore.MarkDeliveredChangesOnlyPending | functions/teacher.js:177-185 | a note is unchanged by the mark unless it was pending, and then only its delivered flag changes |
| Firestore.NothingPendingAfterMark | functions/teacher.js:175-186 | after the mark, no note is left to collect |
| Firestore.GatherStudent | functions/teacher.js:168-186 | the notes of one student: each wanted note exactly once, with its student's details, and no other |
| Firestore.Gather | functions/teacher.js:163-189 | the notes of the whole roster: each wanted note (pending only, or all) exactly once, and no other |
| Firestore.InsertNewestFirst | functions/teacher.js:191-192 | inserting into a newest-first list keeps it newest-first, and the result is that list plus the entry, as a multiset |
| Firestore.ConsNewestFirst | functions/teacher.js:191-192 | an entry no older than the head of a newest-first list can be put in front of it |
| Firestore.SortNewestFirst | functions/teacher.js:191-192 | the sort by descending timestamp is ordered and a permutation of its input |
| Teacher.ClassesOf | functions/teacher.js:64-65 | the query `where("teacherId", "==", id)` returns exactly the stored classes with that teacherId |
| Teacher.DeleteClass | functions/teacher.js:15-42 | 400 / 404 / 403 with the store unchanged; a storage failure gives 500 and deletes nothing; otherwise the class document and its pdf folder are gone and nothing else changes |
| Teacher.DeleteOwnedClass | functions/teacher.js:71-82 | one call of the bulk deletion on an owned class: the class and its pdfs go unless storage fails |
| Teacher.DeleteEach | functions/teacher.js:71-84 | every listed owned class whose storage delete succeeds is deleted with its pdfs; the ones that fail stay |
| Teacher.DeleteClassesByTeacher | functions/teacher.js:55-90 | 400 for an empty id; 404 when the teacher owns nothing; otherwise 200, even when some deletions failed, and exactly the owned classes whose storage delete succeeded are gone |
| Teacher.GetClassesById | functions/teacher.js:102-127 | 400 for an empty or invalid token; otherwise exactly the classes stored with that teacherId, each once, with its document |
| Teacher.GetNewUpdates | functions/teacher.js:139-200 | 400 / 404 / 403 with nothing written; otherwise every pending note of the class, newest first, and afterwards every note of the class is delivered, and finished students stay finished |
| Teacher.FetchTwice | functions/teacher.js:175-186 | a second poll right after the first returns no notes |
| Classes.FormComplete | functions/classes.js:30-40 | the required-fields check of the class form (its properties are the two rows below) |
| Classes.DurationNotRangeChecked | functions/classes.js:35-36 | any integer duration, zero or negative, passes the duration checks |
| Classes.FormRejections | functions/classes.js:30-40 | an empty name, a non-boolean openMaterial or a non-number duration each make the form incomplete |
| Classes.NewClassDoc | functions/classes.js:48-58 | the new document carries the six form fields, the caller's teacherId, the disconnect id and the creation time, and no update time |
| Classes.CreateNewClass | functions/classes.js:20-71 | 400 "All fields are required." / 400 "Invalid teacherId." with nothing written; otherwise the new class and its disconnect id are returned and exactly that document is added |
| Classes.PublicDetails | functions/classes.js:97-99 | the reply without teacherId and disconnectId: putting the two back recovers the stored document |
| Classes.PublicDetailsDropsOnlySecrets | functions/classes.js:97-99 | the reply to a joining student omits teacherId and disconnectId, and two documents with the same reply differ at most in those two fields |
| Classes.NewStudent | functions/classes.js:101-106 | a joined student has the given names and email, its creation time, no status, is not finished and has no notes |
| Classes.JoinClass | functions/classes.js:81-121 | 400 for a missing field; an unknown class gives 200 `success: false` and nothing is written; otherwise the new student is added under its fresh id and the reply holds the public details |
| Classes.GetClassDetails | functions/classes.js:132-149 | 400 for an empty id, 404 for an unknown one, otherwise the stored document, including the disconnect id and the teacherId |
| Classes.GetClassComments | functions/classes.js:155-200 | 400 for an empty id; 404 when the class has no students (an unknown class included); otherwise every note of every student, newest first, without writing anything |
| Classes.Edited | functions/classes.js:249-259 | editing sets the six form fields and the update time and keeps the owner, the disconnect id and the creation time |
| Classes.EditedIdempotent | functions/classes.js:249-259 | applying the same form again changes only the update time |
| Classes.EditClass | functions/classes.js:210-274 | 400 / 400 / 400 / 404 / 403, each with nothing written; otherwise the edited document is stored and returned |
| Students.EchoedNote | functions/students.js:109 | `statusNote \|\| null` echoes a truthy note and gives null otherwise |
| Students.WithStatus | functions/students.js:92-103 | only `ok` changes on the student document; a note is added exactly when statusNote is truthy |
| Students.SetStudentStatus | functions/students.js:73-117 | 400 when classId, studentId or `ok` is missing (`false` and `null` are accepted); 404 for an unknown student; otherwise the status update; the class itself is never checked |
| Students.Finished | functions/students.js:154-156 | disconnecting sets "Finished test" and keeps everything else |
| Students.FinishedIdempotent | functions/students.js:154-156 | a finished student is finished, and disconnecting again changes nothing |
| Students.DisconnectClass | functions/students.js:124-167 | 400 for a missing field; then `success: false` for an unknown class, a wrong disconnect id or an unknown student, in that order, with nothing written; otherwise the student is finished |
| Students.ListConnected | functions/students.js:199-204 | the `forEach` lists exactly the students whose "Finished test" is not true, each once, with their documents |
| Students.GetConnectedStudents | functions/students.js:174-213 | 400 / 400 / 404 / 403; otherwise exactly the students whose "Finished test" is not true, each once, with their documents |
| Schedule.DaysFromCivil | functions/schedule.js:29-30 | the day number of a date counted from 1970-01-01: non-negative from 1 January 1970 on, negative before |
| Schedule.ShiftedYearStartGrows | functions/schedule.js:29-30 | every year of the calendar has at least 365 days |
| Schedule.ShiftedYearLength | functions/schedule.js:29-30 | a year of the civil calendar has 365 days, or 366 when it is a leap year |
| Schedule.LeapByCycle | functions/schedule.js:29-30 | the Gregorian leap-year rule repeats every 400 years |
| Schedule.EpochDay | functions/schedule.js:29-30 | the closed-form day count of 1 January 1970 is 0 |
| Schedule.NextMonth | functions/schedule.js:29-30 | the day number of the first of the next month is that of this month plus its length |
| Schedule.DaysFromCivilCounts | functions/schedule.js:29-30 | the closed-form day count of the first of every month, before or after 1970, agrees with counting month by month from 1 January 1970 |
| Schedule.FullYear | functions/schedule.js:29 | the two-argument-or-more `Date` constructor maps years 0 to 99 to 1900 to 1999 |
| Schedule.TimeClip | functions/schedule.js:29-33 | a time value more than 8.64e15 ms from the epoch is an Invalid Date, and any other is kept |
| Schedule.MakeDate | functions/schedule.js:29-30 | `new Date(y, m, d, h, min)` is a whole number of minutes within the Date range, or an Invalid Date |
| Schedule.MakeDateParts | functions/schedule.js:29-30 | for an in-range hour and minute, the date falls on the day its fields name, at that time of day |
| Schedule.MonthOverflow | functions/schedule.js:29-30 | a month index of 12 rolls over into January of the next year, and one of -1 into December of the previous year |
| Schedule.ParseField | functions/schedule.js:26-30 | a date or time part is a number exactly when it exists and consists of digits, and then it is its decimal value |
| Schedule.SplitDate | functions/schedule.js:26 | "Y-M-D" with digit fields splits into its three fields |
| Schedule.SplitTime | functions/schedule.js:27 | "H:M" with digit fields splits into its two fields |
| Schedule.TestStart | functions/schedule.js:26-30 | the start is a whole minute within the Date range; a date with fewer than three `-` fields or a time with fewer than two `:` fields is an Invalid Date |
| Schedule.StartFromFields | functions/schedule.js:29-30 | digit parts give the start as `new Date(year, month - 1, day, hour, minute)` |
| Schedule.TestStartFromFields | functions/schedule.js:26-30 | a well-formed test date and start time give the start as `new Date(year, month - 1, day, hour, minute)` |
| Schedule.TestEnd | functions/schedule.js:31-33 | an Invalid start gives an Invalid end, and a valid end is within the Date range |
| Schedule.EndFromStart | functions/schedule.js:31-33 | the end is the start plus the duration in milliseconds when that is within the Date range, and an Invalid Date otherwise |
| Schedule.ClippedEndNeverDue | functions/schedule.js:31-39 | a class whose end falls outside the Date range is never due |
| Schedule.HugeNegativeDurationNeverDue | functions/schedule.js:31-39 | a test with a duration of minus three billion hours has an Invalid end and is never due |
| Schedule.IsExpired | functions/schedule.js:37-39 | `testEndDateTime <= cutoff`: a class whose start is an Invalid Date is never due |
| Schedule.ExpiredIff | functions/schedule.js:15-39 | a class is due exactly when its end time is a valid Date (within range) and at least 24 hours in the past, with the boundary included |
| Schedule.ExpiryMonotone | functions/schedule.js:15-39 | once due, a class stays due |
| Schedule.WorkedExample | functions/schedule.js:26-39 | a 90-minute test starting 2024-01-01 09:00 ends at 1704105000000; it is due two days later but not 10 hours after its end |
| Schedule.SelectedForDeletion | functions/schedule.js:24-44 | the sweep picks exactly the stored classes that are due |
| Schedule.SelectionGrows | functions/schedule.js:15-39 | a later sweep over the same classes picks a superset |
| Schedule.CallDeleteClassFunction | functions/schedule.js:58-72 | the forwarded `deleteClass` deletes the class and its pdfs unless storage fails, and its reply is discarded |
| Schedule.CollectExpired | functions/schedule.js:24-44 | one delete call per due class, each with the class's stored teacherId, and no other calls |
| Schedule.RunDelete | functions/schedule.js:41-42 | one forwarded deletion extends the set of deleted classes by that class unless storage fails |
| Schedule.RunDeletes | functions/schedule.js:46 | all the delete calls together remove exactly the called classes whose storage delete succeeded |
| Schedule.ScheduledClassCleanup | functions/schedule.js:12-47 | every due class gets one call with its own teacherId, and no other class does; exactly the due classes whose storage delete succeeded are gone with their pdfs; students are untouched |
| Socket.ClassIdFromUrl | functions/socket.js:15 | the class id is the second `/`-segment of the url, or "undefined" when there is none |
| Socket.ClassIdIsFirstSegment | functions/socket.js:15 | "/id" and "/id/rest" register under `id` |
| Socket.NoSlashIsUndefined | functions/socket.js:15 | a url without a slash registers under "undefined" |
| Socket.Without | functions/socket.js:26-27 | the filter keeps exactly the other sockets |
| Socket.WithoutConcat | functions/socket.js:26-27 | the filter keeps order: it distributes over concatenation |
| Socket.WithoutAbsent | functions/socket.js:26-27 | closing a socket that is not registered changes nothing |
| Socket.WithoutIdempotent | functions/socket.js:26-27 | closing twice is closing once |
| Socket.OpenOnly | functions/socket.js:50-51 | the sockets notified are exactly the registered ones that are open |
| Socket.OpenOnlySnoc | functions/socket.js:50-51 | the open sockets of a list extended by one socket are those of the list, plus that socket when it is open |
| Socket.Registry.constructor | functions/socket.js:8 | the registry starts empty |
| Socket.Registry.OnConnection | functions/socket.js:14-19 | the socket is appended to its class's list, which is created if missing, and other classes are unchanged; a class id naming an inherited property registers nothing |
| Socket.Registry.OnClose | functions/socket.js:25-28 | the socket leaves its class's list, the others stay in order, and other classes are unchanged |
| Socket.Registry.NotifyTeacherOnStatusChange | functions/socket.js:42-65 | nothing is sent unless the new `ok` is exactly `false`; otherwise each open socket of the class, in order, gets the "not OK" payload with the student id |
| Socket.NotifiedAreOpenClients | functions/socket.js:48-51 | a socket is notified if and only if it is registered under the class and open |

## Left out

- HTTP method checks (405), CORS, the `functions.https.onRequest` wrapping, the WebSocket server and its upgrade handler (`functions/socket.js:11-39` beyond the two handlers), and `console` logging: transport, not logic.
- The 500 replies of rejected Firestore promises other than a failed storage delete: the store is modelled as always available.
- Concurrency: each handler runs to completion on its own; the `Promise.all` fan-outs are sequential loops. Interleaved requests are not modelled.
- The order of a query snapshot is not modelled: the loops over documents visit them in an unspecified order, so a listing's order is not stated (only that each document appears once).
- A storage delete that fails part-way leaves the bucket unchanged in the model; in the code some files may already be gone.
- Teacher.GetNewUpdates: the reads and writes are one atomic step; a note that arrives between the read and the mark is not modelled.
- Firestore.SortNewestFirst: models the in-place `Array.prototype.sort` as a function on a sequence; the order among equal timestamps is not specified.
- Validations.VerifyTeacherId: strings are sequences of Unicode scalar values, while `.length`, `.slice` and `split("")` count UTF-16 code units. Tokens with a character outside the Basic Multilingual Plane are not modelled: the code counts such a character as two units, the model as one.
- Schedule.MakeDate: date arithmetic is exact on integers. The rounding of floating-point intermediate values beyond 2^53 is not modelled. Only the final time value is clipped to the Date range.
- Schedule.TestStart: JavaScript's `Number` coercion of strings that are not plain digits, such as " 12", "1e3" or "0x1F", is not modelled; such a field is an Invalid Date, as a non-numeric one is. The empty string is modelled: it reads as 0, as `Number("")` does. Local time is UTC.
- Schedule.ScheduledClassCleanup: a class document without `testDate` or `testStartTime` would make the code throw and abort the sweep; the model's fields are always strings.
- Socket.Registry.NotifyTeacherOnStatusChange: for a class id that names an inherited property, the code throws and the model sends nothing; the two agree on what is sent. The unused `collection("classes").get()` read and JSON serialisation are not modelled; the sockets' `readyState` is the `open` input.
- Request body fields other than `ok`, `statusNote`, `openMaterial` and the durations are strings, with "" standing for every falsy value; non-string values in them are not modelled.
- Note.updatedToTeacher is a boolean; the code's loose `!= true` would also treat `1` as delivered, which no handler writes.
- `uploadClassDocument` and `convertAaToBb` of `functions/classes.js`, `functions/messages.js`, `functions/index.js` and the callable functions of `functions/students.js` outside the class flow are not part of this model.
- Server timestamps, the store's auto-ids and `uuidv4` are inputs (`now`, `newClassId`, `newStudentId`, `noteId`, `disconnectId`). The auto-ids' freshness is a precondition; the disconnect id has none.
