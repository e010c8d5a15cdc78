# Face-recognition check-in backend, modelled in Dafny

This project models the core of `IOT-backend`, an Express and SQLite server. Members sign up
and log in. Each member registers a face photo, which a Python detector script crops and
turns into embeddings. A check-in stores a photo in the member's entry history. The model covers:

- **The store** (`config/database.js`): the three tables `tbl_account`, `tbl_register_faces`
  and `tbl_enter_history`, in `Schema.Database`. The schema's constraints are the class
  invariant `Valid()`:
  - AUTOINCREMENT ids;
  - unique non-null usernames;
  - the role CHECK;
  - foreign keys that cascade on delete.
- **The files** the handlers write and unlink: `Disk.FileSystem`, a map from path to bytes.
- **The handlers** of the account, authentication, face-registration and history controllers.
  Each is a method or function that returns the HTTP answer (`Http.Reply`) and states the
  tables and files it leaves. An exception that nothing catches becomes the outcome `Crash`.
  `app.js` installs no handler for uncaught exceptions or unhandled rejections, so such a throw
  ends the Node process: the request is never answered, and neither is any later request
  until the server is restarted.
- **The text contracts between the pieces**:
  - the data-URL header strip;
  - the four labelled lines the detector prints and the regular expressions that read them back;
  - the tagged embedding stored as JSON;
  - the upload URLs, and the file paths the delete handlers derive back from them;
  - the SQL text of the partial account update.
- **The integer logic of `model/face_crop.py`**: the crop box, the EXIF orientation mapping,
  the resize guard, and what the script prints and how it exits.

External libraries are parameters of the model:

- bcrypt is `hash` and `compare`;
- jsonwebtoken is `sign`;
- uuid is given strings;
- base64 decoding is `decode`, and sharp re-encoding is `sharp`;
- the detector subprocess maps image bytes to its stdout and the files it writes;
- `JSON.parse`/`JSON.stringify` form a `Json.Codec`.

Of the codec the model assumes only two laws (`Json.Lawful`). Parsing stringified text gives
the value back. Text that starts with a character no JSON value can start with does not parse.

The handlers are modelled as the code is written, including its defects. Where a defect
changes an answer, a corrected definition is given beside the as-written one and the intended
property is proved of it (see "## Findings").

## Model

| member | source | states |
|---|---|---|
| Text.Trim | controller/regisImageController.js:52-53 | the result has no white space at either end, is empty exactly when the input is all white space, and equals an input that has none at its ends |
| Text.Basename | controller/regisImageController.js:277 | the file name read back from a URL holds no slash |
| Text.SecondToLastSegment | controller/regisImageController.js:278 | the directory segment is missing exactly when the URL has no slash, and holds no slash otherwise |
| Text.LastTwoSegments | controller/regisImageController.js:276-278 | for `prefix/dir/name` with slash-free `dir` and non-empty slash-free `name`, the two segments read back are exactly `dir` and `name` |
| Text.SqlTrim | controller/regisImageController.js:153-159 | text already free of SQLite white space at both ends is kept as it is |
| Text.SqlTrimEnds | controller/regisImageController.js:153-159 | the trimmed text has no SQLite white space at either end |
| Text.SqlTrimPadded | controller/regisImageController.js:153-159 | SQLite white space added at either end of text that has none there is trimmed off again |
| Text.ParseNumeral | controller/regisImageController.js:153-159 | text that reads as a number under SQLite's numeric affinity has a non-empty all-digit mantissa |
| Text.DecimalRoundTrip | controller/regisImageController.js:153-159 | an account id rendered in decimal and compared by SQLite with an integer column selects exactly that id |
| Text.PlusSignRoundTrip | controller/regisImageController.js:264-266 | a parameter `+n` compared with an integer column matches the id n |
| Text.PaddedRoundTrip | controller/regisImageController.js:295-297 | a decimal id with SQLite white space on either side matches that id |
| Text.FractionZerosRoundTrip | controller/historiesController.js:81 | `n.000…` (any number of zeros) matches the id n |
| Text.FractionalMatchesNothing | controller/historiesController.js:114 | `n.d` with a non-zero digit d matches no integer id |
| Text.ExponentRoundTrip | controller/historiesController.js:212 | `ne k` matches the id n times ten to the k |
| DataUrl.StripHeader | controller/regisImageController.js:15 | whatever is removed is a single `data:image/<word>;base64,` header at the very start; otherwise the string passes unchanged |
| DataUrl.StripHeaderRemovesOne | controller/regisImageController.js:15 | for every word subtype, header plus payload gives back exactly the payload, even a payload that starts with another header |
| DataUrl.SvgHeaderIsKept | controller/historiesController.js:29 | a valid data URL whose subtype is not a word (`svg+xml`) is left with its header |
| DetectorOutput.MatchFrom | controller/regisImageController.js:27-30 | a capture of `label\s([^\n]+)` is non-empty and holds no newline |
| DetectorOutput.NoLabelNoMatch | controller/regisImageController.js:27-30 | where the label does not occur, the search finds nothing |
| DetectorOutput.MatchFirstLine | controller/regisImageController.js:27-30 | after text free of the label, the first line carrying it yields exactly the rest of that line |
| DetectorOutput.Interpret | controller/regisImageController.js:27-60 | output is accepted only with all four labels; an accepted one has two truthy embeddings and the trimmed captured paths; a rejection has one of the two reasons |
| DetectorOutput.InterpretIntended | controller/regisImageController.js:41-48 | never throws; an unparsable embedding is refused with the null-embedding reason; otherwise it agrees with the code as written |
| DetectorOutput.MissingLabelRejects | controller/regisImageController.js:38-59 | output missing any one label is rejected as not processed |
| DetectorOutput.EmptyArrayAccepted | controller/regisImageController.js:45-48 | an empty embedding array passes the null guard |
| DetectorOutput.NullEmbeddingRejected | controller/regisImageController.js:45-47 | a JSON null embedding is refused with the null-embedding reason |
| FaceCrop.ExpandBox | model/face_crop.py:79-90 | the box lies within the image; each side moves out by at most the padding and is either moved by exactly the padding or clamped to the edge; a box inside the image is contained in the result |
| FaceCrop.FindOrientationKey | model/face_crop.py:15-17 | the key of the first tag named Orientation; without one, the last key seen, and no key at all for an empty table |
| FaceCrop.CorrectOrientation | model/face_crop.py:18-28 | the image changes only when the EXIF table is present and non-empty and maps the key to 3, 6 or 8 |
| FaceCrop.OrientationMapping | model/face_crop.py:19-25 | 3 turns the image 180 degrees, 6 turns it 270 and 8 turns it 90, the last two swapping its sides; any other value leaves it as loaded |
| FaceCrop.Rotate | model/face_crop.py:21-25 | a half turn keeps the size, a quarter turn swaps width and height |
| FaceCrop.ResizeTarget | model/face_crop.py:35-41 | no resize exactly when both sides are at most 1600; otherwise the new size fits 1600 and one side equals it |
| FaceCrop.Main | model/face_crop.py:164-186 | exit 1 with only the usage line unless there is one argument; exit 0 exactly when both paths are non-empty, and then the last four lines are the labelled report; a failure ends with the usage or no-face line |
| FaceCrop.StdoutAppend | model/face_crop.py:180-183 | printing two runs of lines writes the two outputs one after the other |
| DetectorContract.ReportIsRead | model/face_crop.py:180-183 | the four report lines, after lines that carry no label, are read back as exactly the values printed |
| DetectorContract.SuccessfulRunIsRead | controller/regisImageController.js:27-56 | a run that exits 0 is read back as its own paths; with truthy parsable embeddings it resolves to exactly them, and an embedding printed as `None` makes the callback throw |
| DetectorContract.ClosingLineLacksLabel | model/face_crop.py:165-186 | the usage and no-face lines hold no newline and no path label |
| DetectorContract.FailedRunIsRejected | model/face_crop.py:184-186 | a run that exits 1 is rejected as not processed |
| DetectorContract.NoneEmbeddingRun | controller/regisImageController.js:41-42 | a run whose original embedding is Python's `None` makes the callback as written throw, and the intended one refuse it |
| Json.PythonNoneIsNotJson | controller/regisImageController.js:41 | the text `None` does not parse as JSON |
| Schema.AccountNamed | controller/authenticationController.js:18-20 | the row found has the username, and none is found exactly when no row has it |
| Schema.NamedAt | config/database.js:18-19 | with unique usernames, the lookup by a row's username finds that very row |
| Schema.AccountWithId | controller/historiesController.js:17 | the row found has the id, and none is found exactly when no row has it |
| Schema.FaceWithId | controller/regisImageController.js:264-266 | the face found has the id, and none is found exactly when no face has it |
| Schema.EntryWithId | controller/historiesController.js:81 | the entry found has the id, and none is found exactly when no entry has it |
| Schema.JoinFaces | controller/accountController.js:115-119 | the join holds exactly the pairs of an account and a face that names its id |
| Schema.JoinedOwnersCount | controller/regisImageController.js:315-318 | with a unique key, the distinct keys in the join count exactly the accounts owning a face |
| Schema.Assign | controller/accountController.js:88-92 | an update keeps id and username, and every column it does not set |
| Schema.AssignField | controller/accountController.js:88-92 | a column set once holds the value bound to it |
| Schema.UpdatedWhere | controller/accountController.js:88-92 | an update by username keeps the row count and every row's id and username |
| Schema.UpdatedWhereRoles | config/database.js:21 | when the updated row passes the role CHECK, every row does |
| Schema.UpdatedWhereKeys | config/database.js:18-19 | an update keeps usernames unique, ids ascending and issued, and every account id present |
| Schema.FilterIssued | config/database.js:33-41 | deleting rows keeps a table's ids ascending and issued |
| Schema.CascadeKeepsOwnership | config/database.js:33-41 | after the cascade every remaining face and entry still names an existing account |
| Schema.Database.constructor | config/database.js:12-44 | a fresh store is empty, has issued no id, and satisfies the schema's constraints |
| Schema.Database.InsertAccount | config/database.js:17-24 | refused exactly for a NULL or taken username or a role outside the CHECK; otherwise one row is appended with an id above every id issued before |
| Schema.Database.UpdateAccount | controller/accountController.js:92-97 | no change for an unknown username; a role failing the CHECK refuses the statement; otherwise exactly the named row is updated |
| Schema.Database.DeleteAccount | config/database.js:33-41 | the account goes, and with it exactly the faces and entries that name it |
| Schema.Database.InsertFace | controller/regisImageController.js:114-123 | refused exactly when the account does not exist; otherwise one row is appended with the next id |
| Schema.Database.DeleteFace | controller/regisImageController.js:295-297 | exactly the faces with that id go |
| Schema.Database.InsertEntry | controller/historiesController.js:48-53 | refused exactly when the account does not exist; otherwise one row is appended with the next id and `enter_at` set to the insertion time |
| Schema.Database.DeleteEntry | controller/historiesController.js:114 | exactly the entries with that id go |
| Disk.FileSystem.Write | controller/regisImageController.js:102-103 | the file is created or replaced and no other file changes |
| Disk.FileSystem.WriteAll | model/face_crop.py:98-123 | the files the detector writes are created or replaced and no other file changes |
| Disk.FileSystem.Unlink | controller/regisImageController.js:282-289 | a successful unlink removes exactly that file; a failed one changes nothing |
| UploadPaths.ServedFrom | app.js:21-41 | a URL under a static route at the server's own origin (`localhost`, port PORT, else 37320) is served from the same path under that route's folder in `public/` |
| UploadPaths.UnsetPortUrlNotServed | app.js:21 | with PORT unset, a URL built on the 8888 default is not under any static route of the server, which listens on 37320 |
| UploadPaths.ServedUrl | app.js:21-41 | a URL built on the listening port is served from exactly `public/<route>/<dir>/<name>`, and with PORT set it is the URL the handlers build |
| UploadPaths.UploadUrl | controller/regisImageController.js:93 | with PORT set, the URL stored for an original is served from exactly `public/uploads/<dir>/<name>`; with PORT unset, nothing serves it |
| UploadPaths.ProcessUrl | controller/regisImageController.js:94 | with PORT set, the URL stored for a processed copy is served from exactly `public/process/<dir>/<name>`; with PORT unset, nothing serves it |
| UploadPaths.HistoryUrl | controller/historiesController.js:37 | with PORT set, the URL stored for a check-in photo is served from exactly `public/histories/<dir>/<name>`; with PORT unset, nothing serves it |
| UploadPaths.UploadFileOfUrl | controller/regisImageController.js:276-279 | the derived path is a file under `public/uploads/` with a slash-free directory and name |
| UploadPaths.HistoryFileOfUrl | controller/historiesController.js:94-98 | the derived path is a file under `public/histories/` with a slash-free directory and name |
| UploadPaths.UploadRoundTrip | controller/regisImageController.js:276-279 | the file derived from an upload URL is the file the URL was built for |
| UploadPaths.HistoryRoundTrip | controller/historiesController.js:94-98 | the file derived from a history URL is the file the URL was built for |
| UploadPaths.RegisteredImageRoundTrip | controller/regisImageController.js:89-94 | a registered original is found again from its URL for every account id |
| UploadPaths.UploadFileIsNotProcessed | controller/regisImageController.js:279 | the file the face deletion derives is never a processed copy |
| UploadPaths.SlashInDirectoryMissesFile | controller/historiesController.js:35-37 | a username holding a slash makes the history deletion aim at another file |
| UploadPaths.SlashSplitsDirectory | controller/historiesController.js:94-95 | for a directory `a/b`, the deletion derives the file under `b` alone |
| UploadPaths.UploadIsNotProcessFile | controller/regisImageController.js:102-103 | an uploaded original and a processed copy never share a file |
| Auth.Login | controller/authenticationController.js:7-81 | 400 without both fields; a crash exactly for an unknown username; never 404; 401 only on a password mismatch; success carries the token signed over the stored username and role, and that role |
| Auth.LoginIntended | controller/authenticationController.js:28-33 | never crashes; 404 exactly for an unknown username; otherwise the answer of the code as written |
| Auth.UnknownUserCrashesLogin | controller/authenticationController.js:28 | for an unknown username the code as written never answers, while the intended login answers 404 |
| Auth.SignUp | controller/authenticationController.js:84-136 | 401 for a taken username; 500 without a password; 400 when the insert is refused; succeeds exactly otherwise, storing the password's hash with no name and no email |
| Auth.SignedUpCanLogIn | controller/authenticationController.js:38-57 | signing up and logging in with the same credentials succeeds with the role given at sign-up |
| Auth.WrongPasswordRefused | controller/authenticationController.js:46-51 | a password that does not match the stored hash is answered 401 |
| Accounts.GetAccount | controller/accountController.js:4-12 | one (username, role) per account, in table order |
| Accounts.GetAllInforAcc | controller/accountController.js:14-26 | every account without its password hash, in table order |
| Accounts.GetAccountById | controller/accountController.js:28-45 | succeeds exactly when the username exists, with that account's row; 404 otherwise |
| Accounts.ListingsAgree | controller/accountController.js:28-43 | the two listings agree row by row, and a found account is one the full listing shows |
| Accounts.Chosen | controller/accountController.js:60-80 | a column is chosen exactly when its body field is truthy, in the order role, password, name, email |
| Accounts.CollectUpdates | controller/accountController.js:60-80 | the SET clauses are those of the chosen columns and the values those bound to them, in the same order |
| Accounts.BoundFor | controller/accountController.js:60-80 | one value per chosen column, in clause order, the password as its hash |
| Accounts.UpdateSetsChosen | controller/accountController.js:60-103 | the updated row holds the value of every column the body sets and keeps every other column |
| Accounts.PasswordStoredHashed | controller/accountController.js:65-69 | a new password is stored only as its hash |
| Accounts.ClausePlaceholder | controller/accountController.js:61-79 | each SET clause holds exactly one parameter |
| Accounts.JoinedPlaceholders | controller/accountController.js:88 | the joined SET clauses hold one parameter per column |
| Accounts.UpdateSql | controller/accountController.js:55-88 | the statement starts with `UPDATE tbl_account SET` and ends with `WHERE username = ?` |
| Accounts.UpdateSqlPlaceholders | controller/accountController.js:55-89 | the statement holds one parameter per column plus one for the username |
| Accounts.BuildUpdate | controller/accountController.js:55-89 | the chosen columns; no values when none is chosen; otherwise their values in clause order then the username, as many values as parameters |
| Accounts.UpdateAccountByUsername | controller/accountController.js:49-110 | 400 exactly when no field is set; 404 for an unknown username; 500 when the role fails the CHECK; otherwise 200 and exactly the named row updated |
| Accounts.UpdateThenLookUp | controller/accountController.js:88-103 | after an update the lookup by that username shows the new values of the set columns and the old ones of the rest |
| Accounts.AccStatistics | controller/accountController.js:112-153 | the total is the number of accounts; with unique usernames, the registered count is the number of accounts owning a face and never exceeds the total |
| RegisterFaces.Rejection | controller/regisImageController.js:47-59 | detectFaceAndProcess rejects with a bare string, never an Error object |
| RegisterFaces.RejectionIntended | controller/regisImageController.js:47-59 | the corrected rejection is an Error object carrying the reason |
| RegisterFaces.CatchReply | controller/regisImageController.js:137-140 | 500 "Internal Server Error", carrying an error text exactly when an Error object was thrown |
| RegisterFaces.RejectionLosesReason | controller/regisImageController.js:137-139 | a detector rejection reaches the client without its reason |
| RegisterFaces.RejectionIntendedKeepsReason | controller/regisImageController.js:59 | rejecting with an Error carries the reason to the client |
| RegisterFaces.TaggedRoundTrip | controller/regisImageController.js:110-111 | a stored vector parses back to the embedding tagged with its account, and different accounts or embeddings store different text |
| RegisterFaces.CreateRegisterFace | controller/regisImageController.js:70-141 | 400 with nothing written when a field is missing; a crash when parsing throws; 500 without reason on a rejection; 400 for an empty path; 500 when a detected file is missing; otherwise both copies written under the account id and 201 with the row appended |
| RegisterFaces.Views | controller/regisImageController.js:169-188 | the filter never yields more rows than it was given |
| RegisterFaces.ViewsAppend | controller/regisImageController.js:169-188 | the map/filter works row by row and keeps order |
| RegisterFaces.ViewsDropUnparsable | controller/regisImageController.js:173-179 | a row with an unparsable vector is dropped |
| RegisterFaces.ViewsShowParsed | controller/regisImageController.js:181-187 | a row whose vectors parse is shown with the parsed values |
| RegisterFaces.ViewsKeepParsable | controller/regisImageController.js:188 | no row with parsable vectors is dropped |
| RegisterFaces.FacesByAccount | controller/regisImageController.js:149-191 | 400 exactly without an account id; 404 when no face has it; otherwise the parsable faces of that account |
| RegisterFaces.GetImageById | controller/regisImageController.js:145-191 | reads `accountId`: 400 "Account ID is required" exactly when it is missing or empty; a success lists the parsable faces of the account the parameter reads as |
| RegisterFaces.GetImageByIdIntended | controller/regisImageController.js:145-191 | the same, reading the route's `memberId` |
| RegisterFaces.RoutedLookupAlwaysRefused | controller/regisImageController.js:146-151 | under the route's `:memberId` parameter the handler as written answers 400 to every request |
| RegisterFaces.ListedAfter | controller/regisImageController.js:153-190 | after a face is added, the lookup by its account lists the earlier faces of that account and then the new face |
| RegisterFaces.RegisteredFaceIsListed | controller/regisImageController.js:153-190 | reading `:memberId`, a face just registered is listed last for its account with its tagged embeddings |
| RegisterFaces.ParseOrNull | controller/regisImageController.js:224-238 | a non-empty parsable vector gives its value, any other gives null |
| RegisterFaces.Listing | controller/regisImageController.js:195-250 | a LEFT JOIN row: the username is null exactly when the face's account does not exist, and otherwise is that account's |
| RegisterFaces.GetAllDataWithUsername | controller/regisImageController.js:194-252 | 404 exactly when there is no face; otherwise one row per face, in order, with its id, account, both URLs and both vectors parsed or null, and its owner's username (null exactly when the owner does not exist); with every face owned, every row has a username |
| RegisterFaces.DeleteRegisterFace | controller/regisImageController.js:255-310 | 400 without an id; 404 with nothing changed for an unknown id; otherwise the row is deleted whatever the unlink does, and only the original image the URL names is removed |
| RegisterFaces.DeleteKeepsProcessedImages | controller/regisImageController.js:279 | deleting a registration never removes a processed image |
| RegisterFaces.FaceRegistrationStats | controller/regisImageController.js:313-370 | the unregistered count is the accounts without a face; with unique ids the registered count is the accounts with one, and the two add up to all accounts |
| RegisterFaces.StatisticsCoverAccounts | controller/regisImageController.js:315-328 | in a valid store the two counts add up to the number of accounts |
| Histories.CreateEnterHistory | controller/historiesController.js:8-70 | 400 or 404 with nothing written or inserted; a crash when re-encoding fails; otherwise exactly one file under the username and one entry appended, and 201 echoing the account and URL |
| Histories.StoreEntry | controller/historiesController.js:45-53 | for an existing account the image file is created or replaced and exactly one entry is appended with the next id |
| Histories.RecordedImageRoundTrip | controller/historiesController.js:94-98 | for a slash-free username the deletion derives the very file the check-in wrote |
| Histories.DeleteHistories | controller/historiesController.js:72-129 | 400 without an id; 404 with nothing changed for an unknown id; otherwise the row is deleted whatever the unlink does |
| Histories.GetHistories | controller/historiesController.js:164-190 | 404 exactly when there is no entry; otherwise all entries |
| Histories.JoinEntries | controller/historiesController.js:134-138 | no more rows than entries, and every row's account exists |
| Histories.JoinEntriesLists | controller/historiesController.js:134-138 | every entry whose account exists is listed with that account's name |
| Histories.JoinEntriesOwned | controller/historiesController.js:134-138 | when every entry names an existing account, the join has one row per entry |
| Histories.GetAllHistories | controller/historiesController.js:131-161 | 404 exactly when the join is empty; otherwise the joined rows |
| Histories.AllHistoriesEmptyRule | controller/historiesController.js:147-149 | with every entry owned, the listing succeeds exactly when there is an entry |
| Histories.MemberEntries | controller/historiesController.js:201-213 | no more rows than entries, each of the given account and that account existing |
| Histories.MemberEntriesInOrder | controller/historiesController.js:201-213 | for an existing member, exactly the member's entries in table order, each with its entry id, time and image and the member's id, name and email |
| Histories.MemberEntryListed | controller/historiesController.js:210-212 | every entry whose account exists appears in its member's listing with that account's details |
| Histories.EntriesOfMember | controller/historiesController.js:192-236 | 400 exactly without an id; 500 when the statement does not prepare; 404 when the id matches no entry or reads as no number; a success is the member's listing and is never empty |
| Histories.GetHistoriesByMemberId | controller/historiesController.js:192-198 | 400 "Member ID is required!" exactly without an id |
| Histories.GetHistoriesByMemberIdIntended | controller/historiesController.js:192-236 | 400 exactly without an id; 404 when the id matches no entry; a success is the member's listing |
| Histories.MemberLookupAlwaysFails | controller/historiesController.js:208 | as written every lookup answers 500, since `phone_number` is not a column |
| Histories.MemberLookupFindsEntry | controller/historiesController.js:212 | with the existing columns, the lookup by a member's id succeeds and lists each recorded check-in of the member with the member's details |
| Histories.DayCounts | controller/historiesController.js:258-265 | the importer count never exceeds the total count |
| Histories.StatisticsVia | controller/historiesController.js:274-302 | `db.query` is no method of the sqlite3 handle, so the call throws inside the `try` and the catch answers 500; `db.all` answers 200, never counting more importers than entries |
| Histories.HisStatistics | controller/historiesController.js:240-302 | as written, the statistics always answer 500 "Failed to fetch history statistics": `db.query` is not a method of the handle, so the catch answers |
| Histories.HisStatisticsIntended | controller/historiesController.js:240-302 | with `db.all`, the statistics answer 200 with the day's counts |
| Histories.ImportersNeverCounted | controller/historiesController.js:262-265 | with a method the handle has, the statistics succeed and count no importer, since every entry names an account with a positive id |

## Left out

- Express routing and startup are not modelled. Only the route parameter name of getImageByID and the port the server listens on are kept: the first decides that handler's answer, the second whether the stored image URLs reach the static routes.
- Database errors other than constraint failures are not modelled: a failing disk, a locked file, or the lookup error of login answering 500. The `err` branches they reach are left out.
- The `|| 0` defaults of the three statistics handlers are not modelled. A `COUNT` query always returns one row, so those defaults never apply.
- `mkdirSync` and directories are not modelled: a write to a path always succeeds.
- The exec callback's `error` and `stderr` arguments are not modelled. The handler ignores them and reads only stdout.
- The outer catch of detectFaceAndProcess ("An unexpected error occurred.") is not modelled. It catches only a failing `writeFileSync` of the temp file.
- Concurrency is not modelled: requests interleaving, and two registrations sharing the one temp file.
- bcrypt, jsonwebtoken, uuid, sharp and Node's base64 decoder are parameters. A bcrypt hash failing inside the account update is not modelled.
- The one-hour token expiry is not modelled; it belongs to the signing service `sign`.
- The computer-vision calls of `model/face_crop.py` are not modelled (face detection, filters, the embedding computation). Embeddings are opaque JSON values or printed text, and what detection prints is an input of `FaceCrop.Main`.
- The moment-timezone day window is not modelled; HisStatistics takes its start and end as integers.
- `path.join` normalisation and path traversal through hostile usernames or ids are not modelled. Paths are plain concatenations with `/`.
- Logging is not modelled.
- Body fields are typed: `account_id` is an integral JSON number, the account fields are strings. A string `account_id`, a fractional one, and integers beyond 2^53 or from 1e21 on (which `${account_id}` spells in exponent form) are not modelled.
- Text.DecimalValue: computes the value of a numeral exactly, while SQLite converts through a 64-bit integer or a double. Spellings with more than about 15 significant digits, values beyond 2^63 and huge exponents may compare differently in SQLite.
- The unlink callbacks run after the answer is sent; their outcome is the parameter `unlinkOk`.
- FaceCrop.ResizeTarget: computes the new size in exact integer arithmetic instead of Python's float `scale_factor` and `int()` truncation. It states the guard exactly but bounds the new size only up to that rounding.
- FaceCrop.Stdout: ends every line with `\n`. A run under Windows ends lines with `\r\n`, so each capture keeps a trailing `\r`; `trim` removes it from the paths and `JSON.parse` ignores it in the embeddings.
- Histories.StatisticsVia: models only the two calls the handler is written or meant with, `db.query` and `db.all`. Other methods of the handle (`get`, `run`, `each`, …) hand the callback other shapes and are not modelled.
- DetectorContract.SuccessfulRunIsRead: holds only when nothing printed before the report (the image path, the detector's progress lines) contains one of the four labels; a path containing `Original path:` would be captured instead.

## Findings

The handlers are modelled as written. Each row pairs that with the corrected definition and the property proved of it.

| source | as written | input that shows it | evidently intended | confidence | as-written member | corrected member |
|---|---|---|---|---|---|---|
| controller/authenticationController.js:28-33 | `result.length === 0` tests a row object, so the 404 branch is dead; for an unknown user `result` is undefined and `.length` throws inside the callback | login with any non-empty password and a username no account has | answer 404 "Account not found" | high, not executed; the throw is uncaught and ends the server process | Auth.UnknownUserCrashesLogin | Auth.LoginIntended |
| controller/regisImageController.js:146 | reads `req.params.accountId` while routes/regisImage.js:9 declares `:memberId` | `GET /getimagebyID/1` | read the declared parameter and list that account's faces | high, not executed | RegisterFaces.RoutedLookupAlwaysRefused | RegisterFaces.RegisteredFaceIsListed |
| controller/historiesController.js:274 | calls `db.query`, which the sqlite3 handle does not have; the TypeError lands in the catch | `GET /HisStatistics` on any store | run the counts with `db.all` | high, not executed | Histories.HisStatistics | Histories.ImportersNeverCounted |
| controller/historiesController.js:208 | selects `a.phone_number`, which `tbl_account` lacks, so the statement never prepares | `GET /getHistoriesByMemberId/1` for a member with entries | select only existing columns and list the member's entries | high, not executed | Histories.MemberLookupAlwaysFails | Histories.MemberLookupFindsEntry |
| controller/regisImageController.js:41-42 | `JSON.parse` of an embedding printed as Python's `None` throws inside the exec callback, outside every try | a photo where a face is found but no encoding is computed, so the script prints `Original embedding: None` | refuse with the null-embedding reason | medium, not executed; the throw is uncaught and ends the server process | DetectorContract.NoneEmbeddingRun | DetectorOutput.InterpretIntended |
| controller/regisImageController.js:137-139 | detectFaceAndProcess rejects with a bare string, so `error.message` is undefined and the reason never reaches the client | a photo with no face: the answer is 500 "Internal Server Error" with no error text | reject with an `Error` so the reason is reported | medium, not executed | RegisterFaces.RejectionLosesReason | RegisterFaces.RejectionIntendedKeepsReason |
| controller/regisImageController.js:93-94 | the stored URLs fall back to port 8888 (also controller/historiesController.js:37), while app.js:21 makes the server listen on PORT, else 37320 | start the server without PORT and register a face: the stored `http://localhost:8888/uploads/<id>/<uuid>.jpg` names a port nothing listens on | build the URLs on the port the server listens on | medium, not executed; a `.env` that sets PORT hides it | UploadPaths.UnsetPortUrlNotServed | UploadPaths.ServedUrl |
