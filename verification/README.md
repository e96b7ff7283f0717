# A verified model of the course timetable system

The system keeps a university's course timetable. A server holds two SQLite tables of courses and schedules and one of
administrator accounts; clients talk to it over TCP in encrypted, framed messages; a bridge process lets a user interface
drive a client through lines of text; two scripts fill the tables from spreadsheets. This project models those parts in
Dafny and proves what each promises and that they compose: what a user interface reads is what the server's handlers say.

`dafny verify dfyconfig.toml` checks everything.

## How the model is laid out

Each part has a value-level meaning (functions on datatypes) and, where the program changes things step by step, classes
and methods of the same form as the program's, proved equal to that meaning. The theorems are lemmas about the meanings.
In proofs, `hide F;` keeps the verifier from unfolding `F` from there on.

- `Bytes`, `Order`, `Decimal`, `Separators`: octet strings, what `c_str()` cuts off, the order of SQL's ORDER BY, printing and `std::stoi`, splitting.
- `MessagePb`: the proto3 wire format (varints, field tags, length-delimited fields) of `MsgBody` and `Payload`.
- `Sockets`, `Ownership`: send and receive loops over an operating system that chooses every chunk size; the life of socket handles.
- `Protocol`: header, framing, encryption, authentication; sending and receiving.
- `CourseTables`, `CourseViews`, `CourseRepository`: tables, statements, transactions, queries, pages.
- `PasswordHash`, `Administrators`, `AdministratorRepository`: stored passwords and accounts.
- `ListCodec`: lists as text, in both directions. `Commands`, `Handlers`, `ServerLoop`: the fourteen handlers, the dispatcher, the connection loop.
- `Authority`, `AccountSafety`, `RequestEffects`, `Answers`, `CleanRuns`, `BoundRows`: what runs of requests keep, what a request achieves, and how one is refused.
- `Client`, `EndToEnd`, `InStep`: the client's calls, their composition with the server over the whole stream, and the two in turns.
- `BridgeLines`, `Bridge`, `UserInterface`: the line protocol, the bridge process, and the composition of all layers.
- `ImportXlsx`, `ImportedCells`, `ImportCourses`, `RecordCells`: the two import scripts, and their results told from the cells of the sheets. `Shutdown`: the interleavings of stopping the server.

What the program leaves to others is a parameter of the model. Encryption, HMAC and PBKDF2 are functions (`Crypto`, `Kdf`);
the only laws asked of them are in `Protocol.Lawful`, and `LawsAreConsistent` meets them. The clock, initialization vectors
and salts, and for every SQL statement whether and how it fails, come from oracles (`Oracle`, `Env`, `Engine`, `AdminEngine`,
`Cursor`), so every theorem holds for every choice they make. The network is a stream with a fixed future: everything that
will ever arrive, and how much will ever be accepted; sizes of single sends and receives are free. `InStep` does without
that future: there each side's stream is what the other side has sent by then.

## Findings where the code does not meet the promise

- A call of `insert_or_replace` or `update` that returns false can leave a half-written row and an open transaction, when
  the ROLLBACK fails too. `InsertIsAtomic` and `UpdateIsAtomic` hold if and only if that does not happen (`RollbackLost`);
  `RollbackCanBeLost` is an example, and `RunAfterLoss` says what later calls meet until the engine rolls back.
- An administrator's session can be parted from its account, and the last account deleted. `StepIsSafe` gives the exact
  requests (`Severs`). One needs no unusual text: a self-rename whose new password cannot be hashed or written, because
  of the early return at `programs/Server/src/cmdreg.cpp:405` (`SelfRenameCanLoseTheAccount`). The others come from a NUL
  in a name: the handlers compare the whole text, the database binds it up to the NUL. `OwnDeletionCanEmptyTheTable`,
  `LoginCanMisnameTheSession` and `SelfRenameCanMissTheSession` are inputs; `PlainStepIsSafe` is the case without NUL.
  Without such requests, and with connections one after the other, an account remains from the server's start on
  (`ServerKeepsAnAccount`). Two sessions side by side can delete each other's accounts (`TwoSessionsCanEmptyTheTable`);
  `LastAccountGoes` says which single request empties the table, whatever other sessions did before.
- The account list drops empty names when it is read, and splits names at the separator; it is exact if and only if
  there is neither. The handlers test for empty names, but a name that starts with a NUL passes and is stored empty:
  exactly these requests create one (`EmptyNameAppears`, `EmptyNameCanBeStored`, `NoEmptyNameAppears`).
- `Package_send` does not compare the body with `MAX_BODY` while the receiver does: what was sent with success is
  received if and only if its ciphertext is within it (`SentIsReceivedIfSmall`). One field of 16 MiB is enough to be
  lost (`LongFieldIsLost`, `LongFieldIsSent`), and the receiver then stands in the middle of the stream.
- What a user interface writes to the bridge is done as it was meant if and only if no argument holds a tab, a line feed
  or a carriage return and numbers are ints (`CommandsSurviveStdin`, `CallSurvivesStdin`, `ScriptIsFollowed`). At a line
  feed the rest of the argument is taken for a command (`LineFeedSplitsACall`).
- The bridge writes one line for each answer if and only if no text in the answer holds a line feed, and its answers are
  read back if and only if there is no tab either (`AnswersSurviveStdout`, `LineFeedSplitsAnAnswer`). Line feeds get into
  the tables by any client's request, and from there to the bridge (`LineFeedReachesTheBridge`).
- A query or an account list that cannot be run, or breaks off, is answered as a success with the rows read so far: the
  repositories do not look at the result of `prepare_and_collect` (`BrokenQueryShowsPrefix`, `BrokenListShowsPrefix`).
- A course is not shown as it was sent if one of its texts holds a NUL, or if its day is an integer literal other than the
  printed one, such as 08 or +8, which the `DATE` column turns into that number. Other courses are, if their day is no
  real and no integer beyond 64 bits (`AddShowsCourseAsSent`); `CourseCanBeStoredOtherwise` is an input.

## Where documents and code disagree

The model follows the code. A course has eight fields (`documents/protocol_define.md` and `documents/client_bridge.md` still
describe seven, without the semester). The authentication code is over the plaintext (`driver/src/protocol.cpp:31-35`), not
over the ciphertext as `readme.md` says. `count_courses` answers 0 on failure, not -1 (`driver/include/database.h:213`). Semester queries are implemented.

## Choices of the model

- Numbers in the header are little-endian, as on the hosts the program is built for.
- A text bound to a statement is the text up to its first NUL (`Bytes.CString`). What the day column makes of a text is a
  parameter (`Engine.day`) with the laws of `NumericAffinity`: integer literals within 64 bits become the number, which
  reads back as printed and comes before all texts in an ORDER BY; what is no number is kept.
- Rows that tie on the ORDER BY columns come in primary-key order; the same tie-break serves full view and pages.
- Text compares by octets, as SQLite's default collation does. `LIKE` is an arbitrary predicate of pattern and text.
- Each request is one atomic step in `Authority` and `AccountSafety`. At the granularity of single statements of several
  threads only the foreign key is claimed (`InterleavedStatementsKeepForeignKey`).
- The end-to-end theorems ask for requests and stored texts free of the two separators and stored rows free of NUL, as
  bound rows are, ciphertexts within `MAX_BODY`, initialization vectors that can be generated and enough room on the
  sending side: the absence of transport errors. Requests may hold NUL octets.
- Standard input and output are sequences of octets; lines are cut at `\n`, the last input line perhaps without one.

## Model

| member | source | states |
|---|---|---|
| EndToEnd.ClientSeesDirectResponses | programs/Client/src/cmdreg.cpp:41-68 | for any calls on one connection, without transport error, the k-th client result is success with the command, text, rows and names of running the handlers directly on the state the first k-1 calls left; server and client agree on the octets between them, and session and store end as in the direct run |
| UserInterface.UserInterfaceSeesDirectResponses | programs/Client/src/client_main.cpp:225-257 | for the octets a user interface writes for a CONNECT and any calls, to a server that serves them: the bridge holds that connection and makes exactly these calls if and only if no host or argument holds a tab, a line feed or a carriage return and numbers are ints; then it answers READY, OK and for each call, in order, what the handlers' direct response says: ERR with the text for the three error commands, DATA with the rows for a query response, ADMINS with the names for an account list, OK with the text for all others; and what it writes, taken apart at line feeds and read, is these answers if and only if no text in them holds a tab or a line feed |
| UserInterface.LoginOverTheBridge | programs/Client/src/client_main.cpp:97-104 | a login sent over the bridge is told as OK exactly if it is granted, and otherwise as ERR with the text for invalid credentials |
| UserInterface.ViewOverTheBridge | programs/Client/src/client_main.cpp:60-63 | the full view asked for over the bridge is the rows of the store, and is read back from its line if and only if no field of any row holds a tab or a line feed |
| UserInterface.LineFeedReachesTheBridge | programs/Server/src/cmdreg.cpp:193-230 | a course added by any client with a line feed in its instructor is stored, and the full view over the bridge is then not read back |
| UserInterface.BridgeMakesTheClientsCalls | programs/Client/src/client_main.cpp:77-104 | the calls the bridge makes over a connection are the client's run over it: same octets, same results, same next request id |
| InStep.TurnsGiveDirectResponses | programs/Server/src/server_main.cpp:56-75 | client and server in turns, each stream holding only what the other side has sent so far: every turn ends with the direct response of its call and nothing in flight, so neither waits for octets that do not come |
| EndToEnd.OnlyWholeRequestsAreServed | programs/Server/src/server_main.cpp:56-75 | a stream cut inside a request: the requests that arrived whole are each dispatched and answered once, in order; the cut one leaves no trace in session, store or output |
| EndToEnd.UnansweredRequestIsDone | programs/Server/src/server_main.cpp:56-75 | a request whose answer cannot be sent has been carried out on session and store all the same, counts as dispatched and not as answered, and ends the connection |
| EndToEnd.ServeFollowsDirectRun | programs/Server/src/server_main.cpp:49-79 | the receive-dispatch-answer loop over the framed, encrypted stream equals the plain run of the handlers |
| EndToEnd.ClientReadsReplies | programs/Client/src/cmdreg.cpp:41-68 | given the replies on the wire, successive calls send exactly their requests and read exactly those replies |
| EndToEnd.CallsReachTheirHandlers | programs/Client/src/cmdreg.cpp:86-126 | every client function reaches the handler of its own purpose through the registered table, with each argument where that handler looks for it |
| EndToEnd.ReplyReadsAsDirectResponse | programs/Client/src/cmdreg.cpp:54-67 | what the client takes out of a reply is the very list of rows or names the store handed to the handler |
| EndToEnd.RepliesReadDirectly | programs/Client/src/cmdreg.cpp:54-67 | the same over a whole run, with cleanliness of the store carried along |
| Protocol.FramingIsLossless | driver/src/protocol.cpp:61-72 | any list of sent messages followed by any proper prefix of a further frame is received as exactly that list and then a receive error |
| Protocol.FrameIsReceived | driver/src/protocol.cpp:96-182 | a whole frame whose body is within MAX_BODY is received as its message, leaving the rest of the stream |
| Protocol.SentIsReceivedIfSmall | driver/src/protocol.cpp:118-124 | what was sent with success is received if and only if its ciphertext has at most MAX_BODY octets; otherwise the receive fails and leaves the stream at the first octet of the body |
| Protocol.LongFieldIsLost | driver/src/protocol.cpp:87-94 | with any lawful encryption, a field of 16 MiB sent with success is refused by the receiver |
| Protocol.LongFieldIsSent | driver/src/protocol.cpp:59-73 | and there is a lawful encryption with which the send of such a field succeeds |
| Protocol.LargeFrameIsRefused | driver/src/protocol.cpp:118-124 | a frame above MAX_BODY is refused after its header, with the whole body and all behind it still in the stream |
| Protocol.CutFrameIsRefused | driver/src/protocol.cpp:102-133 | a stream that ends inside a frame yields a receive error |
| Protocol.SendAppendsFrame | driver/src/protocol.cpp:59-73 | a send succeeds exactly when the frame fits and appends it; otherwise a prefix of it is left behind |
| Protocol.HeaderReadsBack | driver/include/protocol.h:20-27 | the 56 header octets determine version, length, initialization vector and authentication code |
| Protocol.HeaderLayout | driver/include/protocol.h:20-27 | version at octets 0 to 3 and body length at 4 to 7, low octet first, initialization vector at 8 to 23, authentication code at 24 to 55 |
| Protocol.CiphertextOpens | driver/src/protocol.cpp:134-178 | decrypting gives a non-empty plaintext that parses to the message sent |
| Protocol.LawsAreConsistent | driver/src/protocol.cpp:52-59 | for any authentication code, an encryption that meets the laws |
| Protocol.TransmitBody | driver/src/protocol.cpp:8-74 | request id, header, encryption, authentication code and the two sends, with the error of each in its place; proved equal to the value-level send |
| Protocol.PackageSendBytes | driver/src/protocol.cpp:78-85 | the payload is always present and holds the one byte string |
| Protocol.PackageSendFields | driver/src/protocol.cpp:87-94 | the payload is always present and holds the fields in order |
| Protocol.PackageReceive | driver/src/protocol.cpp:96-182 | the sequence of checks on version, length, decryption, authentication (its computation may fail too) and parsing; proved equal to the value-level receive |
| Protocol.AuthenticIsReceived | driver/src/protocol.cpp:96-182 | any header and as many octets as it announces, genuine or not, is received if and only if the version is 1, the body has 1 to 16 MiB octets, it decrypts to something, the code of the plaintext can be computed and is the one in the header, and the plaintext parses; then the message is what it parses to and the stream is left behind the body |
| Protocol.ReceiveAnswers | driver/src/protocol.cpp:109-178 | which error each failing check gives: receive error for version and length, with the body still unread; then decryption, computation of the code, comparison of the code, parsing; no failure yields a message |
| Protocol.ShortStreamIsRefused | driver/src/protocol.cpp:99-133 | a stream that ends inside any header, or before as many octets as it announces, gives a receive error |
| Protocol.AlteredCodeIsRefused | driver/src/protocol.cpp:164-170 | a genuine frame with another authentication code is refused as such |
| Protocol.OtherVersionIsRefused | driver/src/protocol.cpp:109-116 | a genuine frame of another version is refused before its body is read |
| Protocol.SendAnswers | driver/src/protocol.cpp:28-73 | each error of a send exactly under its condition, success exactly if the code, the vector and the ciphertext can be had and the frame fits; an error before the first octet leaves the connection alone |
| Protocol.RequestCounter.FetchAdd | driver/include/protocol.h:14-18 | hands out the counter and wraps at 32 bits |
| MessagePb.ParseOfSerialize | third_party/protobuf/proto_file/message.proto:5-15 | parsing the proto3 encoding of a message gives the message back |
| MessagePb.SerializedIsNotEmpty | driver/src/protocol.cpp:82-91 | the encoding is empty only for the default message, hence never once the payload is set |
| MessagePb.SmallMessageOctets | third_party/protobuf/proto_file/message.proto:5-15 | the octets of any message with small numbers and one short field: field numbers, wire types, lengths and order as proto3 has them |
| MessagePb.VarintOctets | third_party/protobuf/proto_file/message.proto:5-15 | numbers up to 21 bits go in groups of seven bits, low group first, the top bit set on all octets but the last |
| MessagePb.UnknownFieldIsSkipped | third_party/protobuf/proto_file/message.proto:5-15 | a field with an unknown number is passed over, of each of the four wire types that are not groups |
| MessagePb.LastScalarCounts | third_party/protobuf/proto_file/message.proto:5-15 | of a scalar given twice the last one counts |
| MessagePb.WideScalarIsCut | third_party/protobuf/proto_file/message.proto:5-15 | a scalar beyond 32 bits counts modulo 2^32 |
| MessagePb.PayloadsAreMerged | third_party/protobuf/proto_file/message.proto:5-15 | a payload given in several parts is the parts put together |
| Sockets.SocketHandler.SocketSend | driver/src/SocketHandler.cpp:30-53 | whatever sizes send accepts, the loop has the effect of one whole send, including the int cast of lengths |
| Sockets.SocketHandler.SocketRecv | driver/src/SocketHandler.cpp:55-79 | whatever sizes recv delivers, the loop has the effect of one whole receive |
| Sockets.PushTwice | driver/src/protocol.cpp:61-72 | sending header and body in turn has the outcome of sending both at once |
| Sockets.SocketHandler.Move | driver/include/SocketHandler.h:23-30 | the new object takes all three fields over and the other one is emptied |
| Sockets.SocketHandler.MoveAssign | driver/src/SocketHandler.cpp:13-27 | self-move changes nothing; otherwise the old socket is closed and the other one taken over |
| Sockets.SocketHandler.Destroy | driver/include/SocketHandler.h:34-37 | closes the socket if there is one |
| Ownership.OwnershipIsLinear | driver/include/SocketHandler.h:23-37 | in every history of wraps, moves and destructions each open socket has exactly one owner and no close hits a socket that is not open |
| Ownership.NothingLeaks | driver/include/SocketHandler.h:34-37 | when the last handler is gone every socket was closed exactly as often as it was granted |
| CourseTables.InterleavedStatementsKeepForeignKey | driver/src/db_courses_handle.cpp:67-78 | any interleaving of the statements of any calls, any of them failing, keeps every schedule row's course |
| CourseTables.EveryRunIsSound | driver/src/db_courses_handle.cpp:99-177 | over every run of repository calls with an engine that may fail any statement: foreign key kept, and no transaction left open unless some rollback was lost |
| CourseTables.InsertIsAtomic | driver/src/db_courses_handle.cpp:99-177 | true exactly when all four statements end well, and then both rows are there as bound (text up to its first NUL, day as its column keeps it) and nothing else changed; false leaves the tables as they were with no transaction open if and only if the rollback is not lost; a failure leaves the text of the statement that failed |
| CourseTables.UpdateIsAtomic | driver/src/db_courses_handle.cpp:334-408 | the same for update, which never creates a row; a failure leaves the text of the statement that failed |
| CourseTables.RollbackCanBeLost | driver/src/db_courses_handle.cpp:99-177 | an input on which a false return leaves a half-written row and an open transaction, because the ROLLBACK fails as well |
| CourseTables.CallAfterLoss | driver/src/db_courses_handle.cpp:99-177 | a call while a transaction was left open: inserts and updates return false and change nothing, a delete may report true and stays undoable; the old tables come back exactly when the engine rolls back |
| CourseTables.RunAfterLoss | driver/src/db_courses_handle.cpp:99-177 | the same over every run of calls: all inserts and updates fail and the tables to be restored stay those from before the loss, until the engine rolls back and all that was reported done in between is gone |
| CourseTables.StoredAsGiven | driver/src/db_courses_handle.cpp:67-78 | a course is stored as given if and only if no text holds a NUL and its day, if an integer literal within 64 bits, is the printed one |
| CourseTables.DayIsKept | driver/src/db_courses_handle.cpp:67-78 | the DATE column keeps a day that is no number, and an integer literal within 64 bits exactly if it is the printed one; what it stores is never an integer in another form |
| Decimal.PrintedReadsBack | driver/src/db_courses_handle.cpp:67-78 | exactly the texts without leading zeros, plus signs and blanks are what the number they stand for is printed as |
| CourseTables.AffinityIsConsistent | driver/src/db_courses_handle.cpp:67-78 | the laws asked of the day column can be met |
| CourseTables.DeleteCascades | driver/src/db_courses_handle.cpp:303-332 | true exactly when the statement ends well, and then exactly the course named by the bound texts and its schedule rows are gone |
| CourseTables.SlotIsDeleted | driver/src/db_courses_handle.cpp:410-447 | delete_schedule: true exactly when the statement ends well, and then exactly the row with that key, as bound, is gone |
| CourseTables.FailureIsNamed | driver/src/db_courses_handle.cpp:108-176 | the last error after a transaction that fails is the text of its first failing statement, whatever ROLLBACK says |
| CourseTables.ClosedDoesNothing | driver/src/db_courses_handle.cpp:99-104 | on a connection that is not open every call fails, says so and changes nothing |
| CourseTables.InsertIsIdempotent | driver/src/db_courses_handle.cpp:114-145 | writing a course twice equals writing it once |
| CourseTables.UpdateVersusInsert | driver/src/db_courses_handle.cpp:349-376 | update keeps both key sets, and equals insert_or_replace exactly when both rows already exist |
| CourseTables.InsertThenDelete | driver/src/db_courses_handle.cpp:303-332 | adding and deleting a course restores the exact state if and only if its key was absent |
| CourseStore.CourseRepository.InsertOrReplace | driver/src/db_courses_handle.cpp:99-177 | BEGIN, two upserts, COMMIT with a rollback on every error path; proved equal to the transaction function |
| CourseStore.CourseRepository.Update | driver/src/db_courses_handle.cpp:334-408 | BEGIN, two updates, COMMIT with a rollback on every error path; proved equal to the transaction function |
| CourseStore.CourseRepository.DeleteCourse | driver/src/db_courses_handle.cpp:303-332 | one cascading delete |
| CourseStore.CourseRepository.DeleteSchedule | driver/src/db_courses_handle.cpp:410-447 | one delete by the five key columns |
| CourseStore.CourseRepository.PrepareAndCollect | driver/src/db_courses_handle.cpp:263-301 | pushes the rows up to where the engine stops, and records its error |
| CourseStore.CourseRepository.SearchByCourseCode | driver/src/db_courses_handle.cpp:179-185 | the rows of the join with that code |
| CourseStore.CourseRepository.SearchByInstructor | driver/src/db_courses_handle.cpp:187-193 | the rows of the join whose instructor is LIKE the argument between percent signs |
| CourseStore.CourseRepository.ViewCoursesBySemester | driver/src/db_courses_handle.cpp:211-218 | the rows of the join of that semester |
| CourseStore.CourseRepository.ViewAllCourses | driver/src/db_courses_handle.cpp:220-226 | all rows of the join |
| CourseStore.CourseRepository.ViewAllCoursesPaged | driver/src/db_courses_handle.cpp:228-239 | the slice of the full view; nothing for a limit that is not positive |
| CourseStore.CourseRepository.CountCourses | driver/src/db_courses_handle.cpp:241-261 | the number of rows of the join, and 0 on any failure |
| CourseViews.JoinIsLossless | driver/src/db_courses_handle.cpp:220-261 | with the foreign key, each schedule row is in the full view exactly once and count_courses counts the schedule rows |
| CourseViews.EachRowOnce | driver/src/db_courses_handle.cpp:179-226 | each query returns each row it selects once and nothing else |
| CourseViews.FullRow | driver/src/db_courses_handle.cpp:30-42 | a row of the full view has a schedule row with its code, section, day, duration, semester and classroom, and a course of that code and section with its title and instructor, and every such pair is a row |
| CourseViews.QueryRows | driver/src/db_courses_handle.cpp:179-217 | the rows of each query are those of the full view whose code, day or semester is the argument, or whose instructor or classroom is LIKE the argument between percent signs |
| CourseViews.RowsAreOrdered | driver/src/db_courses_handle.cpp:179-226 | each query returns its rows in the order of its ORDER BY columns, rows whose day is a real or a longer integer apart |
| CourseViews.FullViewOrder | driver/src/db_courses_handle.cpp:220-226 | of two rows of the full view the earlier has the smaller or equal code; at the same code section, then semester, then day; text octet by octet, integer days by value and before other days |
| CourseViews.CodeViewOrder | driver/src/db_courses_handle.cpp:179-185 | rows of one code go by section, then day |
| CourseViews.SemesterViewOrder | driver/src/db_courses_handle.cpp:211-217 | rows of one semester go by code, then section, then day |
| CourseViews.OtherViewOrder | driver/src/db_courses_handle.cpp:187-209 | rows by instructor, classroom or day go by code, then section |
| Order.TextLeMeans | driver/src/db_courses_handle.cpp:179-226 | the order of texts: a prefix, or the smaller octet at the first difference |
| CourseViews.SemestersPartitionTheView | driver/src/db_courses_handle.cpp:211-226 | the per-semester views over distinct semesters add up to the full view as multisets |
| CourseViews.PagesContinue | driver/src/db_courses_handle.cpp:228-239 | consecutive slices up to the first empty one concatenate to the list |
| PasswordHash.VerifyOfMake | driver/src/password_hash.cpp:63-107 | what make encodes from p accepts q exactly when the derivations of q and p agree and the count is positive |
| PasswordHash.DecodeOfEncode | driver/src/password_hash.cpp:63-99 | iteration count, salt and key come back out of the encoded text |
| PasswordHash.PartsAreVerified | driver/src/password_hash.cpp:77-107 | an entry in three parts behind the prefix accepts a password if and only if the count reads as a positive int, salt and key are hexadecimal, the key has 32 octets and the derivation gives it |
| PasswordHash.AcceptedHasParts | driver/src/password_hash.cpp:77-84 | nothing is accepted that has not the prefix and three parts |
| PasswordHash.HexReadsBack | driver/src/password_hash.cpp:19-37 | from_hex undoes to_hex |
| PasswordHash.FromHexMeans | driver/src/password_hash.cpp:28-37 | which texts are hexadecimal: an even number of digits of either case; and for which octets: the high digit first |
| PasswordHash.CaseIsIgnored | driver/src/password_hash.cpp:28-37 | capital digits count like small ones |
| PasswordHash.ToHex | driver/src/password_hash.cpp:19-26 | two lower-case digits an octet |
| PasswordHash.ReadHex | driver/src/password_hash.cpp:28-37 | succeeds exactly on an even number of hexadecimal digits, with the octets they stand for |
| PasswordHash.ConstEq | driver/src/password_hash.cpp:40-46 | the or of all exclusive ors is zero exactly when the two are equal |
| PasswordHash.MakeEncoding | driver/src/password_hash.cpp:63-75 | the encoded text, or empty when random source or derivation fails |
| PasswordHash.VerifyEncoding | driver/src/password_hash.cpp:77-107 | splits, reads and compares; every text that is not three dollar-separated parts with hexadecimal salt and key is refused |
| Decimal.StoiOfToText | driver/src/password_hash.cpp:88 | std::stoi reads back a printed number exactly when it fits an int |
| Decimal.StoiReads | programs/Server/src/cmdreg.cpp:179-180 | blanks, a sign perhaps and digits are read up to whatever follows; without digits, or outside int, there is no number |
| Administrators.InsertedPasswordWorks | driver/src/db_administrators_handle.cpp:91-130 | after a successful insert_or_replace the account of that name up to a NUL accepts exactly the passwords that derive like the new one, itself included, and no other account changed |
| Administrators.LoginKeepsLogins | driver/src/db_administrators_handle.cpp:132-159 | a login keeps every password accepted before and every other account; a plain-text entry equal to the password is re-encoded exactly when hashing and writing work |
| Administrators.LoginSucceedsWhenAccepted | driver/src/db_administrators_handle.cpp:132-159 | verify_login is true exactly when the table accepts the name up to a NUL with the password and can be read |
| Administrators.RenameTransfersLogins | driver/src/db_administrators_handle.cpp:194-221 | when rename succeeds, the new name accepts exactly the old name's passwords, both names up to a NUL, and count and other accounts stay |
| Administrators.RemoveTakesOne | driver/src/db_administrators_handle.cpp:223-245 | remove succeeds exactly when the account of that name up to a NUL is there and the statement works, and takes only that one |
| Administrators.NamesAreTheAccounts | driver/src/db_administrators_handle.cpp:161-180 | the list holds each account once, in order |
| Administrators.FailuresAreNamed | driver/src/db_administrators_handle.cpp:91-245 | which text each failing call leaves: closed connection, hashing, unknown old name, taken new name, unknown name, or the engine's; a step that fails in rename and remove leaves the earlier one |
| Administrators.StartUpLeavesAnAccount | programs/Server/src/server_main.cpp:109-114 | if hashing and writing work, the default login succeeds after start-up |
| Administrators.StartUpKeepsOthers | programs/Server/src/server_main.cpp:109-114 | whatever fails, accounts other than the default one stay as they were and at most that one is added; if the default login works already, no password accepted before is lost |
| AdministratorStore.AdministratorRepository.InsertOrReplace | driver/src/db_administrators_handle.cpp:91-130 | hash unless already encoded, then upsert, with both error paths |
| AdministratorStore.AdministratorRepository.VerifyLogin | driver/src/db_administrators_handle.cpp:132-159 | verify an encoding, or compare plain text and upgrade it in place |
| AdministratorStore.AdministratorRepository.Rename | driver/src/db_administrators_handle.cpp:194-221 | the checks and the update of the key |
| AdministratorStore.AdministratorRepository.Remove | driver/src/db_administrators_handle.cpp:223-245 | one delete and the test of the number of changes |
| AdministratorStore.AdministratorRepository.ListUsernames | driver/src/db_administrators_handle.cpp:161-180 | pushes the names up to where the engine stops |
| Separators.SplitText | programs/Client/src/cmdreg.cpp:16-26 | the pieces between separators, the last one included |
| Separators.SplitOfJoin | programs/Client/src/cmdreg.cpp:16-26 | splitting undoes joining for pieces free of the separator |
| Separators.JoinOfSplit | programs/Client/src/cmdreg.cpp:16-26 | joining undoes splitting for every text |
| ListCodec.ParseOfSerializeCourses | programs/Client/src/cmdreg.cpp:28-39 | parse_courses undoes serialize_courses if and only if no field of any course holds a separator |
| ListCodec.ParseOfSerializeNames | programs/Client/src/cmdreg.cpp:61-66 | the account list survives its encoding if and only if no name is empty or holds the separator; without separators, decoding drops empty names and nothing else |
| ListCodec.PayloadsStartWithTheirCount | programs/Server/src/cmdreg.cpp:16-34 | the first record of a payload of courses or of names is the printed number of those that follow |
| ListCodec.OneRecordIsRead | programs/Client/src/cmdreg.cpp:27-38 | of a record with eight or more fields the first eight make the course, in order; one with fewer is dropped |
| ListCodec.TsvRebuildsTheList | programs/Client/src/client_main.cpp:21-44 | the bridge's course line splits into 1 + 8n fields from which the list is rebuilt |
| ListCodec.WriteCourses | programs/Server/src/cmdreg.cpp:16-33 | count and records with their separators, built piece by piece |
| ListCodec.ReadCourses | programs/Client/src/cmdreg.cpp:28-39 | skips the count and every record with fewer than eight fields |
| ListCodec.ReadNames | programs/Client/src/cmdreg.cpp:61-66 | skips the count and every empty record |
| ListCodec.TsvSplit | programs/Client/src/client_main.cpp:21-32 | drops carriage returns and splits at tabs |
| ListCodec.JoinCoursesTsv | programs/Client/src/client_main.cpp:34-44 | count and eight fields a course, joined by tabs |
| Handlers.Dispatch | driver/src/CmdHandler.cpp:20-53 | every command, with any fields, session, store and engine, gets a server-to-client answer with a payload |
| Answers.StudentsAreRefused | driver/src/CmdHandler.cpp:34-41 | a student who sends one of the seven restricted commands, with whatever fields, gets the permission error with its text and nothing changes; and nobody else ever gets that error |
| Answers.UnknownIsRefused | driver/src/CmdHandler.cpp:22-31 | a command outside the fourteen, whatever the role, gets CMD_ERROR with its text and nothing changes |
| Answers.MalformedIsRefused | programs/Server/src/cmdreg.cpp:48-447 | a request with a field missing, or empty where it must not be, gets CMD_ERROR with the text for what is missing and nothing changes, for each of the commands that look at their fields |
| Answers.LogoutIsAnswered | programs/Server/src/cmdreg.cpp:90-99 | whoever asks, the session becomes a nameless student and is answered OK |
| Answers.FailedCreationIsTold | programs/Server/src/cmdreg.cpp:345-357 | an existing name is refused as such; a failure of the table is a server error with its text |
| Answers.FailedUpdateIsTold | programs/Server/src/cmdreg.cpp:386-407 | an unknown name, a rename that fails and a password that fails each have their own answer, the last two with the text of the table |
| Answers.FailedDeletionIsTold | programs/Server/src/cmdreg.cpp:435-441 | a deletion that fails at the table is answered with its text |
| Answers.UnreadableBounds | programs/Server/src/cmdreg.cpp:177-182 | absent or unreadable page bounds are 0 and 200, and further fields are ignored |
| ServerLoop.OnLogin | programs/Server/src/cmdreg.cpp:48-87 | checks, verify_login, then the session becomes the administrator; proved equal to the value-level handler, session, store and response alike |
| ServerLoop.OnLogout | programs/Server/src/cmdreg.cpp:90-99 | the session falls back to STUDENT without a name; proved equal to the value-level handler |
| ServerLoop.OnQueryCode | programs/Server/src/cmdreg.cpp:103-119 | an empty code is refused, otherwise the serialized rows with that code; proved equal to the value-level handler |
| ServerLoop.OnQueryInstructor | programs/Server/src/cmdreg.cpp:123-140 | an empty name is refused, otherwise the serialized rows of matching instructors; proved equal to the value-level handler |
| ServerLoop.OnQuerySemester | programs/Server/src/cmdreg.cpp:145-161 | an empty semester is refused, otherwise the serialized rows of that semester (the comment before it calls it a stub, the code is not); proved equal to the value-level handler |
| ServerLoop.OnViewAll | programs/Server/src/cmdreg.cpp:163-171 | all rows, serialized; proved equal to the value-level handler |
| ServerLoop.OnViewAllPage | programs/Server/src/cmdreg.cpp:173-189 | defaults, parsing and clamping step by step, then one page; proved equal to the value-level handler |
| ServerLoop.OnAdd | programs/Server/src/cmdreg.cpp:193-230 | field count, empty keys, insertion and its error text; proved equal to the value-level handler |
| ServerLoop.OnUpdate | programs/Server/src/cmdreg.cpp:235-272 | field count, empty keys, update and its error text; proved equal to the value-level handler |
| ServerLoop.OnDelete | programs/Server/src/cmdreg.cpp:276-309 | field count, empty keys, deletion and its error text; proved equal to the value-level handler |
| ServerLoop.OnAdminList | programs/Server/src/cmdreg.cpp:313-324 | the names serialized in a loop; proved equal to the value-level handler |
| ServerLoop.OnAdminCreate | programs/Server/src/cmdreg.cpp:328-363 | empty credentials, taken names, insertion and its error text; proved equal to the value-level handler |
| ServerLoop.OnAdminUpdate | programs/Server/src/cmdreg.cpp:368-416 | rename, password and session name in this order, with the early returns; proved equal to the value-level handler |
| ServerLoop.OnAdminDelete | programs/Server/src/cmdreg.cpp:420-447 | no name, own name, removal and its error text; proved equal to the value-level handler |
| ServerLoop.Dispatcher.RegisterHandler | driver/src/CmdHandler.cpp:10-18 | the table maps the command to its role and handler, replacing an earlier entry |
| ServerLoop.Dispatcher.DispatchRequest | driver/src/CmdHandler.cpp:20-53 | lookup, permission test and call, acting on session and repositories |
| ServerLoop.RegisterAllServer | programs/Server/src/cmdreg.cpp:449-466 | the table after the fourteen registrations |
| ServerLoop.SendResponseS | driver/src/CmdHandler.cpp:55-86 | refuses a client-to-server command or an empty payload without sending; otherwise sends |
| ServerLoop.Serve | programs/Server/src/server_main.cpp:56-75 | every dispatched request has exactly one answer, except perhaps the last when its send fails |
| ServerLoop.ServeRequest | programs/Server/src/server_main.cpp:58-74 | one turn of the loop on real session, repositories, counter and socket |
| ServerLoop.HandleClient | programs/Server/src/server_main.cpp:49-79 | the whole connection, from a fresh session to the end of the stream |
| Authority.RightsComeFromLogins | driver/src/CmdHandler.cpp:33-42 | for any interleaving of any number of sessions: role is ADMIN exactly when the name is non-empty, and exactly when the session logged in and has not logged out since |
| Authority.OnlyLoggedInSessionsWrite | driver/src/CmdHandler.cpp:33-53 | every step that changes courses, schedules or the set of accounts comes from a session logged in by then |
| Authority.StudentsChangeNothing | driver/src/CmdHandler.cpp:33-53 | a STUDENT request leaves both course tables alone and at most re-encodes one stored password, keeping all logins |
| Authority.DispatchRights | programs/Server/src/cmdreg.cpp:80-99 | rights come only from a granted login and go only with a logout |
| AccountSafety.AccountsSurvive | programs/Server/src/cmdreg.cpp:48-447 | over every run on one connection without a request of StepIsSafe's kinds, an administrator session has its account and the table is never empty |
| AccountSafety.ServerKeepsAnAccount | programs/Server/src/server_main.cpp:109-154 | from the server's start, over connections one after the other, to any moment of any of them: if the default account can be hashed and written and there is no request of StepIsSafe's kinds, an administrator session has its account and at least one account exists |
| AccountSafety.StepIsSafe | programs/Server/src/cmdreg.cpp:48-447 | one request keeps that invariant if and only if it is none of four: a self-rename whose password cannot be hashed or written; a granted login, a deletion of the own account, or a rename from or to a name, where the name as sent has a NUL and so is not the one the database sees |
| AccountSafety.PlainStepIsSafe | programs/Server/src/cmdreg.cpp:393-409 | without a NUL in the fields, only a self-rename whose password cannot be hashed or written breaks it |
| AccountSafety.SelfRenameCanLoseTheAccount | programs/Server/src/cmdreg.cpp:399-409 | a request that breaks it: the early return skips the update of the session name |
| AccountSafety.OwnDeletionCanEmptyTheTable | programs/Server/src/cmdreg.cpp:420-447 | a request that empties the table: the own name followed by a NUL passes the test for the own name, and the row of the own name is deleted |
| AccountSafety.LoginCanMisnameTheSession | programs/Server/src/cmdreg.cpp:61-86 | a login as the name followed by a NUL leaves an administrator session under a name that is no account |
| AccountSafety.SelfRenameCanMissTheSession | programs/Server/src/cmdreg.cpp:408-413 | a self-rename with a NUL behind the old name moves the account and leaves the session behind |
| AccountSafety.LastAccountGoes | programs/Server/src/cmdreg.cpp:420-447 | on any state that any number of sessions left, one request empties the table if and only if it deletes the only account under a name other than its session's |
| AccountSafety.TwoSessionsCanEmptyTheTable | programs/Server/src/cmdreg.cpp:420-447 | two sessions with their accounts, each deleting the other's account, leave an empty table |
| AccountSafety.EmptyNameAppears | programs/Server/src/cmdreg.cpp:328-416 | one request brings about an account with an empty name if and only if it creates one, or renames one to, a name that starts with a NUL, and the writes work |
| AccountSafety.NoEmptyNameAppears | programs/Server/src/cmdreg.cpp:328-416 | over every run without such a request no account has an empty name |
| AccountSafety.EmptyNameCanBeStored | programs/Server/src/cmdreg.cpp:328-363 | a request that stores one: a name that is just a NUL |
| RequestEffects.PagesAgreeWithView | programs/Server/src/cmdreg.cpp:173-189 | for every limit from 1 to 1000, the pages up to the first empty one, as the client parses them, are the full view |
| RequestEffects.PageShowsSlice | programs/Server/src/cmdreg.cpp:173-189 | a page request shows the slice of the full view between its clamped bounds |
| RequestEffects.PageBoundsOfNumbers | programs/Server/src/cmdreg.cpp:179-182 | any int offset and limit act as their clamped values |
| RequestEffects.QueryShowsMatchingRows | programs/Server/src/cmdreg.cpp:103-171 | the client reads each row the query selects once, in order, and nothing else, and nothing changes |
| RequestEffects.CodeQueryShows | programs/Server/src/cmdreg.cpp:103-119 | a query by code shows exactly the rows of the full view with that code, the argument up to a NUL, each once |
| RequestEffects.InstructorQueryShows | programs/Server/src/cmdreg.cpp:123-141 | a query by instructor shows exactly the rows of the full view whose instructor is LIKE the argument between percent signs, each once |
| RequestEffects.SemesterQueryShows | programs/Server/src/cmdreg.cpp:145-160 | a query by semester shows exactly the rows of the full view of that semester, each once |
| RequestEffects.BrokenQueryShowsPrefix | driver/src/db_courses_handle.cpp:263-301 | whatever the engine does, a query is answered as a success with the rows up to where the engine stopped |
| RequestEffects.AddIsVisible | programs/Server/src/cmdreg.cpp:193-230 | OK exactly when the transaction goes through, and then the view is the old one with exactly the rows of the course as bound changed; otherwise a server error with the text of the statement that failed |
| RequestEffects.UpdateIsVisible | programs/Server/src/cmdreg.cpp:235-272 | the same for update, which never adds a row to the view |
| RequestEffects.DeleteIsVisible | programs/Server/src/cmdreg.cpp:276-309 | OK exactly when the statement ends well, and then the view loses exactly the rows of that code and section, both up to a NUL; otherwise a server error with the engine's text |
| RequestEffects.LoginIsGranted | programs/Server/src/cmdreg.cpp:48-87 | granted with OK exactly when the table can be read and accepts the pair, the name up to a NUL, the session taking the name as sent; otherwise CMD_ERROR with the text for invalid credentials, and the session stays |
| RequestEffects.CreatedAccountLogsIn | programs/Server/src/cmdreg.cpp:328-363 | OK exactly if the name up to a NUL is not seen to exist and the password is hashed and written; then the account accepts its password and nobody else is touched; otherwise an error and no change |
| RequestEffects.RenamedAccountLogsIn | programs/Server/src/cmdreg.cpp:387-409 | the exact condition of success, and then the new name has exactly the old name's logins, both up to a NUL; the session follows exactly when the old name was sent as it carries it |
| RequestEffects.RenamedAccountGetsPassword | programs/Server/src/cmdreg.cpp:393-415 | rename with a new password: both writes done, only the first done, or none, each with its answer, accounts, logins and session |
| RequestEffects.ChangedPasswordLogsIn | programs/Server/src/cmdreg.cpp:399-407 | OK exactly if the account is found and the password is hashed and written; then the new password logs in and nobody else is touched; otherwise an error, for an unknown name its own, and no change |
| RequestEffects.DeletedAccountIsGone | programs/Server/src/cmdreg.cpp:420-447 | OK exactly when the name as sent is not the session's own and its text up to a NUL is an account that can be deleted; exactly that account goes; the own name has its own answer |
| RequestEffects.ListShowsAccounts | programs/Server/src/cmdreg.cpp:313-324 | the client reads back each account once, in order, if and only if no name is empty or holds the separator |
| RequestEffects.BrokenListShowsPrefix | driver/src/db_administrators_handle.cpp:161-180 | whatever the engine does, the list is answered as a success with the names up to where the engine stopped |
| CleanRuns.DispatchKeepsClean | programs/Server/src/cmdreg.cpp:9-12 | requests free of separators keep the store free of separators: no row, current or to be restored, and no account name holds one |
| CleanRuns.DispatchKeeps | driver/src/db_courses_handle.cpp:99-177 | whatever property of the tables the statements of a request preserve, the request keeps, of the current tables and of those to be restored |
| BoundRows.DispatchKeepsBoundRows | driver/src/db_courses_handle.cpp:114-145 | any request, with any fields, keeps all rows free of NUL and all integer days in printed form |
| BoundRows.AddShowsCourseAsSent | programs/Server/src/cmdreg.cpp:193-230 | after an addition the view has the course as bound; it has the course as sent if and only if no text holds a NUL and the day, if an integer literal within 64 bits, is the printed one |
| BoundRows.CourseCanBeStoredOtherwise | programs/Server/src/cmdreg.cpp:193-230 | a course with a NUL in its code and 08 for its day is shown under the code before the NUL on day 8, and not as sent |
| Client.SendAndRecv | programs/Client/src/cmdreg.cpp:41-68 | send, receive and take apart; proved equal to the value-level exchange |
| Client.FailedExchangeTellsNothing | programs/Client/src/cmdreg.cpp:41-68 | a call succeeds exactly if the request is sent and the reply received; otherwise it reports that error and the response object stays as it was |
| Client.FirstFieldIsRead | programs/Client/src/cmdreg.cpp:54-67 | of an answer only the first field counts: it is the text, the list of rows of a query response, or the names added to those of an account list |
| BridgeLines.CommandsSurviveStdin | programs/Client/src/client_main.cpp:225-257 | what std::getline and tsv_split make of the octets a user interface writes for any list of commands is these commands with their arguments if and only if no argument holds a tab, a line feed or a carriage return |
| BridgeLines.CallSurvivesStdin | programs/Client/src/client_main.cpp:97-222 | a call written to the bridge is one line and reaches the client functions with exactly its arguments if and only if those are free of the three octets and numbers are ints |
| BridgeLines.GetLine | programs/Client/src/client_main.cpp:232 | std::getline: the text up to the next line feed, or to the end of the input |
| BridgeLines.AnswerSurvivesItsLine | programs/Client/src/client_main.cpp:51-68 | an answer line is read back as what was emitted if and only if no text in it holds a tab |
| BridgeLines.ListsGiveTheirCount | programs/Client/src/client_main.cpp:51-68 | the field after DATA or ADMINS is the printed number of courses or names |
| BridgeLines.TextLines | programs/Client/src/client_main.cpp:51-58 | READY alone on its line; OK and ERR, a tab and the text |
| BridgeLines.AtoiReads | programs/Client/src/client_main.cpp:84 | a printed int is read back; no text and a lone sign read as 0 |
| BridgeLines.AnswersSurviveStdout | programs/Client/src/client_main.cpp:51-75 | what the bridge writes, taken apart at line feeds and read line by line, is its answers if and only if no text in them holds a tab or a line feed |
| BridgeLines.LinesOfStdout | programs/Client/src/client_main.cpp:51-75 | there are at least as many lines as answers, and exactly as many if and only if no answer holds a line feed |
| BridgeLines.LineFeedSplitsAnAnswer | programs/Client/src/client_main.cpp:60-63 | a course whose instructor holds a line feed comes out on two lines and is not read back |
| Bridge.OneAnswerEach | programs/Client/src/client_main.cpp:225-257 | READY, and then one answer for each command that is not blank, up to QUIT |
| Bridge.AnswersAreLines | programs/Client/src/client_main.cpp:225-257 | the number of lines written is one more than the number of answered commands if and only if no answer holds a line feed |
| Bridge.LocalAnswers | programs/Client/src/client_main.cpp:225-257 | the exact effect and answer of a line that asks no server: blank, unknown verb, DISCONNECT, QUIT, CONNECT with fields missing, refused or opened |
| Bridge.ServerAnswers | programs/Client/src/client_main.cpp:70-104 | the exact effect and answer of a line that asks the server: not connected, fields missing, a failed exchange that drops the connection, or what the reply says by its command, over a connection that is kept |
| Bridge.LatestConnectionIsHeld | programs/Client/src/client_main.cpp:82-104 | the socket held is that of the latest successful CONNECT if and only if no DISCONNECT and no failed call came after it |
| Bridge.CallsAreMadeRightly | programs/Client/src/client_main.cpp:77-104 | every call made is the one its line asks for, over the connection held at that moment |
| Bridge.ScriptIsFollowed | programs/Client/src/client_main.cpp:225-257 | if none of its calls breaks, a CONNECT and calls written to standard input are done as meant if and only if the host and all arguments are free of tabs, line feeds and carriage returns and numbers are ints; then each call is an exchange on what the earlier ones left of the connection, and the answers come out in order |
| Bridge.RunIsMadeOfLines | programs/Client/src/client_main.cpp:225-257 | whatever the input, every call made has arguments free of the three octets and page bounds within int, and the connection held was opened to such a host and an int port |
| Bridge.LineFeedSplitsACall | programs/Client/src/client_main.cpp:225-257 | a query for an instructor whose name holds a line feed asks for what stands before it, and the rest is answered as an unknown verb |
| Bridge.BridgeSession.HandleConnect | programs/Client/src/client_main.cpp:82-90 | opens a connection to the host and port of the line, and keeps the old one unless the new one is open |
| Bridge.BridgeSession.HandleCall | programs/Client/src/client_main.cpp:97-222 | the shape of the fourteen server-bound handlers: connected first, then the number of fields, then the call |
| Bridge.BridgeSession.AskServer | programs/Client/src/client_main.cpp:97-104 | a client function over the held socket, its answer written, and the socket dropped on a transport error |
| Bridge.RunBridge | programs/Client/src/client_main.cpp:225-257 | the loop over std::getline up to QUIT or the end of the input, acting on connection, request counter and standard output; proved equal to the value-level run on the lines of the input, octet for octet |
| ImportXlsx.ImportTwiceIsOnce | scripts/import_xlsx.py:132-182 | importing a list of files again changes neither table, whatever was there before |
| ImportXlsx.CoursesAfterImport | scripts/import_xlsx.py:165-169 | for courses the first write wins, old rows before all, and there are no others |
| ImportXlsx.SchedulesAfterImport | scripts/import_xlsx.py:171-178 | for schedule rows the last write wins, and there are no others |
| ImportedCells.CompleteIsImported | scripts/import_xlsx.py:143-163 | a sheet row is imported if and only if it has more than ten cells, a code that is neither empty nor a header word, a title cell with a section, and a schedule cell with a match or some text |
| ImportedCells.SchedulesComeFromCells | scripts/import_xlsx.py:171-178 | after an import of any files into any tables, a schedule row that some sheet row gives (its code, section, semester of the file, and a day and span of its schedule cell, or the clipped text and the hours) has the classroom of cell 10 of the last such row; every other schedule row is as before |
| ImportedCells.CoursesComeFromCells | scripts/import_xlsx.py:165-169 | a course already in the table is kept; a new one has the title of cell 1 and the instructor of cell 7 of the first sheet row that gives it; there are no others |
| ImportedCells.CountsComeFromCells | scripts/import_xlsx.py:132-182 | courses counted as written are the rows that are imported, schedules counted are their matches, and rows counted are all rows of files that have a semester |
| ImportXlsx.ImportKeepsForeignKey | scripts/import_xlsx.py:165-178 | the foreign key holds after every single statement and no schedule row is refused for want of its course |
| ImportXlsx.ImportFile | scripts/import_xlsx.py:132-182 | courses counted are the growth of the table, schedules counted are the rows written, skipped plus written is all rows; a file without a semester is left alone |
| ImportXlsx.ImportFiles | scripts/import_xlsx.py:205-210 | the totals over all files: courses counted are the growth of the table, and rows skipped plus rows written are all rows of the files that have a semester |
| ImportXlsx.ImportEntry | scripts/import_xlsx.py:165-178 | the statements of one row |
| ImportXlsx.EntryOf | scripts/import_xlsx.py:143-163 | a row that is not skipped has enough cells, a code, a section and a time |
| ImportCourses.AggregateRows | scripts/import_courses.py:119-170 | the loop over an ordered dictionary gives one record per distinct key in order of first appearance, each computed from that key's rows alone; missing columns or cells are errors |
| RecordCells.RecordsComeFromCells | scripts/import_courses.py:119-170 | each record has the code and section of its rows, the title of the first, the first teachers that are not empty, the distinct non-empty texts of the schedule column and of the classroom column joined, and the minutes of all; all from the columns with those headings |
| RecordCells.ReadingFailsIfShort | scripts/import_courses.py:125-136 | reading fails exactly if some row ends before the code column, or, having a code, before any column the header has |
| RecordCells.FirstNonEmpty | scripts/import_courses.py:156-157 | the first text that is not empty, or nothing if all are |
| RecordCells.PartsAreJoined | scripts/import_courses.py:160-170 | parts are joined with a semicolon and a blank |
| ImportCourses.EachRowHasOneGroup | scripts/import_courses.py:138-150 | every row with a code belongs to exactly one record |
| ImportCourses.GroupsInOrder | scripts/import_courses.py:138-150 | records come in the order of their first rows |
| ImportCourses.DurationsAddUp | scripts/import_courses.py:153 | the durations of the records add up to the minutes of all rows with a code |
| ImportCourses.PartsAreTheValues | scripts/import_courses.py:151-155 | day and classroom parts are the distinct non-empty values of the group's rows |
| ImportCourses.DistinctInOrder | scripts/import_courses.py:151-155 | parts, like keys, come in order of first appearance |
| Shutdown.ListenerIsClosedOnce | programs/Server/src/server_main.cpp:22-29 | for any interleaving of any number of shutdown requests with the accept loop and its epilogue, the listener is closed at most once, and exactly once when all have finished |
| Shutdown.ClosingMeansStopping | programs/Server/src/server_main.cpp:22-29 | whoever closes the listener finds g_running false and the shared handle taken |
| Shutdown.MainFinishesAfterShutdown | programs/Server/src/server_main.cpp:127-154 | after the listener is closed main finishes within four steps of its own, whatever the others do |

## Left out

- RequestEffects.PagesAgreeWithView: asks that the number of rows plus the limit fit an `int`, because the client sends offsets as `int`.
- CourseViews.RowsAreOrdered: says nothing of rows whose day is a real or an integer beyond 64 bits.
- CourseViews.FullViewOrder: nor does this.
- CourseViews.CodeViewOrder: nor this.
- CourseViews.SemesterViewOrder: nor this.
- CourseTables.StoredAsGiven: of such days says only that a course stored as given is free of NUL; how SQLite prints a real is not modelled.
- CourseTables.DayIsKept: leaves open which reals and longer integers are kept.
- BoundRows.AddShowsCourseAsSent: of a course whose day is a real or an integer beyond 64 bits says only half.
- PasswordHash.ReadHex: accepts hexadecimal digits only; `sscanf("%2x")` also takes signs, blanks and prefixes.
- PasswordHash.VerifyEncoding: refuses, for that reason, hexadecimal parts that the lenient `sscanf` reads.
- Protocol.TransmitBody: the key is given; loading it from its file, and the error when that fails, are not modelled.
- Handlers.Dispatch: handlers that throw (memory exhaustion) and the catch branch of the dispatcher are not modelled.
- ServerLoop.Dispatcher.DispatchRequest: has no catch branch, as above.
- MessagePb.ParseOfSerialize: unknown fields of the group wire types are refused rather than skipped.
- BridgeLines.CallSurvivesStdin: numbers outside `int`, which `atoi` leaves undefined, read as 0.
- BridgeLines.AnswersSurviveStdout: a text-mode stream that turns a line feed into two octets is not modelled.
- ImportXlsx.ImportFile: a statement that fails raises and ends the script; the model has no such failure.
- The inside of AES, HMAC and PBKDF2, and any claim that they cannot be broken.
- SQLite's engine: journaling, checkpoints, indexes, and what becomes of days that are reals.
- Loading of the key file, Winsock start-up, `connect_to`, `create_listener`, timestamps, logging and error texts of the transport.
- `send_response_c`, which nothing calls, and `search_by_classroom` and `search_by_day`, which no handler uses (their queries are in `CourseViews.Query`).
- The interactive prompt and its printing, and the graphical user interface.
- Reading of spreadsheet files and the regular expressions of both scripts: parameters of the importers (`Reader`).
- The second script's writing of its records into a table of its own, with another schema.
- Connections still being served while the repositories close at shutdown.
