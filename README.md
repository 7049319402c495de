# Contact backup: a verified model of the JSON dump and its restore

This project models the core of the Android contact-backup application:

- **The backup thread.** It walks the people table in id order. Each person
  becomes one JSON record: its scalar columns, plus arrays of contact
  methods, photos (Base64 text), phone numbers and organizations. The
  records are written one after another as the elements of a JSON array,
  with `",\n"` between neighbours. The thread posts one progress message per
  row.
- **The restore thread.** It reads the dump one character at a time and cuts
  it into records by counting braces. Each record is parsed and stored:
  create the person, insert its phones, set its first photo. The thread
  posts the record's name, posts progress every 100 characters, and posts a
  final message with the file length.
- **The key names shared by both sides** (`ContactColumns`).
- **The handlers' completion rule** `position >= total`.
- **The older copies of both threads** kept as inner classes of the
  activity. They are the ones the activity's dialogs actually start
  (`ContactBackup.java:220` and `:230` call the one-argument constructors of
  the inner classes). They differ from the current threads:
  - the phone key is `"phonenumbers"`;
  - every restored phone gets the mobile type;
  - the backup reuses a single phone object for all rows;
  - contact methods and organizations are not written;
  - `photo_version` is written;
  - an exception is only printed; the current thread also posts an error
    message (see "Left out").

  `Revision` (`Current` / `Legacy`) selects which copy a member models.

Modules (one per file):

| module | file | what it holds |
|---|---|---|
| `Wrappers` | wrappers.dfy | `Option`, `Result`, `Outcome` |
| `ContactColumns` | contact_columns.dfy | the key constants and their distinctness |
| `Json` | json.dfy | JSON values; `put` as a class method; Java's int casts; the typed getters with the library's coercions between scalars (see "Left out" for the rest) |
| `Events` | events.dfy | the posted messages, the completion rule and counting lemmas |
| `BraceSplitter` | brace_splitter.dfy | the brace-depth scanner, an independent reference (`TopSpans`) and their agreement |
| `StoreContact` | store_contact.dfy | `store_contact` as a method over an operation log, with its specification `StoreSpec` |
| `Restore` | restore.dfy | `readStream` as a method, proved against the run function `RestoreWith` |
| `Backup` | backup.dfy | the `append*` helpers and the writer loop as methods over a `JsonObject` class, proved against `ContactFields` / `BackupText` |
| `RoundTrip` | roundtrip.dfy | backup followed by restore: what comes back and how the file splits |

Outside collaborators are parameters:

- the JSON parser and the pretty-printer: `Env.parse` and `Render`;
- the store's answer to a create: `Env.create`;
- Base64: `encode` and `Env.decode`;
- the contents of the contacts store: `Contacts`, with each query as a
  function of the person id that may return no cursor.

What the code does where one might expect otherwise:

- A JSON exception while parsing or storing a record ends the whole
  restore. It is not a skipped record.
- Only phones and the first photo are restored. Contact methods and
  organizations are not inserted.
- A record that fails to encode as the last row leaves a dangling `",\n"`
  before the closing bracket.

## Model

| member | source | states |
|---|---|---|
| ContactColumns.ScalarKeys | src/lu/albert/android/contactbackup/schema/ContactColumns.java:15-45 | the eleven scalar record keys are pairwise distinct and include id, name, starred and times_contacted |
| ContactColumns.CollectionKeys | src/lu/albert/android/contactbackup/schema/ContactColumns.java:50-59 | the four collection keys are pairwise distinct |
| ContactColumns.RecordKeys | src/lu/albert/android/contactbackup/schema/ContactColumns.java:15-59 | all fifteen record keys, scalar and collection, are pairwise distinct |
| ContactColumns.RecordKeysDiffer | src/lu/albert/android/contactbackup/schema/ContactColumns.java:15-59 | every two record keys differ, the older `phonenumbers` key included |
| ContactColumns.MethodKeys | src/lu/albert/android/contactbackup/schema/ContactColumns.java:69-84 | the six contact-method keys are distinct, is_primary first |
| ContactColumns.MethodKeysDiffer | src/lu/albert/android/contactbackup/schema/ContactColumns.java:69-84 | every two contact-method keys differ |
| ContactColumns.PhoneKeys | src/lu/albert/android/contactbackup/schema/ContactColumns.java:96-108 | the five phone keys are distinct |
| ContactColumns.PhoneKeysDiffer | src/lu/albert/android/contactbackup/schema/ContactColumns.java:96-108 | every two phone keys differ |
| ContactColumns.OrgKeys | src/lu/albert/android/contactbackup/schema/ContactColumns.java:120-132 | the five organization keys are distinct |
| ContactColumns.OrgKeysDiffer | src/lu/albert/android/contactbackup/schema/ContactColumns.java:120-132 | every two organization keys differ |
| ContactColumns.IsPrimaryShared | src/lu/albert/android/contactbackup/schema/ContactColumns.java:69-120 | the primary flag is spelt `is_primary` in all three child schemas |
| ContactColumns.LegacyPhoneKeyDiffers | src/lu/albert/android/contactbackup/ContactBackup.java:674 | the older phone key is not any record key of the current dump, so neither revision reads the other's phones |
| Json.Updated | src/lu/albert/android/contactbackup/BackupThread.java:128-146 | `put` stores the value under its key and a null value removes the key; every other key keeps its value |
| Json.Str | src/lu/albert/android/contactbackup/BackupThread.java:129-146 | a null column is put as null, any other column as its text |
| Json.JsonObject.constructor | src/lu/albert/android/contactbackup/BackupThread.java:126 | a new object has no keys |
| Json.JsonObject.Put | src/lu/albert/android/contactbackup/BackupThread.java:128-146 | the object's fields become the updated map |
| Json.Get | src/lu/albert/android/contactbackup/RestoreThread.java:202-204 | a getter succeeds exactly for a present key and otherwise throws "not found" for that key |
| Json.AsString | src/lu/albert/android/contactbackup/RestoreThread.java:202-204 | `getString` returns a string value as it is and renders a number as its decimal text, a boolean as "true" or "false" and null as "null"; it refuses exactly arrays and objects |
| Json.GetString | src/lu/albert/android/contactbackup/RestoreThread.java:202-204 | a missing key throws; a present value is read as `AsString` renders it, so a string value is returned as it is and the numeric id as its decimal text |
| Json.GetInt | src/lu/albert/android/contactbackup/RestoreThread.java:206 | a missing key throws; a number is cast to int, wrapping to 32 bits; text succeeds exactly when `ParseInt` accepts it, with `ParseInt`'s value; any other value throws a type error; every result is a Java int |
| Json.GetBoolean | src/lu/albert/android/contactbackup/RestoreThread.java:230 | a missing key throws; a boolean value is returned; the texts "true" and "false" in any letter case are read as booleans, and any other text throws a type error; only booleans and text can succeed |
| Json.GetArray | src/lu/albert/android/contactbackup/RestoreThread.java:218 | succeeds exactly for a present array, returning its items |
| Json.ObjectAt | src/lu/albert/android/contactbackup/RestoreThread.java:220-223 | `getJSONObject(i)` succeeds exactly for an in-range object entry, so it never yields null |
| Json.StringAt | src/lu/albert/android/contactbackup/RestoreThread.java:240 | `getString(i)` returns an in-range string entry and throws out of range |
| Json.Int32 | src/lu/albert/android/contactbackup/BackupThread.java:76 | Java's int cast of a long: the result is a Java int, congruent to the value modulo 2^32, and the value itself when in range |
| Json.Saturate | src/lu/albert/android/contactbackup/RestoreThread.java:206 | Java's int cast of a whole double: the value in range, the nearest bound outside it |
| Json.ParseIntToString | src/lu/albert/android/contactbackup/RestoreThread.java:206 | the decimal text of any integer is read back by `getInt` as that integer, clamped to the int range |
| Json.UnsignedText | src/lu/albert/android/contactbackup/RestoreThread.java:206 | an unsigned decimal without surrounding blanks is read as its value, and with a leading minus as the negated value, both clamped |
| Json.ParseIntTruncates | src/lu/albert/android/contactbackup/RestoreThread.java:206 | a decimal with a fraction is read as its whole part, for either sign: the cast truncates toward zero |
| Json.ParseIntPaddedPlus | src/lu/albert/android/contactbackup/RestoreThread.java:206 | surrounding blanks are trimmed and a leading plus sign is accepted |
| Json.NumberReadAsStringAndInt | src/lu/albert/android/contactbackup/RestoreThread.java:202 | the id the backup puts as a number is read back by `getString` as its decimal text and by `getInt` as its 32-bit cast |
| Json.DecimalStringReadAsInt | src/lu/albert/android/contactbackup/RestoreThread.java:206 | a starred column stored as decimal text is read back by `getInt` as its value, clamped to the int range |
| Events.TerminalCount | src/lu/albert/android/contactbackup/ContactBackup.java:81-85 | the handler reports completion zero times exactly when no message has position >= total |
| Events.TerminalCountByPositions | src/lu/albert/android/contactbackup/ContactBackup.java:102-106 | when all messages carry one total, completions equal the positions that reach it |
| BraceSplitter.ScanMatchesTopSpans | src/lu/albert/android/contactbackup/RestoreThread.java:100-138 | after any prefix: the scanner's depth is the net brace count; a record is open exactly while that count is positive; the buffer holds the text since the opening brace; the records handed over are exactly the reference spans |
| BraceSplitter.AdvanceTracks | src/lu/albert/android/contactbackup/RestoreThread.java:108-131 | one more character, braces decrementing below zero included, keeps the scanner in step with the reference spans |
| BraceSplitter.TopSpansAreObjects | src/lu/albert/android/contactbackup/RestoreThread.java:108-129 | every handed-over record starts with `{`, ends with `}`, is balanced, and is positive on every proper prefix, for any input |
| BraceSplitter.ScanSeparator | src/lu/albert/android/contactbackup/RestoreThread.java:108-117 | text without braces between records changes nothing and hands nothing over |
| BraceSplitter.ScanObject | src/lu/albert/android/contactbackup/RestoreThread.java:108-131 | a balanced object read between records is handed over once, whole, leaving the scanner between records |
| BraceSplitter.BraceAfterRecord | src/lu/albert/android/contactbackup/RestoreThread.java:108-131 | a closing brace after an object and brace-free text takes the depth below 0 without handing over anything |
| BraceSplitter.BraceInStringCutsRecord | src/lu/albert/android/contactbackup/RestoreThread.java:108-131 | braces inside string values are counted: `{"n":"}"}` is handed over as `{"n":"}` and the scan ends at depth -1 with no record open |
| BraceSplitter.SplitFramed | src/lu/albert/android/contactbackup/RestoreThread.java:100-138 | balanced objects separated by brace-free text are handed over exactly, in order, and the separators never reach the parser |
| StoreContact.Store | src/lu/albert/android/contactbackup/RestoreThread.java:194-251 | the method performs exactly the operations and exception of `StoreSpec`: create; stop on a refused create; phones; photo |
| StoreContact.InsertPhones | src/lu/albert/android/contactbackup/RestoreThread.java:218-232 | the phone loop performs the inserts of `PhoneInserts`, ending at the first entry whose getters throw |
| StoreContact.ThrowStep | src/lu/albert/android/contactbackup/RestoreThread.java:220-230 | an entry whose read throws (not an object, or a getter throws) ends the inserts with that exception and keeps the earlier ones |
| StoreContact.InsertStep | src/lu/albert/android/contactbackup/RestoreThread.java:224-231 | an entry that reads cleanly adds one insert with its values after the earlier ones |
| StoreContact.FailureStays | src/lu/albert/android/contactbackup/RestoreThread.java:219-232 | after an exception no further phone entry is looked at |
| StoreContact.RefusedCreateStoresNothingElse | src/lu/albert/android/contactbackup/RestoreThread.java:208-213 | a null create result ends the call after the create: no phone and no photo |
| StoreContact.UnreadableRecordStoresNothing | src/lu/albert/android/contactbackup/RestoreThread.java:201-206 | a getter of the create request that throws aborts before any store operation |
| StoreContact.OneInsertPerPhone | src/lu/albert/android/contactbackup/RestoreThread.java:219-232 | with readable entries there is one insert per entry, in array order, each with that entry's values |
| StoreContact.UnreadablePhoneStops | src/lu/albert/android/contactbackup/RestoreThread.java:219-231 | an unreadable entry j ends the call with an exception after exactly j inserts |
| StoreContact.PrimaryFlagStored | src/lu/albert/android/contactbackup/RestoreThread.java:230 | the stored primary flag is 1 for true and 0 for false |
| StoreContact.LegacyPhonesAreMobile | src/lu/albert/android/contactbackup/ContactBackup.java:417-420 | the older restore inserts every phone as a mobile number, with no primary flag |
| StoreContact.AtMostOnePhoto | src/lu/albert/android/contactbackup/RestoreThread.java:238-249 | at most one photo is set, decoded from element 0 of the photo array, and only when that element is non-empty |
| StoreContact.OpsReferToCreatedPerson | src/lu/albert/android/contactbackup/RestoreThread.java:208-243 | the first operation is the create; every later one is a phone or photo of the person the create returned |
| StoreContact.InsertsReferTo | src/lu/albert/android/contactbackup/RestoreThread.java:226-231 | every operation of the phone loop is a phone insert for the created person |
| StoreContact.PhotoRefersTo | src/lu/albert/android/contactbackup/RestoreThread.java:243 | the photo step only sets that person's photo |
| Restore.ReadStream | src/lu/albert/android/contactbackup/RestoreThread.java:83-186 | the loop posts exactly the messages, and performs exactly the store operations, of `RestoreWith` |
| Restore.ReadChar | src/lu/albert/android/contactbackup/RestoreThread.java:101-153 | one loop iteration is one `Step` of the run: feed, maybe restore a record, count, maybe post progress |
| Restore.FeedChar | src/lu/albert/android/contactbackup/RestoreThread.java:108-117 | the brace update of one character equals the scanner's `Feed` |
| Restore.CountChar | src/lu/albert/android/contactbackup/RestoreThread.java:141-153 | the count goes up by one, and progress is posted when it is a multiple of 100 |
| Restore.RestoreRecord | src/lu/albert/android/contactbackup/RestoreThread.java:128-137 | parse, store, then read the name; the first exception is the result |
| Restore.FailedRestore | src/lu/albert/android/contactbackup/RestoreThread.java:182-185 | once an exception escapes, the restore's messages and operations are those of the failing step: no final progress |
| Restore.StepFails | src/lu/albert/android/contactbackup/RestoreThread.java:128-130 | a record whose handling throws adds its partial operations and (current revision) one error, and ends the run |
| Restore.StepDone | src/lu/albert/android/contactbackup/RestoreThread.java:128-153 | a restorable completed record is stored, named and closed; then the count ticks |
| Restore.RunCount | src/lu/albert/android/contactbackup/RestoreThread.java:141 | without an exception, the count is the number of characters read |
| Restore.RunTracksScan | src/lu/albert/android/contactbackup/RestoreThread.java:100-153 | without an exception, the run's scanner is the scan of the text read, and every record cut out so far was accepted |
| Restore.HandedRecordIsTopSpan | src/lu/albert/android/contactbackup/RestoreThread.java:128-130 | every record handed to the parser is a top-level object of the text read so far |
| Restore.RestoreSucceedsIff | src/lu/albert/android/contactbackup/RestoreThread.java:100-185 | the restore gets through the whole file exactly when every top-level object is parsed and stored without an exception |
| Restore.FirstFailure | src/lu/albert/android/contactbackup/RestoreThread.java:182-185 | a failed run has a first failing character, before which the run had not failed |
| Restore.FailsAt | src/lu/albert/android/contactbackup/RestoreThread.java:128-130 | the character at which the run fails completes a record that throws |
| Restore.RunRecords | src/lu/albert/android/contactbackup/RestoreThread.java:128-137 | without an exception: every cut-out record was stored in order and named once, and no error message was posted |
| Restore.RestoredRecords | src/lu/albert/android/contactbackup/RestoreThread.java:100-168 | a restore without an exception performs the store calls of exactly the top-level objects, in input order, and names each once |
| Restore.RestoredFramedRecords | src/lu/albert/android/contactbackup/RestoreThread.java:100-168 | restoring objects between brace-free separators stores exactly those objects, in order |
| Restore.HundredsClosedForm | src/lu/albert/android/contactbackup/RestoreThread.java:146 | progress positions while reading k characters are 100, 200, ..., k/100 of them |
| Restore.HundredsBounded | src/lu/albert/android/contactbackup/RestoreThread.java:146 | every periodic position is positive and at most the count read |
| Restore.HundredsIncreasing | src/lu/albert/android/contactbackup/RestoreThread.java:146 | the periodic positions strictly increase |
| Restore.StepProgress | src/lu/albert/android/contactbackup/RestoreThread.java:141-153 | one more character adds a progress position exactly when the new count is a multiple of 100 |
| Restore.RunProgress | src/lu/albert/android/contactbackup/RestoreThread.java:141-153 | without an exception, progress went out at exactly the multiples of 100 read |
| Restore.RunTotals | src/lu/albert/android/contactbackup/RestoreThread.java:150 | every periodic message carries the file length as total |
| Restore.RestoreProgress | src/lu/albert/android/contactbackup/RestoreThread.java:141-168 | a successful restore posts positions 100, 200, ... then the file length; all carry that total, and the periodic ones increase |
| Restore.HundredsReachingTotal | src/lu/albert/android/contactbackup/RestoreThread.java:146-150 | a periodic position reaches the total only at the last character, when the file length is a positive multiple of 100 |
| Restore.CompletionCount | src/lu/albert/android/contactbackup/ContactBackup.java:97-106 | with the file length as total, a successful restore reports completion once, and twice when the length is a positive multiple of 100 |
| Restore.StepFailed | src/lu/albert/android/contactbackup/RestoreThread.java:182-184 | a failing step completes a record that throws and adds only the error message |
| Restore.FailedRun | src/lu/albert/android/contactbackup/RestoreThread.java:182-185 | after an exception: progress stopped before the failing character; all totals are the file length; the current revision posts one error message, as its last message, and the older none |
| Restore.FailedRunNeverCompletes | src/lu/albert/android/contactbackup/RestoreThread.java:182-185 | a failed run with total at least the text length never reaches completion |
| Restore.FailedRestoreNeverCompletes | src/lu/albert/android/contactbackup/ContactBackup.java:102-106 | if some top-level object throws, the dialog is never dismissed (total at least the length) and the error count is 1 (current) or 0 (older) |
| Backup.Rows | src/lu/albert/android/contactbackup/BackupThread.java:235 | a null cursor contributes no rows |
| Backup.EntriesInOrder | src/lu/albert/android/contactbackup/BackupThread.java:284-300 | an array built from a cursor has one entry per row, in cursor order |
| Backup.MethodEntryShape | src/lu/albert/android/contactbackup/BackupThread.java:286-298 | a contact-method entry has only contact-method keys; is_primary is the column compared with 0; every other key holds its column, absent when null |
| Backup.PhoneEntryShape | src/lu/albert/android/contactbackup/BackupThread.java:340-350 | a phone entry has only phone keys; is_primary is the column compared with 0; every other key holds its column |
| Backup.OrgEntryShape | src/lu/albert/android/contactbackup/BackupThread.java:391-401 | an organization entry has only organization keys, with the same rules |
| Backup.EncodedPhotos | src/lu/albert/android/contactbackup/BackupThread.java:239-246 | the photo array has one string per non-null blob; element 0 encodes the first non-null blob |
| Backup.NewMethodEntry | src/lu/albert/android/contactbackup/BackupThread.java:286-298 | a fresh object holding the puts of one contact-method row |
| Backup.PutPhone | src/lu/albert/android/contactbackup/BackupThread.java:341-350 | the five phone puts on the given object |
| Backup.NewOrgEntry | src/lu/albert/android/contactbackup/BackupThread.java:391-401 | a fresh object holding the puts of one organization row |
| Backup.AppendContactMethods | src/lu/albert/android/contactbackup/BackupThread.java:266-304 | the record gains `contact_methods`: one entry per row in order, empty for a null cursor; nothing else changes |
| Backup.AppendPhotos | src/lu/albert/android/contactbackup/BackupThread.java:228-249 | the record gains `photos`: the encoded non-null blobs in order, empty for a null cursor; nothing else changes |
| Backup.AppendPhoneNumbers | src/lu/albert/android/contactbackup/BackupThread.java:322-355 | the record gains `phone_numbers`: a fresh entry per row in order, empty for a null cursor; nothing else changes |
| Backup.AppendOrganizations | src/lu/albert/android/contactbackup/BackupThread.java:373-407 | the record gains `organizations`: one entry per row in order, empty for a null cursor; nothing else changes |
| Backup.SharedPhones | src/lu/albert/android/contactbackup/ContactBackup.java:660-673 | the older loop puts every row into one fresh object, and the array holds a reference to it per row |
| Backup.LegacyAppendPhoneNumbers | src/lu/albert/android/contactbackup/ContactBackup.java:638-676 | the record gains `phonenumbers`: one entry per row, every one the shared object in its final state |
| Backup.SharedEntriesShowLastRow | src/lu/albert/android/contactbackup/ContactBackup.java:660-674 | every entry of the older phone array shows the last row's values under all five phone keys |
| Backup.SharedEntriesLoseRows | src/lu/albert/android/contactbackup/ContactBackup.java:660-674 | when the first and last rows' numbers differ, the older array is not the per-row array the current helper builds |
| Backup.NewPerson | src/lu/albert/android/contactbackup/BackupThread.java:126-146 | a fresh record with the id as a number and every other scalar column as nullable text; photo_version only in the older revision |
| Backup.IdKept | src/lu/albert/android/contactbackup/BackupThread.java:229 | attaching an array keeps the id the next helper queries by |
| Backup.BuildContact | src/lu/albert/android/contactbackup/BackupThread.java:126-161 | the record built by the puts and the helpers, in the revision's call order, is `ContactFields` |
| Backup.RecordIdOfPerson | src/lu/albert/android/contactbackup/BackupThread.java:128 | the id survives the other puts and `getInt` reads it back |
| Backup.PersonShape | src/lu/albert/android/contactbackup/BackupThread.java:129-146 | name, times_contacted and starred hold their columns, absent when null |
| Backup.AttachedKeeps | src/lu/albert/android/contactbackup/BackupThread.java:158-161 | attaching the collections leaves every other key as it was |
| Backup.ContactShape | src/lu/albert/android/contactbackup/BackupThread.java:128-161 | the finished record carries the id as a number, and the columns the restore reads under their keys |
| Backup.PhotosPresent | src/lu/albert/android/contactbackup/BackupThread.java:233-249 | the photo array is always present, empty for a null cursor |
| Backup.CollectionsPresent | src/lu/albert/android/contactbackup/BackupThread.java:158-161 | the current record always has all four arrays, empty for a null cursor |
| Backup.LegacyCollectionsPresent | src/lu/albert/android/contactbackup/ContactBackup.java:546-547 | the older record has its phone array and its photo array |
| Backup.Records | src/lu/albert/android/contactbackup/BackupThread.java:163 | one rendered text (or a failure) per people row |
| Backup.RenderRow | src/lu/albert/android/contactbackup/BackupThread.java:126-163 | building and rendering row i gives the i-th record text |
| Backup.Run | src/lu/albert/android/contactbackup/BackupThread.java:54-205 | the writer loop produces `BackupText` and one progress message (position i+1, total n) per row |
| Backup.BodyJoins | src/lu/albert/android/contactbackup/BackupThread.java:163-169 | after k rendered rows the body is their texts joined by `",\n"`, plus a separator unless row k is the last |
| Backup.SuccessfulCount | src/lu/albert/android/contactbackup/BackupThread.java:163 | when every row renders, every row contributes a record |
| Backup.WellFormedDump | src/lu/albert/android/contactbackup/BackupThread.java:88-196 | when every row renders, the file is `"[\n"`, the N records joined by N-1 separators, then `"]\n"` |
| Backup.EmptyDump | src/lu/albert/android/contactbackup/BackupThread.java:94 | no rows give `"[\n]\n"` |
| Backup.TrailingSeparator | src/lu/albert/android/contactbackup/BackupThread.java:163-178 | if the last row fails to encode, the previous record's separator stays before the bracket |
| Backup.RowProgressShape | src/lu/albert/android/contactbackup/BackupThread.java:183-188 | message i is progress (i+1, n), one per row whether or not it encoded |
| Backup.PositionsOfRows | src/lu/albert/android/contactbackup/BackupThread.java:185 | the progress positions are 1..k |
| Backup.NoEarlyCompletion | src/lu/albert/android/contactbackup/BackupThread.java:185-186 | before the last row no message reaches the total |
| Backup.BackupProgress | src/lu/albert/android/contactbackup/BackupThread.java:183-188 | positions 1..n with total n strictly increase, and only the last message reports completion; none for no rows |
| Backup.BackupAsWritten | src/lu/albert/android/contactbackup/BackupThread.java:76-196 | the current writer as written leaves an empty file and posts nothing when its buffer size is not positive; when row j is the first whose record crashes on a missing cursor, it posts progress for the rows before j only and leaves the text up to row j if a record before j rendered and was flushed, else an empty file; otherwise, and in the older revision, it writes the dump and the row progress |
| Backup.FirstCrash | src/lu/albert/android/contactbackup/BackupThread.java:158-161 | the first row from a given one on whose record crashes as written, or the row count: every row before it builds, and it crashes |
| Backup.BodyPrefix | src/lu/albert/android/contactbackup/BackupThread.java:163-175 | the text after k rows begins with the text after any fewer rows |
| Backup.CrashTruncates | src/lu/albert/android/contactbackup/BackupThread.java:158-196 | after a crash on a missing cursor the file is a proper prefix of the intended dump, lacking its closing bracket, one message was posted per row before the crash, and none reports completion |
| Backup.FirstRowCrashWritesNothing | src/lu/albert/android/contactbackup/BackupThread.java:158-175 | a crash on the first row leaves an empty file and no message although the stream opened, where the intended dump is not empty |
| Backup.EmptyStoreWritesNothing | src/lu/albert/android/contactbackup/BackupThread.java:76 | as written, an empty store gives an empty file, where `"[\n]\n"` is meant |
| Backup.OverflowingStoreWritesNothing | src/lu/albert/android/contactbackup/BackupThread.java:76 | as written, 2147484 rows overflow the size to a negative int, with the same effect |
| Backup.WriterOpensBelowOverflow | src/lu/albert/android/contactbackup/BackupThread.java:76 | from 1 to 2147483 rows the size is positive |
| Backup.MissingCursorCrashes | src/lu/albert/android/contactbackup/BackupThread.java:235-251 | the helpers as written (`ContactAsWritten`) crash exactly when one of the four queries returns no cursor, and otherwise build the corrected record; the corrected record has an empty photo array instead |
| RoundTrip.PhoneFieldsBack | src/lu/albert/android/contactbackup/RestoreThread.java:228-230 | a phone entry reads back exactly when its number is not null and `getInt` accepts its type text; then the insert has that type, the row's number and its primary flag |
| RoundTrip.PhoneBack | src/lu/albert/android/contactbackup/BackupThread.java:340-350 | the same for the entry the backup writes for a phone row |
| RoundTrip.PersonFieldsBack | src/lu/albert/android/contactbackup/RestoreThread.java:202-206 | the create request reads back exactly when the name (and, currently, times_contacted and a starred text `getInt` accepts) are present; the id comes back as decimal text |
| RoundTrip.PersonBack | src/lu/albert/android/contactbackup/RestoreThread.java:201-206 | the same for the record the backup writes |
| RoundTrip.NamelessContactUnreadable | src/lu/albert/android/contactbackup/RestoreThread.java:203 | a person written without a name throws "not found" for name when read back |
| RoundTrip.PhotoBack | src/lu/albert/android/contactbackup/RestoreThread.java:238-249 | with a decoder inverting the encoder, the first non-null photo comes back; the others are not read |
| RoundTrip.PhonesReadable | src/lu/albert/android/contactbackup/RestoreThread.java:219-231 | readable phone rows give a phone array whose every entry reads back as that row's insert |
| RoundTrip.InsertsBack | src/lu/albert/android/contactbackup/RestoreThread.java:219-232 | the phone loop inserts every readable row, in order |
| RoundTrip.StoreReadable | src/lu/albert/android/contactbackup/RestoreThread.java:194-251 | a store call whose getters all succeed does create + phones + (currently) photo, with no exception |
| RoundTrip.PhonesBack | src/lu/albert/android/contactbackup/RestoreThread.java:218-249 | a readable current record stores the create, the phone inserts and the photo step |
| RoundTrip.RecordBack | src/lu/albert/android/contactbackup/RestoreThread.java:194-251 | a current record restores as: create with the row's values, every phone row in order, the first photo |
| RoundTrip.LegacyInsertsBack | src/lu/albert/android/contactbackup/ContactBackup.java:407-421 | the older restore inserts the last row's number once per phone row, as mobile |
| RoundTrip.LegacyRecordBack | src/lu/albert/android/contactbackup/ContactBackup.java:392-421 | an older record restores as: create, then the last row's number once per phone row, as mobile; no photo |
| RoundTrip.ScanPiece | src/lu/albert/android/contactbackup/BackupThread.java:163-169 | what one row writes leaves the restore scanner between records and hands over that row's text, if any |
| RoundTrip.ScanBody | src/lu/albert/android/contactbackup/BackupThread.java:88-169 | after the opening bracket and k rows the scanner is between records and has handed over exactly the rendered records so far |
| RoundTrip.DumpSplits | src/lu/albert/android/contactbackup/RestoreThread.java:100-138 | the restore's brace counter cuts the backup file into exactly the records that rendered, in order |
| RoundTrip.SuccessfulFrom | src/lu/albert/android/contactbackup/BackupThread.java:163 | every record in the file is the rendering of some row |
| RoundTrip.RecordStores | src/lu/albert/android/contactbackup/RestoreThread.java:130 | one store log per people row |
| RoundTrip.StoredAllGathered | src/lu/albert/android/contactbackup/RestoreThread.java:128-130 | storing the file's records in order performs the rows' store logs in order |
| RoundTrip.RecordsHandled | src/lu/albert/android/contactbackup/RestoreThread.java:129-130 | if the parser gives back each record's fields, handling the text stores that record |
| RoundTrip.RenderedRestorable | src/lu/albert/android/contactbackup/RestoreThread.java:129-135 | a record that parses back, stores cleanly and has a name is accepted by the restore |
| RoundTrip.RestoreOfDump | src/lu/albert/android/contactbackup/RestoreThread.java:83-186 | restoring a dump of accepted balanced records performs their store calls in order, names each once and posts no error message |
| RoundTrip.PhotoStepPasses | src/lu/albert/android/contactbackup/RestoreThread.java:238-249 | the photo step never throws on a record the current backup wrote, whatever the decoder returns |
| RoundTrip.RowStoresCleanly | src/lu/albert/android/contactbackup/RestoreThread.java:194-251 | a record whose create request and phone rows read back (older revision: whose last phone row has a number, if there is one) stores without an exception and has a name, whatever the store and decoder answer |
| RoundTrip.RestorableRowsStoreCleanly | src/lu/albert/android/contactbackup/RestoreThread.java:194-251 | when every people row is restorable, every rendered record stores cleanly (`StoresCleanly`) |
| RoundTrip.BackupThenRestore | src/lu/albert/android/contactbackup/BackupThread.java:54-205 | for restorable rows, backing up then restoring performs the store calls of exactly the rendered records, in row order, names each once and posts no error message |

## Left out

- Threads, `Handler`, `Message`/`Bundle` and the `setState` flag are concurrency plumbing. The posted messages are an event log, and the flag is never read.
- The dialogs, menus, listeners, `onCreate`, `deleteDump` and `LicenseViewer` are UI, outside the core.
- Files and streams are out: opening, reading, writing, flushing and closing. The restore reads a `string`; the backup produces one. An `IOException` or `FileNotFoundException` is not modelled, nor the error message the current restore posts for one.
- The restore's `total` is a parameter. The code passes the file length in bytes while it counts characters; the two agree only for single-byte text.
- Restore.ReadStream counts Dafny characters (Unicode scalar values), while `InputStreamReader.read()` returns UTF-16 code units (RestoreThread.java:94, 140-141). The model equates the two. A character outside the Basic Multilingual Plane, such as an emoji in a name, is two reads in the code and one step here, which shifts the 100-character progress positions and the count behind `Restore.CompletionCount`. A lone surrogate in the input cannot be represented at all.
- `RestoreThread.run` deletes every person before reading. That delete is a store call outside the reading loop and is not part of the operation log.
- The contacts store and its queries are given as `Contacts`: rows in id order, and each child query as a function of the id. `createPersonInMyContactsGroup` is `Env.create`. Inserts and photo writes are entries of the operation log.
- JSON parsing and `toString(3)` are the parameters `Env.parse` and `Render`. They may fail. JSON syntax itself is not verified.
- JSON numbers are integers (`JInt`). A fractional number in a hand-edited dump, which the library's `getInt` would truncate, cannot be represented.
- Json.AsString and Json.GetString: an array or object value throws, where the library returns its JSON text. Rendering JSON text is a parameter (`Render`), and the library's key order is unspecified, so that text is not modelled.
- Json.StringAt: an array or object element throws, where the library's `getString(i)` returns its JSON text. The backup writes only strings into the photo array, so only a hand-edited dump differs.
- Json.ParseInt: the library parses the text as a Java double before the cast. The model accepts the plain decimals (trimmed, an optional sign, digits with an optional fraction). It refuses exponents, `NaN`, `Infinity`, hexadecimal floats and the `f`/`d` suffixes, which the library accepts. It also truncates the exact fraction, while the library first rounds to a double, so a text like `1.99999999999999999` reads as 2 there and 1 here.
- The current restore posts its error message under `ContactBackup.RESTORE_SHOW_ERROR` (RestoreThread.java:253-258). ContactBackup.java defines only `RESTORE_MSG_PROGRESS` and `RESTORE_MSG_INFO` (lines 62-63), and its `restore_handler` (lines 92-117) has no case for an error message. The model records the posted message as an `Error` event and claims nothing about how, or whether, it is displayed.
- Base64 is the parameters `encode` and `Env.decode`. Its round trip is a hypothesis of `RoundTrip.PhotoBack`.
- Backup.AppendContactMethods, Backup.AppendPhotos, Backup.AppendPhoneNumbers, Backup.AppendOrganizations and Backup.LegacyAppendPhoneNumbers require that the record carries an id readable by `getInt`. `BackupThread.run` always puts it first. The helpers would throw without it; the model does not represent that throw.
- Backup.Run models a JSON exception from `put` or `toString(3)` only as a failed rendering (`Render` returning `None`). `put` with a string value cannot throw, so no other source of that exception is modelled.
- Backup.LegacyAppendPhoneNumbers, Backup.AppendPhotos and Backup.BuildContact read a missing cursor as no rows in the older revision too. The older helpers call `getColumnIndex` on the cursor without a null check, so the older code would crash there; that crash is not modelled.
- RoundTrip.BackupThenRestore assumes that every rendered record is a balanced object (`ObjectTexts`). A brace inside a string value throws the count off: `BraceSplitter.BraceInStringCutsRecord` shows the record `{"n":"}"}` cut after its quoted brace, with the scan left below depth 0. It also assumes that the parser gives back the record's fields (`ParsesBack`). These two stand for the JSON library, which is not modelled. Its third hypothesis, `RowRestorable` for every people row, is a condition on the data, from which `RoundTrip.RestorableRowsStoreCleanly` proves that every record stores cleanly and has a name.
- Backup.BackupAsWritten: in the older revision it writes the whole dump, because the older helpers' crash on a missing cursor (`getColumnIndex` without a null check) is not modelled. A failing write or close, which the handlers catch, is not modelled either.
- Backup.Run's operation log records text only. Positions are unbounded integers, so the int/long casts of the handlers do not matter here.

## Findings

| source | as written | input that shows it | evidently intended | confidence | as-written member | corrected member |
|---|---|---|---|---|---|---|
| src/lu/albert/android/contactbackup/BackupThread.java:76 | the output buffer is sized `1000*count` in int arithmetic, and a buffered stream refuses a size that is not positive | an empty store (count 0), or 2147484 rows (the size overflows to a negative int): the thread dies before writing `"[\n"`, leaving an empty file and no progress message | any positive buffer size; an empty store gives `"[\n]\n"` | not executed | Backup.BackupAsWritten, Backup.EmptyStoreWritesNothing, Backup.OverflowingStoreWritesNothing | Backup.Run, Backup.EmptyDump, Backup.WellFormedDump |
| src/lu/albert/android/contactbackup/BackupThread.java:251 | each helper null-checks its cursor, attaches the array, then calls `cursor.close()` unconditionally (also lines 306, 357, 409) | a person whose photo query returns no cursor: the helper throws a NullPointerException, which nothing catches | attach an empty array and carry on, as the null check intends | not executed | Backup.ContactAsWritten, Backup.MissingCursorCrashes, Backup.CrashTruncates, Backup.FirstRowCrashWritesNothing | Backup.AppendPhotos, Backup.CollectionsPresent |
