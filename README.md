# Student record store, modelled in Dafny

This project models SRMS, a console student record management system in one
C source file, `project.cpp`. It keeps students in a text file, one line
`roll|name|marks` per student. A user logs in against a credentials file of
`user pass role` words. The role picks a menu: ADMIN adds, lists, searches,
updates and deletes; STAFF adds, lists and searches; every other role lists
and searches.

The model has these parts:

- `LineCodec` (`line_codec.dfy`): the text of one record line and the C
  routines that read it back. These are trimNewline, sanitizePipe, the
  tolower loops, the `strncpy` cut to a buffer, `strtok(…, "|")`, `atoi` and
  the `%d` rendering of the roll.
- `RecordFile` (`record_file.dfy`): pure functions that say what each
  operation computes over the lines of the student file.
  - `Records` lists the file; `FindByRoll` and `Matching` search it.
  - `AddResult`, `DeleteResult` and `UpdateResult` give each operation's new
    file and its outcome.
- `Store` (`store.dfy`): the class `RecordStore`. Its one field, `file`, is
  the student file: a sequence of lines, or `None` while the file does not
  exist.
  - The three scans (rollExists, nameExists, nameExistsExceptRoll) and the
    read operations are loops over the lines.
  - addStudent appends a line.
  - updateStudent and deleteStudent copy the file line by line into a
    temporary file and then replace it. Here that is a loop that builds the
    new sequence, then one assignment of `file`.
  - Each method is proved equal to its `RecordFile` function.
- `StoreProperties` (`store_properties.dfy`): lemmas about those functions.
  - Records read back as they were written.
  - Add, update and delete keep rolls unique for every input, so rolls stay
    unique through any run of calls from a missing file. They keep names
    unique up to case when the name is not empty.
  - Add then add is refused; delete then find finds nothing; delete is
    idempotent; update keeps a record on a name conflict.
  - A whole add/add/update/delete session ends with one record.
- `Login` (`login.dfy`): the credentials lookup, the three-attempt login
  loop and the role dispatch of the menus.
- `Wrappers` (`wrappers.dfy`): the `Option` datatype.

How the file is read. Every loop trims the line break, skips an empty line
and splits the rest with strtok on `|`. Runs of delimiters collapse, so a
line has no empty fields.

- The first token, through atoi, is the roll.
- The second token is the name; the third is the marks.
- A line with fewer than three tokens has no record. Listing, search and
  update skip it.
- The scans need fewer tokens: rollExists needs one, nameExists two.

How names are compared. Uniqueness checks cut both names to 199 bytes
and lower-case them, then compare the results (`NameKey`). The update
self-check compares the whole names with strcasecmp (`SameIgnoringCase`).
Search by name is a substring test (strstr) of the lower-cased query in the
cut, lower-cased name.

The model follows the code, including these behaviours a user may not expect:

- deleteStudent removes every line whose roll token reads as the roll, not
  only the first one.
- updateStudent writes back only lines that have roll, name and marks. Lines
  with fewer tokens are dropped from the file, not kept (`WellFormed`).
- A name conflict on update gives the same outcome as a missing roll
  (`NotFound`). There is no separate conflict outcome.
- deleteStudent drops every line without a token and every line holding the
  roll. It keeps lines that have a roll but no name or marks.

One quirk of the code is proved rather than corrected: an add with an empty
name succeeds. Its line `roll||marks` reads back as two tokens, so:

- the roll is taken, but the listing does not show the student
  (`AddEmptyNameInvisible`);
- the marks sit in the name position, and nameExists sees them as a name.
  A second line can then carry a name that already exists
  (`EmptyNameCanDuplicateName`).

An update to an empty name is not refused either. Every line of the roll
that has roll, name and marks is rewritten as `roll||marks`, and the outcome
is success exactly when search by roll found the student. Afterwards search
by roll and the listing no longer show the student, yet rollExists still
sees the roll (`UpdateEmptyNameInvisible`). The lemmas that read a record
back or keep names unique take a non-empty name for this reason. Rolls stay
unique whatever the name.

## Model

| member | source | states |
|---|---|---|
| LineCodec.Trimmed | project.cpp:403-408 | the result is a prefix of the input and does not end in '\n' or '\r' |
| LineCodec.TrimmedRemovesLineBreaks | project.cpp:403-408 | every character trimmed off the end is '\n' or '\r' |
| LineCodec.TrimNewline | project.cpp:403-408 | the loop that shrinks the string from the end returns exactly the trimmed string |
| LineCodec.Sanitized | project.cpp:433-435 | same length, and no delimiter left |
| LineCodec.SanitizedChars | project.cpp:433-435 | every delimiter became a space and every other character is unchanged |
| LineCodec.SanitizePipe | project.cpp:433-435 | the in-place loop over the name buffer leaves the sanitised name in it |
| LineCodec.SanitizedIdempotent | project.cpp:433-435 | sanitising an already sanitised name changes nothing |
| LineCodec.Lowered | project.cpp:469-470 | the tolower loop (also at lines 269, 295 and 487-488) keeps the length of the text |
| LineCodec.LoweredChars | project.cpp:469-470 | each character of the lower-cased text is the C-locale tolower of the original, and no upper-case ASCII letter remains |
| LineCodec.LowerInPlace | project.cpp:469-470 | the tolower loop over a buffer leaves the lower-cased text in it |
| LineCodec.Truncated | project.cpp:466-468 | strncpy into a buffer of n + 1 bytes keeps a prefix of at most n characters, and all of a string that fits |
| LineCodec.NameKey | project.cpp:466-470 | a name's key is at most 199 bytes long and no longer than the name, and a name that fits is only lower-cased |
| LineCodec.LowerCopy | project.cpp:466-470 | copying a name into a NAME_MAX buffer and lower-casing it yields the cut, lower-cased name |
| LineCodec.SameIgnoringCase | project.cpp:339 | strcasecmp reports equal texts as equal, and equal texts up to case have the same length |
| LineCodec.SameIgnoringCaseKey | project.cpp:484-490 | names equal up to case (strcasecmp) also compare equal after the cut and the tolower loop |
| LineCodec.Contains | project.cpp:297 | strstr finds the empty needle in every text, and never a needle longer than the text |
| LineCodec.Tokens | project.cpp:217-225 | the strtok loop on the delimiter, which skips runs of delimiters, returns no more tokens than the text has characters |
| LineCodec.TokenLengthRun | project.cpp:217-225 | a token runs up to the first delimiter: none of its characters is one |
| LineCodec.TokensShape | project.cpp:217-225 | the strtok tokens of a line are non-empty and hold no delimiter |
| LineCodec.LeadingDelimiterSkipped | project.cpp:217-221 | strtok skips a leading delimiter: the line made of a delimiter, Bob, a delimiter and 3 splits into "Bob" and "3" |
| LineCodec.Atoi | project.cpp:219 | atoi reads a negative value only when a minus sign follows the leading white space |
| LineCodec.AtoiWithoutDigits | project.cpp:219 | every text in which no digit follows the leading white space and the optional sign reads as 0 |
| LineCodec.AtoiOfName | project.cpp:219 | the roll token Bob reads as roll 0 |
| LineCodec.IntToString | project.cpp:190 | the `%d` rendering of the roll is never empty and starts with a minus sign exactly when the roll is negative |
| LineCodec.FormatLine | project.cpp:190 | the line addStudent writes is at least three characters longer than the name and marks it holds: two delimiters and the roll's digits |
| LineCodec.AtoiIntToString | project.cpp:190 | atoi reads back every roll that `%d` writes, negative ones included |
| LineCodec.FormatLineSingleLine | project.cpp:190 | the line addStudent writes holds no line break when the name has none |
| LineCodec.FieldsOfFormatLine | project.cpp:190 | a written line with a non-empty, delimiter-free name splits back into exactly roll text, name and marks |
| LineCodec.FieldsOfFormatLineEmptyName | project.cpp:190 | a written line with an empty name splits into two tokens only, the marks taking the name's place |
| RecordFile.RecordOf | project.cpp:217-225 | a line has a record exactly when it has at least three tokens; the record's roll is what rollExists reads and its name is the second token |
| RecordFile.Records | project.cpp:196-232 | the listing is never longer than the file |
| RecordFile.RecordsFromLines | project.cpp:208-229 | every record the listing shows is the record of some line of the file |
| RecordFile.LinesListed | project.cpp:208-229 | every line with roll, name and marks has its record in the listing |
| RecordFile.FindByRoll | project.cpp:239-264 | search by roll finds only a record with the roll it was given |
| RecordFile.FindByRollFirst | project.cpp:245-261 | search by roll finds nothing exactly when no line has a record of that roll, and otherwise the record of the first such line |
| RecordFile.Matching | project.cpp:265-304 | search by name never shows more records than the listing |
| RecordFile.MatchingExactly | project.cpp:279-302 | search by name lists exactly the records whose cut, lower-cased name contains the lower-cased query |
| Store.RecordStore.RollExists | project.cpp:438-458 | true exactly when some line's first token reads as the roll; a missing file has none |
| Store.RecordStore.SplitLine | project.cpp:443-449 | trim, skip an empty line and split: the tokens every loop works on |
| Store.RecordStore.NameExists | project.cpp:461-498 | true exactly when some line's name token equals the name after both are cut to 199 bytes and lower-cased |
| Store.RecordStore.NameTokenIsExcept | project.cpp:520-533 | one line holds the name for a roll other than the given one |
| Store.RecordStore.NameExistsExceptRoll | project.cpp:501-541 | true exactly when a line of another roll holds the name, up to case and the 199-byte cut |
| Store.RecordStore.ReadRecord | project.cpp:245-255 | one line parsed into its record, or nothing when it lacks a token |
| Store.RecordStore.DisplayStudents | project.cpp:196-232 | the records listed are the file's records in file order; a missing file lists none |
| Store.RecordStore.SearchByRoll | project.cpp:239-264 | the record found is the first of that roll in file order, or none |
| Store.RecordStore.SearchByName | project.cpp:265-304 | the records shown are the matching records in file order |
| Store.RecordStore.MatchLine | project.cpp:285-297 | one line contributes its record exactly when it has one whose name matches the query |
| Store.RecordStore.AddStudent | project.cpp:165-193 | refuses an existing roll, then an existing sanitised name, and otherwise appends one line with the roll, the sanitised name and the marks; the file stays one line per element |
| Store.RecordStore.DeleteStep | project.cpp:371-383 | one line is skipped when it holds the roll or has no token, and otherwise written trimmed; reports whether it held the roll |
| Store.RecordStore.DeleteLine | project.cpp:370-384 | one turn of the copy loop: the copy so far is the file's first lines without the roll, and found says whether they held it |
| Store.RecordStore.CopyWithout | project.cpp:370-384 | the copy is the file without its lines of the roll and without its token-less lines; found says whether a line held the roll |
| Store.RecordStore.DeleteStudent | project.cpp:362-393 | a missing file is an error and stays missing; otherwise the file becomes its copy without the roll, and the outcome says whether the roll was there |
| Store.RecordStore.UpdateStep | project.cpp:320-348 | a line without three tokens is dropped; a line of the roll is rewritten unless the new name conflicts; every other line is written back trimmed |
| Store.RecordStore.CopyLine | project.cpp:319-350 | one turn of the copy loop: what is written so far, followed by the update of the remaining lines, is the update of the whole file |
| Store.RecordStore.CopyWithUpdate | project.cpp:319-350 | the copy is the file with every rewritable line of the roll rewritten, conflicts checked against the file as it was |
| Store.RecordStore.UpdateStudent | project.cpp:311-359 | a missing file is an error and stays missing; otherwise the file becomes its updated copy, and the outcome says whether a line was rewritten |
| StoreProperties.FieldsOfTrimmed | project.cpp:383 | a line written back trimmed reads as the same tokens and the same record |
| StoreProperties.RollOfFormatLine | project.cpp:190 | the roll written by addStudent is the roll rollExists reads back |
| StoreProperties.ReadFormatLine | project.cpp:190 | a written record with a non-empty name reads back as the same roll, name and marks |
| StoreProperties.EmptyNameLineHasNoRecord | project.cpp:190 | a record written with an empty name reads back as no record |
| StoreProperties.RecordsAppend | project.cpp:208-229 | the listing of two files joined is the two listings joined |
| RecordFile.AddResult | project.cpp:165-193 | RollTaken exactly when rollExists sees the roll; a refused add leaves the file as it was; an accepted add keeps every line and appends exactly one |
| RecordFile.KeptLines | project.cpp:370-384 | the delete copy never has more lines than the file |
| RecordFile.DeleteResult | project.cpp:362-393 | OpenFailed exactly when the file is missing, and a missing file stays missing |
| RecordFile.UpdatedLines | project.cpp:319-350 | the update copy never has more lines than the file |
| RecordFile.UpdateResult | project.cpp:311-359 | OpenFailed exactly when the file is missing, and a missing file stays missing |
| RecordFile.KeptLinesAppend | project.cpp:370-384 | the delete copy of two parts joined is the two copies joined |
| StoreProperties.HasRollConcat | project.cpp:438-458 | rollExists on two parts joined sees the roll exactly when it sees it in one part |
| StoreProperties.HasNameConcat | project.cpp:461-498 | nameExists on two parts joined sees the name exactly when it sees it in one part |
| StoreProperties.UniqueRollsCons | project.cpp:168 | rolls are unique in a file exactly when its first line's roll is not in the rest and the rest is unique |
| StoreProperties.UniqueNamesHead | project.cpp:177 | in a file with unique names the rest is unique and does not hold the first line's name |
| StoreProperties.UniqueNamesCons | project.cpp:177 | a first line whose name the unique rest does not hold keeps names unique |
| StoreProperties.AddThenRollTaken | project.cpp:168-171 | after an add, adding the same roll again is refused and changes nothing |
| StoreProperties.AddThenNameTaken | project.cpp:175-180 | after an add with a non-empty name, adding a name equal up to case under another roll is refused and changes nothing; when that roll is free the outcome is NameTaken |
| StoreProperties.AddAppendsRecord | project.cpp:184-190 | after an add with a non-empty name the listing is the old listing followed by the new record |
| StoreProperties.AddEmptyNameInvisible | project.cpp:173-190 | an add with an empty name succeeds and takes the roll, but the listing is unchanged |
| StoreProperties.AddKeepsRollsUnique | project.cpp:168-190 | addStudent preserves unique rolls |
| StoreProperties.AddKeepsNamesUnique | project.cpp:175-190 | addStudent preserves names unique up to case, for non-empty names |
| StoreProperties.EmptyNameCanDuplicateName | project.cpp:173-190 | with an empty name the add succeeds and leaves two lines with the same name token |
| StoreProperties.KeptLinesLackRoll | project.cpp:379-382 | after deleteStudent no line holds the roll |
| StoreProperties.NoRollNoRecord | project.cpp:245-261 | a file where no line holds the roll has no record of it |
| StoreProperties.DeleteThenFindNothing | project.cpp:362-393 | after a delete, rollExists and search by roll both find nothing for that roll |
| StoreProperties.DeleteKeepsOtherRecords | project.cpp:370-384 | the listing after a delete is the old listing without the roll's records, in the same order |
| StoreProperties.DeleteIdempotent | project.cpp:370-384 | deleting the same roll twice writes what deleting it once wrote |
| StoreProperties.KeptLinesAgainstCleaned | project.cpp:370-384 | a delete shortens the file beyond dropping token-less lines exactly when the roll was there, and otherwise only drops them |
| StoreProperties.DeleteOutcome | project.cpp:392 | the delete reports success exactly when it removed a line of the roll |
| StoreProperties.KeptLinesFromInput | project.cpp:370-384 | every roll and name left after a delete was in the file before |
| StoreProperties.KeptLinesRollsUnique | project.cpp:370-384 | the delete copy of a file whose rolls are unique has unique rolls |
| StoreProperties.KeptLinesNamesUnique | project.cpp:370-384 | the delete copy of a file whose names are unique up to case has unique names |
| StoreProperties.DeleteKeepsUnique | project.cpp:362-393 | deleteStudent keeps rolls unique, and keeps names unique when they were |
| StoreProperties.WithoutRollAppend | project.cpp:370-384 | dropping a roll's records from two listings joined is dropping them from each |
| StoreProperties.WellFormedRecords | project.cpp:325-330 | dropping the lines without three tokens loses no record |
| StoreProperties.WellFormedFindByRoll | project.cpp:325-330 | dropping the lines without three tokens changes no search by roll |
| StoreProperties.UpdateWithoutRewrite | project.cpp:319-350 | an update that rewrites nothing writes back every record line trimmed and drops the rest |
| StoreProperties.RewrittenLineReadsBack | project.cpp:344 | for a non-empty new name, a rewritten line reads back as the record of the roll with the new name and marks |
| StoreProperties.UpdateLeavesOtherRecords | project.cpp:347-348 | after an update, the records of every other roll are as before and in the same order |
| StoreProperties.SameAsTokenIsSanitized | project.cpp:337-339 | a new name equal up to case to a stored name is unchanged by sanitising |
| StoreProperties.UpdateSameNameSucceeds | project.cpp:338-345 | renaming a student to their own name, in any case, succeeds |
| StoreProperties.UpdateConflictKeepsRecord | project.cpp:339-341 | in a file whose rolls are unique, a new name held by another roll cancels the update: the outcome is NotFound, the file keeps only its record lines, and search still finds the old record |
| StoreProperties.UpdatedLinesFindNew | project.cpp:319-350 | in a file whose rolls are unique, once a line of the roll is rewritten with a non-empty name, search by roll in the copy finds the new record |
| StoreProperties.UpdateReadsBack | project.cpp:311-359 | in a file whose rolls are unique, a successful update with a non-empty name leaves search by roll finding the roll with the sanitised new name and the new marks |
| StoreProperties.NoLineHoldsEmptyName | project.cpp:512-537 | every stored name is a non-empty token, so nameExistsExceptRoll never finds the empty name |
| StoreProperties.UpdatedLineEmptyName | project.cpp:325-348 | with an empty new name, a line is rewritten exactly when it holds a record of the roll, and what is written holds the roll but no record of it |
| StoreProperties.UpdatedLinesEmptyName | project.cpp:319-350 | with an empty new name, no written line holds a record of the roll, and the roll stays in the file exactly when a line was rewritten |
| StoreProperties.UpdateEmptyNameInvisible | project.cpp:311-359 | an update to the empty name succeeds exactly when search by roll found the student; afterwards search by roll finds nothing, yet rollExists still sees the roll |
| StoreProperties.UpdatedLineFromInput | project.cpp:325-348 | for a non-empty new name, what the update writes for one line holds only that line's roll, and that line's name or the new name of a rewritten record |
| StoreProperties.UpdatedFromInput | project.cpp:319-350 | for a non-empty new name, every roll after an update was there before, and every name was there before or is the new name |
| StoreProperties.UpdatedLineRoll | project.cpp:325-348 | for any new name, the update writes at most one line for a line, and that line holds the roll of the line it came from |
| StoreProperties.UpdatedRollsFromInput | project.cpp:319-350 | for any new name, every roll after an update was in the file before |
| StoreProperties.UpdatedLinesRollsUnique | project.cpp:319-350 | for any new name, the empty one included, the rewriting loop keeps rolls unique |
| StoreProperties.UpdatedLinesUnique | project.cpp:319-350 | for a non-empty new name, the rewriting loop preserves unique rolls and unique names |
| StoreProperties.UpdateKeepsUnique | project.cpp:311-359 | updateStudent keeps rolls unique for every new name, and keeps names unique when they were and the new name is not empty |
| StoreProperties.CallKeepsRollsUnique | project.cpp:165-393 | one addStudent, updateStudent or deleteStudent, with any name, keeps rolls unique |
| StoreProperties.CallsKeepRollsUnique | project.cpp:165-393 | any run of adds, updates and deletes keeps rolls unique |
| StoreProperties.FromMissingFileRollsUnique | project.cpp:165-393 | from a missing student file, no run of adds, updates and deletes leaves two lines with one roll |
| StoreProperties.HasNameExceptCons | project.cpp:512-537 | nameExistsExceptRoll over a file is its first line's test or the test over the rest |
| StoreProperties.NameLineExceptKept | project.cpp:520-533 | one line holds the name for another roll exactly when delete keeps it and it holds the name |
| StoreProperties.NameExceptIsNameAfterDelete | project.cpp:501-541 | nameExistsExceptRoll(name, roll) answers what nameExists(name) answers on the file with the roll deleted |
| StoreProperties.NameExceptImpliesName | project.cpp:501-541 | a name nameExistsExceptRoll finds, nameExists finds too |
| StoreProperties.FindByRollInListing | project.cpp:239-264 | search by roll returns the first record of that roll in the listing displayStudents shows |
| StoreProperties.SearchEmptyQuery | project.cpp:297 | an empty query matches every record |
| StoreProperties.SearchIgnoresQueryCase | project.cpp:269 | the query's case does not change the matches |
| StoreProperties.SubstringMatches | project.cpp:292-297 | a name shorter than the buffer matches every substring of it, in any case |
| StoreProperties.SanitizedClean | project.cpp:433-435 | a name without a delimiter is stored as it is |
| StoreProperties.SessionScans | project.cpp:168-180 | in the session, the second add's roll and name are not in the file the first add wrote |
| StoreProperties.SessionAdds | project.cpp:165-193 | in the session, both adds succeed, each appending its own line |
| StoreProperties.SessionUpdate | project.cpp:311-359 | in the session, the update rewrites the first line and keeps the second |
| StoreProperties.SessionDelete | project.cpp:362-393 | in the session, the delete removes the second roll's line and the first record remains |
| StoreProperties.AddUpdateDeleteSession | project.cpp:165-393 | from no file: add, add another, update the first, delete the second; every step succeeds and one record remains, with the new marks |
| StoreProperties.BobAndCarol | project.cpp:165-393 | the same session for Bob and Carol with marks 88.50, 91.00 and 95.00 |
| Login.Lookup | project.cpp:67-78 | a granted session's role and user fit their 10- and 50-byte buffers |
| Login.LookupCredentials | project.cpp:67-78 | the fscanf loop returns the session of the first matching user and password triple, or nothing |
| Login.LookupFindsFirstMatch | project.cpp:68-77 | the lookup fails exactly when no triple matches, and otherwise grants the first matching triple's role and user, cut to their buffers |
| Login.LoginSystem | project.cpp:48-90 | three attempts counted down: a missing credentials file grants ADMIN localadmin, a match grants its session, three failures fail |
| Login.LoginFrom | project.cpp:48-90 | a session is granted only within the three attempts, and one read from the credentials file fits the role and user buffers |
| Login.LoginGrantsListedTriple | project.cpp:51-88 | with a credentials file, login fails exactly when none of the three attempts names a triple, and otherwise grants a listed triple's session |
| Login.LoginReadsThreeAttempts | project.cpp:51-57 | only the first three typed pairs matter |
| Login.MissingCredentialsGrantAdmin | project.cpp:59-65 | without a credentials file every login is ADMIN localadmin |
| Login.MainMenu | project.cpp:93-100 | only the roles ADMIN and STAFF, spelt exactly so, get a menu other than the guest menu |
| Login.Dispatch | project.cpp:102-161 | only choices 1 to 6 run an operation; logout is choice 6, 4 and 3 of the admin, staff and guest menus |
| Login.RolePermissions | project.cpp:93-161 | only ADMIN reaches update and delete; ADMIN and STAFF reach add; every role reaches display, search and logout |
| Login.RoleComparedAfterTruncation | project.cpp:70-71 | a role is cut to nine characters before the menu choice: ADMINISTRATOR becomes ADMINISTR and gets the guest menu, and so does a lower-case admin |

## Left out

- Store.RecordStore.AddStudent: the name is taken as readLine leaves it, under 200 characters with no line break. The marks are taken as the text `%.2f` writes: non-empty, with no '|' or line break. readLine and readFloat are not part of this model.
- Store.RecordStore.UpdateStudent: the same limits apply to the new name and marks. updateStudent prompts again for every line of the roll; the model uses one new name and one set of marks for all of them. The new marks are a parameter, which the code reads only when it rewrites the line.
- StoreProperties.AddKeepsNamesUnique: holds only for a non-empty name. With an empty name the marks take the name's place (EmptyNameCanDuplicateName shows the duplicate).
- StoreProperties.UpdateKeepsUnique: keeps names unique only for a non-empty new name, for the same reason. Rolls stay unique for every new name.
- Marks are floats in the code: written with `%.2f` and read with atof. The model carries them as the text on the line. Float rounding and atof are not modelled.
- Text is modelled as characters that stand for bytes, and ASCII text is assumed. The code counts bytes in its limits: the 199-byte name cut, 511 bytes per line, 9 bytes for the role and 49 for the user. A name in a multi-byte encoding such as UTF-8 is cut at another place than the model cuts it, and tolower and strcasecmp act only on ASCII letters.
- atoi: the model computes the exact value. Overflow of a 32-bit int, undefined in C, is not modelled.
- fgets reads at most 511 bytes per line. A longer line is split into several lines, and the copies into the 512-byte `copy` buffer are cut the same way. The model takes every line whole.
- A final line without a line break is read like the others. The file is a sequence of lines, so this case is not told apart. addStudent then opens the file for appending and writes the new record onto the end of that line: `1|A|2.00` becomes `1|A|2.002|B|3.00`. `AddResult` appends a separate line instead.
- The credentials file is modelled as its sequence of whitespace-separated words. How fscanf splits words, and how `%49s` and `%19s` cut longer words into several, is not modelled.
- Typed input is modelled as whole strings. fgets cutting an over-long username, password, name or query, and leaving the rest for the next read, is not modelled.
- Failures to open the temporary file, to append to the student file, or to remove or rename files are not modelled. A rewrite is modelled as replacing the file in one step. Only a missing student file is an error path.
- updateStudent and deleteStudent create temp.txt even when the student file is missing. That side effect is not modelled.
- Console output is not modelled: the printf tables, messages and prompts. Display and search return their records instead of printing them.
- The menu loops and readInt's retry on invalid input are not modelled. A menu is modelled as its choice-to-operation switch (`Dispatch`).
- The globals currentRole and currentUser become the `Session` that login returns.
