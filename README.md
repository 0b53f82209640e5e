# Study group registries

This project models the data core of two study-group manager programs, written in Java. Each
program has a registry of study groups. A study group has a name, a subject and an ordered list
of members. The two programs declare their own `StudyGroup` and `Student` classes, so each one is
modelled in its own module:

- `StudyGroupPlatform` (`src/StudyGroupPlatform.java`) is the indexed registry. It keeps the
  group list, a set of group names and a map from subject to that subject's groups. It loads
  and saves a file of `name,subject` lines through `CSVHandler`. Create checks for empty fields and
  for an exact duplicate name. Search looks a subject up in the map.
- `StudyPlatform` (`src/StudyPlatform.java`) is the flat registry. Members carry an email
  address, which must match `^[A-Za-z0-9+_.-]+@(.+)$`. Create and join trim their inputs and
  look groups up by name, ignoring case. The whole list is kept in a snapshot file. A
  `name,subject` file is also read at start-up, and the snapshot load then replaces what it gave.
  The "view" button renders the groups and their members as text.

`JavaText` models the parts of `java.lang.String` that both programs rely on:

- `split(",")`, which drops trailing empty fields;
- `trim()`;
- `equalsIgnoreCase`, with ASCII case folding;
- the decimal rendering of a member count.

`Wrappers` holds `Option` and `Result`.

Objects that the Java code updates in place are Dafny classes. A `StudyGroup`'s member list is a
`seq` field, and `addMember` reassigns it. Each `Platform` keeps its fields as `seq`, `set` and
`map`. The indexed registry's `Valid()` says that the name set and the subject map are exactly
the ones that one in-order pass over the list builds. `BuiltStructuresMatch` proves that this
pass gives the set of the list's names, and maps each subject to its groups in list order.
Loading establishes `Valid()` and create preserves it. The file codecs are pure functions over
text, and the Java loops that read and write are methods proved against them.

File I/O becomes parameters and fields:

- A file that can be read is `Some(text)` or `Some(lines)`. An `IOException` on reading is
  `None`.
- A failed write is a `writeFails: bool` argument.
- The snapshot file is the field `StudyPlatform.Platform.dataFile`, which holds the last saved
  list of group records.
- `BufferedWriter.newLine` writes the platform's line separator, which is the `LineSeparator`
  argument (LF or CRLF). `BufferedReader.readLine` splits on `\n`, `\r` and `\r\n`, and
  `NextLine` models that.

## Model

| member | source | states |
|---|---|---|
| `StudyGroupPlatform.StudyGroup.constructor` | src/StudyGroupPlatform.java:24-28 | a new group has the given name and subject and no members |
| `StudyGroupPlatform.StudyGroup.AddMember` | src/StudyGroupPlatform.java:35-37 | the student is appended to the end of the member list |
| `StudyGroupPlatform.StudyGroup.Label` | src/StudyGroupPlatform.java:45-47 | the list label is the group name, then " : ", then the subject |
| `StudyGroupPlatform.EncodeLine` | src/StudyGroupPlatform.java:115 | a group's line is its name, a comma at the name's length, then its subject |
| `StudyGroupPlatform.Encode` | src/StudyGroupPlatform.java:112-119 | the file is empty exactly when there are no groups, and otherwise it ends with a line break |
| `StudyGroupPlatform.NextLine` | src/StudyGroupPlatform.java:97 | `readLine` returns a line with no line break and consumes at least one character |
| `StudyGroupPlatform.ReadLines` | src/StudyGroupPlatform.java:97 | no line contains a line break, there are no more lines than characters, and there are none exactly when the file is empty |
| `StudyGroupPlatform.DecodeLine` | src/StudyGroupPlatform.java:98-99 | an accepted line contains a comma; its name is the text before the first comma; neither field contains a comma |
| `StudyGroupPlatform.DecodeLines` | src/StudyGroupPlatform.java:97-101 | a successful read gives one row per line, row k being line k's decoding; a failure names the first short line of the input, every earlier line being accepted |
| `StudyGroupPlatform.Decode` | src/StudyGroupPlatform.java:92-104 | a successful read gives one row per line read, each without commas; a failure names the first line read that is short |
| `StudyGroupPlatform.WriteStudyGroups` | src/StudyGroupPlatform.java:112-119 | the loop writes exactly the encoding of the list's (name, subject) rows, each line followed by the separator, and no members |
| `StudyGroupPlatform.WrittenLines` | src/StudyGroupPlatform.java:112-119 | when read back, the written file has one line per group, in list order, and line k is group k's `name,subject` |
| `StudyGroupPlatform.AppendNewGroup` | src/StudyGroupPlatform.java:99-100 | one fresh group with no members, named and subjected as the line's row, is added at the end of the list |
| `StudyGroupPlatform.ReadStudyGroups` | src/StudyGroupPlatform.java:92-104 | the loop gives exactly what `Decode` gives: one fresh group with no members per line, in file order, or the first short line as the error |
| `StudyGroupPlatform.RoundTrip` | src/StudyGroupPlatform.java:92-119 | reading back what was written gives the same names and subjects in the same order, provided no field has a comma or line break and no subject is empty |
| `StudyGroupPlatform.DecodeEncodedLine` | src/StudyGroupPlatform.java:98-99 | a writable row's line decodes to that row |
| `StudyGroupPlatform.DecodeLineAccepts` | src/StudyGroupPlatform.java:98-99 | a line decodes exactly when some character after its first comma is not a comma, and the name is then the text before the first comma |
| `StudyGroupPlatform.DecodeLineNoComma` | src/StudyGroupPlatform.java:98-99 | a line without a comma (the empty line included) is short |
| `StudyGroupPlatform.DecodeLineOnlyCommasAfter` | src/StudyGroupPlatform.java:98-99 | a line with only commas after its first comma (for example `a,`) is short, because split drops the trailing empty fields |
| `StudyGroupPlatform.ShortLineExamples` | src/StudyGroupPlatform.java:98-99 | `""`, `"a"`, `"a,"` and `"a,,"` are short lines |
| `StudyGroupPlatform.DecodeLineIgnoresExtraFields` | src/StudyGroupPlatform.java:98-99 | `a,b,rest` decodes to name `a` and subject `b`, whatever `rest` is |
| `StudyGroupPlatform.DecodeLineSubject` | src/StudyGroupPlatform.java:98-99 | the subject of an accepted line is the text between its first and second comma, or the end of the line, and so may be empty |
| `StudyGroupPlatform.EmptySubjectBreaksNextLoad` | src/StudyGroupPlatform.java:92-119 | `a,,b` loads as group `a` with an empty subject; written back, that group becomes the line `a,`, which the next read rejects as short |
| `StudyGroupPlatform.AcceptedLineExamples` | src/StudyGroupPlatform.java:98-99 | `"a,b,c"` decodes to (a, b) and `",b"` to an empty name with subject b |
| `StudyGroupPlatform.AddToIndex` | src/StudyGroupPlatform.java:159 | `computeIfAbsent(subject, ...).add(group)` adds the subject as a key, makes a new subject's bucket exactly `[group]`, appends the group to the end of an existing bucket, and leaves every other bucket unchanged |
| `StudyGroupPlatform.BucketMembers` | src/StudyGroupPlatform.java:241-249 | a subject's bucket holds exactly the listed groups with that subject |
| `StudyGroupPlatform.BucketConcat` | src/StudyGroupPlatform.java:273-276 | buckets keep list order: the bucket of a concatenation is the concatenation of the buckets |
| `StudyGroupPlatform.BucketEmptyIffAbsent` | src/StudyGroupPlatform.java:243 | a bucket is empty exactly when no listed group has that subject |
| `StudyGroupPlatform.IndexAfterAppend` | src/StudyGroupPlatform.java:273-276 | appending a group to the list and adding it to the end of its subject's bucket (created when absent) keeps the map equal to the list's in-order subject index |
| `StudyGroupPlatform.NamesAfterAppend` | src/StudyGroupPlatform.java:273-275 | appending a group adds exactly its name to the list's names |
| `StudyGroupPlatform.BuiltStructuresMatch` | src/StudyGroupPlatform.java:155-160 | the name set built one group at a time is the set of the list's names, and the map built with `computeIfAbsent(...).add` sends each subject of the list, and no other, to its groups in list order |
| `StudyGroupPlatform.SearchExample` | src/StudyGroupPlatform.java:241-249 | after groups with subjects Math, Art, Math, the Math bucket is the first and third group, in creation order |
| `StudyGroupPlatform.Platform.constructor` | src/StudyGroupPlatform.java:139-147 | the registry is consistent, and it holds the file's rows when the file decodes; it is empty when the file is unreadable or has a short line |
| `StudyGroupPlatform.Platform.LoadStudyGroups` | src/StudyGroupPlatform.java:153-164 | an unreadable file leaves the registry empty; a short line is reported and leaves it empty; otherwise the list is the decoded rows, each group with no members, and the three structures agree |
| `StudyGroupPlatform.Platform.IndexStudyGroups` | src/StudyGroupPlatform.java:156-160 | the loop fills the empty name set and subject map so that they agree with the unchanged list |
| `StudyGroupPlatform.Platform.IndexGroup` | src/StudyGroupPlatform.java:158-159 | one group's name is added to the set and the group is appended to its subject's bucket |
| `StudyGroupPlatform.Platform.Search` | src/StudyGroupPlatform.java:240-250 | the result is found exactly when some group has that exact subject; the result is that subject's non-empty bucket in list order; nothing changes |
| `StudyGroupPlatform.Platform.Register` | src/StudyGroupPlatform.java:273-276 | the group is appended to the list, its name to the set and the group to its bucket, and the structures still agree |
| `StudyGroupPlatform.Platform.Create` | src/StudyGroupPlatform.java:253-283 | an empty field is rejected, and otherwise a duplicate name (exact match) is rejected; a rejection changes nothing. On success one fresh group holding only the founder is appended to the list, the set and the bucket. No existing group's members change, and the file gets the whole list unless the write fails, which does not undo the append |
| `JavaText.JoinOfFields` | src/StudyGroupPlatform.java:98 | joining the fields of a string with the separator gives the string back |
| `JavaText.FieldsOfJoin` | src/StudyGroupPlatform.java:98 | splitting a join of separator-free fields gives the fields back |
| `JavaText.SplitTwoFields` | src/StudyGroupPlatform.java:98 | `a,b` with no comma in either field and `b` non-empty splits into exactly `[a, b]` |
| `JavaText.Split` | src/StudyGroupPlatform.java:98 | no part contains the separator; a string without it gives one part; two or more parts need a separator; the first part is the text before the first separator |
| `JavaText.SplitSecond` | src/StudyGroupPlatform.java:98 | the second part of a split is the text between the first and the second separator, or the end of the string |
| `JavaText.Trim` | src/StudyPlatform.java:147-150 | the result neither starts nor ends with a blank, is empty exactly when the input is all blanks, and holds only characters of the input |
| `JavaText.TrimUnchanged` | src/StudyPlatform.java:147-150 | text that neither starts nor ends with a blank is its own trim |
| `JavaText.EqualsIgnoreCase` | src/StudyPlatform.java:163 | names equal ignoring case have the same length, and equal names are equal ignoring case |
| `JavaText.Decimal` | src/StudyPlatform.java:66 | the count is rendered as at least one decimal digit, with no leading zero |
| `JavaText.TrimSplitsBlanks` | src/StudyPlatform.java:147-150 | trim keeps one contiguous middle part and removes only blanks (characters up to U+0020) around it |
| `JavaText.TrimIdempotent` | src/StudyPlatform.java:147-150 | trimming twice is trimming once |
| `JavaText.EqualsIgnoreCaseIsFold` | src/StudyPlatform.java:163 | two names are equal ignoring case exactly when their lower-case folds are equal |
| `JavaText.EqualsIgnoreCaseTransitive` | src/StudyPlatform.java:196 | equality ignoring case is transitive |
| `JavaText.DecimalRoundTrip` | src/StudyPlatform.java:66 | the decimal digits of a member count read back as that count |
| `StudyPlatform.Student.ToString` | src/StudyPlatform.java:30-33 | the member text is the name, " (", the email, then ")" |
| `StudyPlatform.StudyGroup.constructor` | src/StudyPlatform.java:42-46 | a new group has the given name and subject and no members |
| `StudyPlatform.StudyGroup.Record` | src/StudyPlatform.java:37-41 | the snapshot of a group holds its name, its subject and its whole member list |
| `StudyPlatform.StudyGroup.AddMember` | src/StudyPlatform.java:56-58 | the student is appended to the end of the member list |
| `StudyPlatform.GroupHeading` | src/StudyPlatform.java:64-67 | the heading starts with the group name and ends with ")" |
| `StudyPlatform.GroupHeadingShape` | src/StudyPlatform.java:64-67 | a group's heading is its name, " - ", its subject, " (", decimal digits that read back as the member count, then the count suffix and ")" |
| `StudyPlatform.IsValidEmail` | src/StudyPlatform.java:138-143 | an accepted address has at least three characters, starts with a local character, contains `@`, and does not end with a line terminator |
| `StudyPlatform.IsValidEmailMatchesPattern` | src/StudyPlatform.java:138-143 | the one-pass check accepts exactly what the pattern matches: one or more of `[A-Za-z0-9+_.-]`, `@`, then one or more characters that are not line terminators |
| `StudyPlatform.EmailAccepted` | src/StudyPlatform.java:138-143 | `a@b` is a valid address |
| `StudyPlatform.EmailAcceptedSecondAt` | src/StudyPlatform.java:138-143 | a second `@` after the first is allowed, because the domain part excludes only line terminators |
| `StudyPlatform.EmailRejected` | src/StudyPlatform.java:138-143 | `""`, `noatsign`, `@b` and `a@` are rejected |
| `StudyPlatform.EmailRejectedSpace` | src/StudyPlatform.java:138-143 | a space before the `@` is rejected |
| `StudyPlatform.FirstMatch` | src/StudyPlatform.java:194-200 | the result is the first position whose name equals the key ignoring case, and it is absent exactly when no name does |
| `StudyPlatform.MemberLines` | src/StudyPlatform.java:218-220 | the member lines are empty exactly when there are no members, take at least 8 characters per member, and end with a line break |
| `StudyPlatform.GroupBlock` | src/StudyPlatform.java:217-220 | a group's block starts with its heading, then a line break, and ends with a line break |
| `StudyPlatform.Render` | src/StudyPlatform.java:214-222 | the listing is empty exactly when there are no groups, and otherwise ends with a line break |
| `StudyPlatform.MemberLinesCount` | src/StudyPlatform.java:218-220 | the member part of a block has one line per member |
| `StudyPlatform.RenderLineCount` | src/StudyPlatform.java:214-222 | when no group name, subject, member name or email contains `\n`, the listing has exactly one line per group plus one per member |
| `StudyPlatform.AppendGroupBlock` | src/StudyPlatform.java:217-220 | the inner loop appends the group's heading line followed by one `  - member` line per member |
| `StudyPlatform.ParseCsvLine` | src/StudyPlatform.java:238-241 | a line is accepted exactly when `split(",")` gives two parts; the fields then contain no comma, the name is the trimmed text before the first comma, and the subject is the trimmed text between the first and the second comma (or the end of the line) |
| `StudyPlatform.ParseCsvLineAccepts` | src/StudyPlatform.java:237-243 | a line `a,b` without other commas and with `b` non-empty gives the trimmed pair |
| `StudyPlatform.ParseCsvLineBlankSubject` | src/StudyPlatform.java:237-243 | a second field of blanks only is accepted and gives an empty subject |
| `StudyPlatform.BlankSubjectExample` | src/StudyPlatform.java:237-243 | `"a, "` loads as group `a` with subject "" |
| `StudyPlatform.ParseCsvLineTrailingComma` | src/StudyPlatform.java:238-241 | `a,b,` with a non-empty `b` is accepted like `a,b`, giving the trimmed pair, because split drops the empty last field |
| `StudyPlatform.ParseCsvLineRejectsTrailingComma` | src/StudyPlatform.java:238-239 | a name followed by one comma, such as `a,`, is skipped |
| `StudyPlatform.TrailingCommaExample` | src/StudyPlatform.java:238-241 | `"a,b,"` loads as group `a` with subject `b` |
| `StudyPlatform.OneCommaExample` | src/StudyPlatform.java:238-239 | `"a,"` is skipped |
| `StudyPlatform.ParseCsvLineRejectsNoComma` | src/StudyPlatform.java:238-246 | a line without a comma is skipped |
| `StudyPlatform.ParseCsvLineRejectsThreeFields` | src/StudyPlatform.java:238-246 | a line `a,b,c` whose last field `c` is not empty has three fields and is skipped |
| `StudyPlatform.CsvGroups` | src/StudyPlatform.java:237-246 | a file yields at most one group per line, and no loaded name or subject contains a comma |
| `StudyPlatform.CsvGroupsConcat` | src/StudyPlatform.java:237-246 | the groups of a file keep file order: two runs of lines give the first run's groups, then the second's |
| `StudyPlatform.CsvGroupsAllAccepted` | src/StudyPlatform.java:237-246 | when every line is accepted, group k comes from line k |
| `StudyPlatform.CsvGroupsMembers` | src/StudyPlatform.java:237-246 | a name and subject are loaded exactly when some line is accepted and yields them |
| `StudyPlatform.Platform.constructor` | src/StudyPlatform.java:79-83 | after start-up the list is a fresh copy of the snapshot, or empty when there is none, so groups from the CSV file never survive |
| `StudyPlatform.Platform.LoadGroupsFromCsv` | src/StudyPlatform.java:234-251 | the groups of the accepted lines, trimmed and with no members, are appended in file order; nothing is appended when the file cannot be read |
| `StudyPlatform.Platform.AppendGroups` | src/StudyPlatform.java:237-243 | one fresh group with no members is appended per name and subject, in order |
| `StudyPlatform.Platform.LoadGroups` | src/StudyPlatform.java:256-262 | the whole list is replaced by a copy of the snapshot, or by the empty list when there is none |
| `StudyPlatform.Platform.AppendCopy` | src/StudyPlatform.java:258 | a fresh group equal to the record is appended |
| `StudyPlatform.Platform.SaveGroups` | src/StudyPlatform.java:265-271 | the snapshot becomes the current list unless the write fails |
| `StudyPlatform.Platform.FindGroup` | src/StudyPlatform.java:194-200 | the scan with early exit returns the first group whose name equals the key ignoring case, or none; nothing changes |
| `StudyPlatform.Platform.CreateStudyGroup` | src/StudyPlatform.java:146-176 | the fields are trimmed. An empty field, an invalid email and a case-insensitive duplicate name each reject (each condition exactly characterised), and a rejection changes neither the list nor the file. On success exactly one fresh group with the single member (name, email) is appended, earlier groups stay, and the list is saved |
| `StudyPlatform.Platform.JoinStudyGroup` | src/StudyPlatform.java:179-211 | the fields are trimmed. An empty field, an invalid email and no case-insensitive match each reject (each exactly characterised) and change no group. On success exactly one member is appended to the first matching group. The list and every other group's members are unchanged, there is no duplicate check, and the list is saved |
| `StudyPlatform.Platform.DisplayGroups` | src/StudyPlatform.java:214-223 | the text built by the nested loops is the rendering of the groups in list order: a heading line per group, then a line per member |

## Left out

- The Swing user interface is not modelled: windows, panels, dialogs, the list model, the
  display area, clearing fields, the window listener and the `main` methods. What a dialog
  reports is modelled as an outcome value instead.
- The search also replaces the visible list with the bucket. The model returns the bucket and
  leaves out the list model.
- `src/GroupListPanel.java` is not part of this model. It is a Swing panel, and it depends on a
  `Group` class that is not available.
- Real file I/O is not modelled. File contents are parameters, and read failures are `None`.
  `Files.readAllLines` is taken as already having split the file into lines. A file that is not
  valid text makes `Files.readAllLines` fail, which is the same `None`. The `FileReader` of
  `CSVHandler` does not fail on such a file: it replaces the bad bytes and keeps reading, and
  the model's text parameter is taken to be that already-decoded text.
- Java object serialization is not modelled as a byte format. The snapshot is the list of group
  records itself, and a load either returns exactly what was saved or yields the empty list.
- `StudyPlatform.Platform.SaveGroups`: a write that fails after the file was opened can leave a
  truncated file, which would later load as empty. The model instead keeps the previous snapshot
  on every failed write.
- `StudyGroupPlatform.Platform.Create`: when the write fails part-way, the line file may be left
  partly written. The model reports the failure and leaves the file's contents unmodelled.
- `StudyGroupPlatform.Platform.constructor`: in Java, a short line throws an
  `ArrayIndexOutOfBoundsException`. That exception is not an `IOException`, so it escapes the
  constructor and no platform object is made. The model finishes construction with an empty,
  consistent registry, and `LoadStudyGroups` reports the failure as `Malformed`.
- `JavaText.EqualsIgnoreCase` folds only ASCII letters, where Java folds all of Unicode. Names
  that differ only in non-ASCII letter case are treated as different.
- `JavaText.Trim` works on UTF-16 code units as Java does, but Dafny's `char` is a Unicode
  scalar value. Surrogate pairs are not modelled.
- The email pattern is modelled as an explicit predicate instead of a regular-expression
  engine. Its line terminators are `\n`, `\r`, U+0085, U+2028 and U+2029, which `.` does not
  match by default.
- The delete button of `StudyGroupPlatform` has no handler in the source, so there is nothing to
  model.
