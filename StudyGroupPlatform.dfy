/** The indexed registry of StudyGroupPlatform.java: a list of study groups kept together with
    the set of their names and a map from subject to the groups of that subject, loaded from and
    saved to a file of `name,subject` lines. */
module StudyGroupPlatform {
  import opened Wrappers
  import JavaText

  /** A member: the founder's name and student id. */
  datatype Student = Student(name: string, studentId: string)

  /** A study group. Its name and subject are fixed at construction; only its member list grows. */
  class StudyGroup {
    const groupName: string
    const subject: string
    var members: seq<Student>

    constructor (groupName: string, subject: string)
      ensures this.groupName == groupName && this.subject == subject
      ensures members == []
    {
      this.groupName := groupName;
      this.subject := subject;
      members := [];
    }

    method AddMember(student: Student)
      modifies this
      ensures members == old(members) + [student]
    {
      members := members + [student];
    }

    /** The text shown for the group in the list: its name, a colon, its subject. */
    function Label(): (r: string)
      ensures |r| == |groupName| + 3 + |subject|
      ensures r[..|groupName|] == groupName
      ensures r[|groupName|..|groupName| + 3] == " : "
      ensures r[|r| - |subject|..] == subject
    {
      groupName + " : " + subject
    }
  }

  // ---------------------------------------------------------------------------------------
  // The row file: one `groupName,subject` line per group, no quoting, no members.
  // ---------------------------------------------------------------------------------------

  /** What one line of the file holds. */
  datatype Row = Row(groupName: string, subject: string)

  /** The only way reading the file fails once it is open: a line with fewer than two fields
      after splitting, which makes the read index past the end of the split array. */
  datatype ReadError = ShortLine(line: string)

  /** The line separator `BufferedWriter.newLine` writes: the platform's own. */
  datatype LineSeparator = LF | CRLF {
    function Text(): string
    {
      match this
      case LF => "\n"
      case CRLF => "\r\n"
    }
  }

  function RowsOf(groups: seq<StudyGroup>): (rows: seq<Row>)
    ensures |rows| == |groups|
    ensures forall k :: 0 <= k < |groups| ==>
              rows[k] == Row(groups[k].groupName, groups[k].subject)
  {
    seq(|groups|, k requires 0 <= k < |groups| => Row(groups[k].groupName, groups[k].subject))
  }

  /** One line of the file: the name, a comma, the subject. */
  function EncodeLine(row: Row): (line: string)
    ensures |line| == |row.groupName| + 1 + |row.subject|
    ensures line[|row.groupName|] == ','
    ensures line[..|row.groupName|] == row.groupName && line[|row.groupName| + 1..] == row.subject
  {
    row.groupName + "," + row.subject
  }

  /** The whole file as written: every row's line, each followed by the separator, in order. */
  function Encode(rows: seq<Row>, sep: LineSeparator): (text: string)
    ensures text == "" <==> rows == []
    ensures rows != [] ==> text[|text| - 1] == '\n'
  {
    if rows == [] then ""
    else EncodeLine(rows[0]) + sep.Text() + Encode(rows[1..], sep)
  }

  predicate IsReadLineBreak(ch: char)
  {
    ch == '\n' || ch == '\r'
  }

  function TerminatorIndex(t: string): (i: nat)
    ensures i <= |t|
    ensures i < |t| ==> IsReadLineBreak(t[i])
    ensures forall k :: 0 <= k < i ==> !IsReadLineBreak(t[k])
  {
    if t == [] then 0
    else if IsReadLineBreak(t[0]) then 0
    else 1 + TerminatorIndex(t[1..])
  }

  /** `BufferedReader.readLine` on non-empty remaining input: the text up to the first `\n`,
      `\r` or `\r\n`, and the input after that terminator. */
  function NextLine(t: string): (r: (string, string))
    requires t != ""
    ensures |r.1| < |t|
    ensures forall k :: 0 <= k < |r.0| ==> !IsReadLineBreak(r.0[k])
  {
    var i := TerminatorIndex(t);
    if i == |t| then (t, "")
    else if t[i] == '\r' && i + 1 < |t| && t[i + 1] == '\n' then (t[..i], t[i + 2..])
    else (t[..i], t[i + 1..])
  }

  /** The lines `readLine` returns until it returns null. */
  function ReadLines(t: string): (lines: seq<string>)
    ensures lines == [] <==> t == ""
    ensures |lines| <= |t|
    ensures forall j, k :: 0 <= j < |lines| && 0 <= k < |lines[j]| ==> !IsReadLineBreak(lines[j][k])
    decreases |t|
  {
    if t == "" then []
    else
      var (line, rest) := NextLine(t);
      [line] + ReadLines(rest)
  }

  /** One line read back: the first two fields of `line.split(",")`; further fields are ignored. */
  function DecodeLine(line: string): (r: Option<Row>)
    ensures r.Some? ==> ',' in line
    ensures r.Some? ==> ',' !in r.value.groupName && ',' !in r.value.subject
    ensures r.Some? ==> r.value.groupName == line[..JavaText.IndexOf(line, ',')]
  {
    var parts := JavaText.Split(line, ',');
    if |parts| >= 2 then Some(Row(parts[0], parts[1])) else None
  }

  function DecodeLines(lines: seq<string>): (r: Result<seq<Row>, ReadError>)
    ensures r.Ok? ==> |r.value| == |lines|
    ensures r.Ok? ==> forall k :: 0 <= k < |lines| ==> DecodeLine(lines[k]) == Some(r.value[k])
    ensures r.Err? ==> r.error.line in lines && DecodeLine(r.error.line).None?
    ensures r.Err? ==>
              exists k :: 0 <= k < |lines| && lines[k] == r.error.line &&
                forall j :: 0 <= j < k ==> DecodeLine(lines[j]).Some?
  {
    if lines == [] then Ok([])
    else match DecodeLine(lines[0])
      case None => Err(ShortLine(lines[0]))
      case Some(row) => Prepend([row], DecodeLines(lines[1..]))
  }

  function Prepend(rows: seq<Row>, r: Result<seq<Row>, ReadError>): Result<seq<Row>, ReadError>
  {
    match r
    case Ok(more) => Ok(rows + more)
    case Err(e) => Err(e)
  }

  /** What `readStudyGroups` makes of the file's text. */
  function Decode(text: string): (r: Result<seq<Row>, ReadError>)
    ensures r.Ok? ==> |r.value| == |ReadLines(text)|
    ensures r.Ok? ==> forall k :: 0 <= k < |r.value| ==>
              ',' !in r.value[k].groupName && ',' !in r.value[k].subject
    ensures r.Err? ==> r.error.line in ReadLines(text)
    ensures r.Err? ==>
              exists k :: 0 <= k < |ReadLines(text)| && ReadLines(text)[k] == r.error.line &&
                forall j :: 0 <= j < k ==> DecodeLine(ReadLines(text)[j]).Some?
  {
    DecodeLines(ReadLines(text))
  }

  /** A row the file can carry unchanged: no separator and no line break in either field, and
      a subject that is not empty (an empty last field is dropped by `split`). */
  predicate Writable(row: Row)
  {
    && ',' !in row.groupName && ',' !in row.subject
    && (forall k :: 0 <= k < |row.groupName| ==> !IsReadLineBreak(row.groupName[k]))
    && (forall k :: 0 <= k < |row.subject| ==> !IsReadLineBreak(row.subject[k]))
    && row.subject != ""
  }

  lemma {:induction false} EncodeAppend(rows: seq<Row>, row: Row, sep: LineSeparator)
    ensures Encode(rows + [row], sep) == Encode(rows, sep) + EncodeLine(row) + sep.Text()
  {
    var line := EncodeLine(row) + sep.Text();
    if rows == [] {
      assert rows + [row] == [row] && [row][1..] == [];
      assert Encode([row], sep) == line + Encode([], sep);
    } else {
      var longer := rows + [row];
      assert longer[0] == rows[0] && longer[1..] == rows[1..] + [row];
      var head := EncodeLine(rows[0]) + sep.Text();
      var middle := Encode(rows[1..], sep);
      EncodeAppend(rows[1..], row, sep);
      calc {
        Encode(longer, sep);
        head + Encode(rows[1..] + [row], sep);
        head + (middle + EncodeLine(row) + sep.Text());
        { JavaText.AppendAssoc(head, middle, line); }
        head + middle + line;
      }
    }
  }

  lemma TerminatorIndexOfLine(line: string, tail: string)
    requires forall k :: 0 <= k < |line| ==> !IsReadLineBreak(line[k])
    requires tail != [] && IsReadLineBreak(tail[0])
    ensures TerminatorIndex(line + tail) == |line|
  {
    var t := line + tail;
    assert t[|line|] == tail[0];
    assert forall k :: 0 <= k < |line| ==> t[k] == line[k];
  }

  /** Reading a written line gives the line back and leaves the input just after its separator. */
  lemma ReadWrittenLine(line: string, sep: LineSeparator, rest: string)
    requires forall k :: 0 <= k < |line| ==> !IsReadLineBreak(line[k])
    ensures ReadLines(line + sep.Text() + rest) == [line] + ReadLines(rest)
  {
    var t := line + sep.Text() + rest;
    TerminatorIndexOfLine(line, sep.Text() + rest);
    assert t == line + (sep.Text() + rest);
    assert t[..|line|] == line;
    match sep
    case LF =>
      assert t[|line| + 1..] == rest;
    case CRLF =>
      assert t[|line|] == '\r' && t[|line| + 1] == '\n';
      assert t[|line| + 2..] == rest;
  }

  lemma EncodedLineHasNoTerminator(row: Row)
    requires Writable(row)
    ensures forall k :: 0 <= k < |EncodeLine(row)| ==> !IsReadLineBreak(EncodeLine(row)[k])
  {
    var line := EncodeLine(row);
    forall k | 0 <= k < |line| ensures !IsReadLineBreak(line[k]) {
      if k < |row.groupName| {
        assert line[k] == row.groupName[k];
      } else if k > |row.groupName| {
        assert line[k] == row.subject[k - |row.groupName| - 1];
      }
    }
  }

  /** The file holds exactly one line per group, in list order, and each is the group's name
      and subject joined by a comma. */
  lemma {:induction false} WrittenLines(rows: seq<Row>, sep: LineSeparator)
    requires forall k :: 0 <= k < |rows| ==> Writable(rows[k])
    ensures |ReadLines(Encode(rows, sep))| == |rows|
    ensures forall k :: 0 <= k < |rows| ==> ReadLines(Encode(rows, sep))[k] == EncodeLine(rows[k])
  {
    if rows != [] {
      EncodedLineHasNoTerminator(rows[0]);
      ReadWrittenLine(EncodeLine(rows[0]), sep, Encode(rows[1..], sep));
      WrittenLines(rows[1..], sep);
    }
  }

  lemma DecodeEncodedLine(row: Row)
    requires Writable(row)
    ensures DecodeLine(EncodeLine(row)) == Some(row)
  {
    JavaText.SplitTwoFields(row.groupName, row.subject, ',');
    assert EncodeLine(row) == row.groupName + [','] + row.subject;
  }

  lemma {:induction false} DecodeLinesOfEncoded(rows: seq<Row>, lines: seq<string>)
    requires |lines| == |rows|
    requires forall k :: 0 <= k < |rows| ==> Writable(rows[k]) && lines[k] == EncodeLine(rows[k])
    ensures DecodeLines(lines) == Ok(rows)
  {
    if rows != [] {
      DecodeEncodedLine(rows[0]);
      DecodeLinesOfEncoded(rows[1..], lines[1..]);
      assert [rows[0]] + rows[1..] == rows;
    }
  }

  /** Round trip: reading back what was written gives the same names and subjects, in the same
      order, whenever every row is `Writable`. */
  lemma RoundTrip(rows: seq<Row>, sep: LineSeparator)
    requires forall k :: 0 <= k < |rows| ==> Writable(rows[k])
    ensures Decode(Encode(rows, sep)) == Ok(rows)
  {
    WrittenLines(rows, sep);
    DecodeLinesOfEncoded(rows, ReadLines(Encode(rows, sep)));
  }

  /** A line without a comma, the empty line included, is short. */
  lemma DecodeLineNoComma(line: string)
    requires ',' !in line
    ensures DecodeLine(line) == None
  {
  }

  /** A line with nothing but commas after its first comma is short. */
  lemma DecodeLineOnlyCommasAfter(name: string, commas: nat)
    requires ',' !in name
    ensures DecodeLine(name + seq(commas + 1, _ => ',')) == None
  {
    var line := name + seq(commas + 1, _ => ',');
    JavaText.IndexOfPrefix(name, seq(commas, _ => ','), ',');
    assert line == name + [','] + seq(commas, _ => ',');
    assert forall k :: |name| < k < |line| ==> line[k] == ',';
    DecodeLineAccepts(line);
  }

  /** The short lines of the examples: no field, one field, and an empty second field. */
  lemma ShortLineExamples()
    ensures DecodeLine("") == None
    ensures DecodeLine("a") == None
    ensures DecodeLine("a,") == None
    ensures DecodeLine("a,,") == None
  {
    DecodeLineNoComma("");
    DecodeLineNoComma("a");
    DecodeLineOnlyCommasAfter("a", 0);
    assert "a" + seq(1, _ => ',') == "a,";
    DecodeLineOnlyCommasAfter("a", 1);
    assert "a" + seq(2, _ => ',') == "a,,";
  }

  /** The first field of `x,t` is `x` and the others are those of `t`. */
  lemma FieldsAfterFirst(x: string, t: string)
    requires ',' !in x
    ensures JavaText.Fields(x + [','] + t, ',') == [x] + JavaText.Fields(t, ',')
  {
    var line := x + [','] + t;
    JavaText.IndexOfPrefix(x, t, ',');
    assert line[..|x|] == x && line[|x| + 1..] == t;
  }

  /** The fields after the second are ignored: `a,b,...` names group `a` with subject `b`,
      whatever follows, as long as `b` is not empty. */
  lemma DecodeLineIgnoresExtraFields(a: string, b: string, rest: string)
    requires ',' !in a && ',' !in b && b != ""
    ensures DecodeLine(a + [','] + b + [','] + rest) == Some(Row(a, b))
  {
    var tail := b + [','] + rest;
    var line := a + [','] + tail;
    assert line == a + [','] + b + [','] + rest;
    FieldsAfterFirst(b, rest);
    FieldsAfterFirst(a, tail);
    var fields := JavaText.Fields(line, ',');
    assert fields[0] == a && fields[1] == b;
    assert line[|a|] == ',';
    var parts := JavaText.Split(line, ',');
    assert parts == JavaText.DropTrailingEmpty(fields);
  }

  /** A third field is dropped, and an empty name before the first comma is kept. */
  lemma AcceptedLineExamples()
    ensures DecodeLine("a,b,c") == Some(Row("a", "b"))
    ensures DecodeLine(",b") == Some(Row("", "b"))
  {
    DecodeLineIgnoresExtraFields("a", "b", "c");
    assert "a" + [','] + "b" + [','] + "c" == "a,b,c";
    JavaText.SplitTwoFields("", "b", ',');
    assert "" + [','] + "b" == ",b";
  }

  /** A line is accepted exactly when, after its first comma, some character is not a comma:
      otherwise `split` leaves fewer than two fields. An accepted line names the group with the
      text before its first comma. */
  lemma DecodeLineAccepts(line: string)
    ensures DecodeLine(line).Some? <==>
              exists k :: JavaText.IndexOf(line, ',') < k < |line| && line[k] != ','
    ensures DecodeLine(line).Some? ==>
              DecodeLine(line).value.groupName == line[..JavaText.IndexOf(line, ',')]
  {
    var i := JavaText.IndexOf(line, ',');
    if i == |line| {
      assert ',' !in line;
    } else {
      var rest := line[i + 1..];
      assert (exists k :: i < k < |line| && line[k] != ',') <==> SomeNonComma(rest) by {
        if exists k :: i < k < |line| && line[k] != ',' {
          var k :| i < k < |line| && line[k] != ',';
          assert rest[k - i - 1] != ',';
        }
        if SomeNonComma(rest) {
          var k :| 0 <= k < |rest| && rest[k] != ',';
          assert line[k + i + 1] != ',';
        }
      }
      assert JavaText.Fields(line, ',') == [line[..i]] + JavaText.Fields(rest, ',');
      FieldsAllEmpty(rest);
      KeptAtLeastTwo(line[..i], JavaText.Fields(rest, ','));
    }
  }

  /** The subject of an accepted line is the text between its first and its second comma (or
      the end of the line). It may be empty: `a,,b` has subject "". */
  lemma DecodeLineSubject(line: string)
    requires DecodeLine(line).Some?
    ensures var rest := line[JavaText.IndexOf(line, ',') + 1..];
            DecodeLine(line).value.subject == rest[..JavaText.IndexOf(rest, ',')]
  {
    JavaText.SplitSecond(line, ',');
  }

  /** A group loaded from `a,,b` has an empty subject, so the file written after the next create
      holds the line `a,`, which the following start-up rejects as short. */
  lemma EmptySubjectBreaksNextLoad(sep: LineSeparator)
    ensures DecodeLine("a,,b") == Some(Row("a", ""))
    ensures Decode(Encode([Row("a", "")], sep)) == Err(ShortLine("a,"))
  {
    var line := "a,,b";
    assert JavaText.IndexOf(line, ',') == 1;
    assert line[3] != ',';
    DecodeLineAccepts(line);
    DecodeLineSubject(line);
    assert line[2..] == ",b";
    assert JavaText.IndexOf(",b", ',') == 0;
    assert line[..1] == "a";
    var row := Row("a", "");
    assert EncodeLine(row) == "a,";
    assert Encode([row], sep) == "a," + sep.Text() + "" by {
      assert [row][1..] == [];
    }
    ReadWrittenLine("a,", sep, "");
    assert ReadLines(Encode([row], sep)) == ["a,"];
    ShortLineExamples();
  }

  /** Dropping trailing empty fields leaves at least two exactly when some field after the
      first is not empty. */
  lemma KeptAtLeastTwo(x: string, tail: seq<string>)
    ensures |JavaText.DropTrailingEmpty([x] + tail)| >= 2 <==> SomeNonEmpty(tail)
  {
    var fields := [x] + tail;
    var kept := JavaText.DropTrailingEmpty(fields);
    if SomeNonEmpty(tail) {
      var j :| 0 <= j < |tail| && tail[j] != "";
      assert fields[j + 1] != "";
    }
    if |kept| >= 2 {
      assert kept[|kept| - 1] == fields[|kept| - 1] == tail[|kept| - 2];
    }
  }

  ghost predicate SomeNonEmpty(fields: seq<string>)
  {
    exists j :: 0 <= j < |fields| && fields[j] != ""
  }

  ghost predicate SomeNonComma(t: string)
  {
    exists k :: 0 <= k < |t| && t[k] != ','
  }

  lemma SomeNonEmptyCons(x: string, tail: seq<string>)
    ensures SomeNonEmpty([x] + tail) <==> x != "" || SomeNonEmpty(tail)
  {
    var fields := [x] + tail;
    if SomeNonEmpty(fields) {
      var j :| 0 <= j < |fields| && fields[j] != "";
      if j > 0 {
        assert tail[j - 1] != "";
      }
    }
    if x != "" {
      assert fields[0] != "";
    }
    if SomeNonEmpty(tail) {
      var j :| 0 <= j < |tail| && tail[j] != "";
      assert fields[j + 1] != "";
    }
  }

  lemma SomeNonCommaAfterFirst(t: string, i: nat)
    requires i < |t| && t[i] == ','
    requires forall k :: 0 <= k < i ==> t[k] != ','
    ensures SomeNonComma(t) <==> i > 0 || SomeNonComma(t[i + 1..])
  {
    var rest := t[i + 1..];
    if SomeNonComma(t) {
      var k :| 0 <= k < |t| && t[k] != ',';
      if k > i {
        assert rest[k - i - 1] != ',';
      }
    }
    if i > 0 {
      assert t[0] != ',';
    }
    if SomeNonComma(rest) {
      var k :| 0 <= k < |rest| && rest[k] != ',';
      assert t[k + i + 1] != ',';
    }
  }

  /** The fields of a string are all empty exactly when the string is nothing but separators. */
  lemma {:induction false} FieldsAllEmpty(t: string)
    ensures SomeNonEmpty(JavaText.Fields(t, ',')) <==> SomeNonComma(t)
    decreases |t|
  {
    var i := JavaText.IndexOf(t, ',');
    var fields := JavaText.Fields(t, ',');
    if i == |t| {
      assert fields == [t];
      if t != "" {
        assert t[0] != ',';
        assert fields[0] != "";
      }
    } else {
      var rest := t[i + 1..];
      FieldsAllEmpty(rest);
      assert fields == [t[..i]] + JavaText.Fields(rest, ',');
      SomeNonEmptyCons(t[..i], JavaText.Fields(rest, ','));
      SomeNonCommaAfterFirst(t, i);
    }
  }

  /** Reading one more line that is short: the whole read ends with that line as the error. */
  lemma DecodeStepShort(rows: seq<Row>, rest: string, line: string, next: string)
    requires rest != "" && NextLine(rest) == (line, next)
    requires DecodeLine(line).None?
    ensures Prepend(rows, Decode(rest)) == Err(ShortLine(line))
  {
  }

  /** Reading one more line that holds a row: the row joins the rows read so far. */
  lemma DecodeStepRow(rows: seq<Row>, rest: string, line: string, next: string, row: Row)
    requires rest != "" && NextLine(rest) == (line, next)
    requires DecodeLine(line) == Some(row)
    ensures Prepend(rows, Decode(rest)) == Prepend(rows + [row], Decode(next))
  {
    assert Decode(rest) == Prepend([row], Decode(next));
    if Decode(next).Ok? {
      assert rows + ([row] + Decode(next).value) == (rows + [row]) + Decode(next).value;
    }
  }

  /** `CSVHandler.writeStudyGroups`: one line per group, through a buffered writer. */
  method WriteStudyGroups(groups: seq<StudyGroup>, sep: LineSeparator) returns (text: string)
    ensures text == Encode(RowsOf(groups), sep)
  {
    text := "";
    var i := 0;
    while i < |groups|
      invariant 0 <= i <= |groups|
      invariant text == Encode(RowsOf(groups[..i]), sep)
    {
      var row := Row(groups[i].groupName, groups[i].subject);
      EncodeAppend(RowsOf(groups[..i]), row, sep);
      assert RowsOf(groups[..i + 1]) == RowsOf(groups[..i]) + [row];
      text := text + (groups[i].groupName + "," + groups[i].subject) + sep.Text();
      i := i + 1;
    }
    assert groups[..i] == groups;
  }

  /** A new group without members for `row`, appended to `groups`. */
  method AppendNewGroup(groups: seq<StudyGroup>, row: Row) returns (longer: seq<StudyGroup>)
    ensures |longer| == |groups| + 1 && longer == groups + [longer[|groups|]]
    ensures fresh(longer[|groups|]) && longer[|groups|].members == []
    ensures RowsOf(longer) == RowsOf(groups) + [row]
  {
    var group := new StudyGroup(row.groupName, row.subject);
    longer := groups + [group];
  }

  /** `CSVHandler.readStudyGroups`: a new group with no members for every line, in order; the
      first short line ends the read with an error. */
  method ReadStudyGroups(text: string) returns (r: Result<seq<StudyGroup>, ReadError>)
    ensures r.Err? ==> Decode(text) == Err(r.error)
    ensures r.Ok? ==> Decode(text) == Ok(RowsOf(r.value))
    ensures r.Ok? ==> forall g :: g in r.value ==> fresh(g) && g.members == []
  {
    var groups: seq<StudyGroup> := [];
    var rest := text;
    assert Prepend(RowsOf(groups), Decode(rest)) == Decode(text) by {
      assert RowsOf(groups) == [];
      if Decode(text).Ok? {
        assert [] + Decode(text).value == Decode(text).value;
      }
    }
    while rest != ""
      invariant Decode(text) == Prepend(RowsOf(groups), Decode(rest))
      invariant forall g :: g in groups ==> fresh(g) && g.members == []
      decreases |rest|
    {
      var (line, next) := NextLine(rest);
      var decoded := DecodeLine(line);
      if decoded.None? {
        DecodeStepShort(RowsOf(groups), rest, line, next);
        return Err(ShortLine(line));
      }
      DecodeStepRow(RowsOf(groups), rest, line, next, decoded.value);
      groups := AppendNewGroup(groups, decoded.value);
      rest := next;
    }
    assert RowsOf(groups) + [] == RowsOf(groups);
    r := Ok(groups);
  }

  // ---------------------------------------------------------------------------------------
  // The registry and its two derived structures.
  // ---------------------------------------------------------------------------------------

  /** The names of the groups of a list. */
  function Names(groups: seq<StudyGroup>): set<string>
  {
    set g | g in groups :: g.groupName
  }

  /** The name set as the registry builds it: one `add` per group, in list order. */
  function NameSet(groups: seq<StudyGroup>): set<string>
  {
    if groups == [] then {}
    else NameSet(groups[..|groups| - 1]) + {groups[|groups| - 1].groupName}
  }

  function Subjects(groups: seq<StudyGroup>): set<string>
  {
    set g | g in groups :: g.subject
  }

  /** The groups of one subject, in list order. */
  function Bucket(groups: seq<StudyGroup>, subject: string): seq<StudyGroup>
  {
    if groups == [] then []
    else
      var last := groups[|groups| - 1];
      Bucket(groups[..|groups| - 1], subject) + (if last.subject == subject then [last] else [])
  }

  /** What the subject map means: every subject of the list, and only those, mapped to the
      groups of that subject in list order. */
  function SubjectIndex(groups: seq<StudyGroup>): map<string, seq<StudyGroup>>
  {
    map s | s in Subjects(groups) :: Bucket(groups, s)
  }

  /** `computeIfAbsent(subject, ...).add(group)`: the group is appended to its subject's bucket,
      which is created empty when absent. */
  function AddToIndex(index: map<string, seq<StudyGroup>>, group: StudyGroup): (r: map<string, seq<StudyGroup>>)
    ensures r.Keys == index.Keys + {group.subject}
    ensures forall s :: s in index && s != group.subject ==> r[s] == index[s]
    ensures |r[group.subject]| >= 1 && r[group.subject][|r[group.subject]| - 1] == group
    ensures group.subject !in index ==> r[group.subject] == [group]
    ensures group.subject in index ==>
              |r[group.subject]| == |index[group.subject]| + 1
              && r[group.subject][..|index[group.subject]|] == index[group.subject]
  {
    index[group.subject := (if group.subject in index then index[group.subject] else []) + [group]]
  }

  /** The subject map as the registry builds it: one `AddToIndex` per group, in list order. */
  function BuildIndex(groups: seq<StudyGroup>): map<string, seq<StudyGroup>>
  {
    if groups == [] then map[]
    else AddToIndex(BuildIndex(groups[..|groups| - 1]), groups[|groups| - 1])
  }

  /** A bucket holds exactly the groups of the list with that subject. */
  lemma {:induction false} BucketMembers(groups: seq<StudyGroup>, subject: string, g: StudyGroup)
    ensures g in Bucket(groups, subject) <==> g in groups && g.subject == subject
  {
    if groups != [] {
      var init := groups[..|groups| - 1];
      BucketMembers(init, subject, g);
      assert groups == init + [groups[|groups| - 1]];
    }
  }

  /** Buckets follow list order: the bucket of a concatenation is the concatenation of buckets. */
  lemma {:induction false} BucketConcat(front: seq<StudyGroup>, back: seq<StudyGroup>, subject: string)
    ensures Bucket(front + back, subject) == Bucket(front, subject) + Bucket(back, subject)
    decreases |back|
  {
    if back != [] {
      var init := back[..|back| - 1];
      assert (front + back)[..|front + back| - 1] == front + init;
      BucketConcat(front, init, subject);
    } else {
      assert front + back == front;
    }
  }

  lemma BucketEmptyIffAbsent(groups: seq<StudyGroup>, subject: string)
    ensures Bucket(groups, subject) == [] <==> subject !in Subjects(groups)
  {
    if Bucket(groups, subject) != [] {
      BucketMembers(groups, subject, Bucket(groups, subject)[0]);
    }
    if subject in Subjects(groups) {
      var g :| g in groups && g.subject == subject;
      BucketMembers(groups, subject, g);
    }
  }

  /** Appending a group keeps the subject map in step: the map of the longer list is the old map
      with the group added to its subject's bucket. */
  lemma IndexAfterAppend(groups: seq<StudyGroup>, g: StudyGroup)
    ensures SubjectIndex(groups + [g]) == AddToIndex(SubjectIndex(groups), g)
  {
    var longer := groups + [g];
    assert longer[..|longer| - 1] == groups;
    assert Subjects(longer) == Subjects(groups) + {g.subject};
    BucketEmptyIffAbsent(groups, g.subject);
    var lhs := SubjectIndex(longer);
    var rhs := AddToIndex(SubjectIndex(groups), g);
    assert lhs.Keys == rhs.Keys;
    forall s | s in lhs.Keys ensures lhs[s] == rhs[s] {
      if s == g.subject {
        assert Bucket(longer, s) == Bucket(groups, s) + [g];
      } else {
        assert Bucket(longer, s) == Bucket(groups, s);
      }
    }
  }

  /** Appending a group adds exactly its name to the names of the list. */
  lemma NamesAfterAppend(groups: seq<StudyGroup>, g: StudyGroup)
    ensures Names(groups + [g]) == Names(groups) + {g.groupName}
  {
    var longer := groups + [g];
    assert g in longer;
    assert forall h :: h in longer <==> h in groups || h == g;
  }

  /** The structures built one group at a time are the ones the registry means: the name set
      is the set of names, and the map sends each subject to its in-order bucket. */
  lemma {:induction false} BuiltStructuresMatch(groups: seq<StudyGroup>)
    ensures NameSet(groups) == Names(groups)
    ensures BuildIndex(groups) == SubjectIndex(groups)
  {
    if groups != [] {
      var init := groups[..|groups| - 1];
      var last := groups[|groups| - 1];
      BuiltStructuresMatch(init);
      assert groups == init + [last];
      IndexAfterAppend(init, last);
      NamesAfterAppend(init, last);
    }
  }

  /** The worked example: after creating groups with subjects Math, Art and Math, the Math
      bucket is the first and the third group, in creation order. */
  lemma SearchExample(g1: StudyGroup, g2: StudyGroup, g3: StudyGroup)
    requires g1.subject == "Math" && g2.subject == "Art" && g3.subject == "Math"
    ensures SubjectIndex([g1, g2, g3])["Math"] == [g1, g3]
  {
    assert [g1, g2, g3][..2] == [g1, g2];
    assert [g1, g2][..1] == [g1];
    assert [g1][..0] == [];
    assert Bucket([g1], "Math") == [g1];
    assert Bucket([g1, g2], "Math") == [g1];
    assert Bucket([g1, g2, g3], "Math") == [g1, g3];
    assert "Math" in Subjects([g1, g2, g3]) by {
      assert g1 in [g1, g2, g3];
    }
  }

  datatype LoadOutcome =
    | Loaded
    | ReadFailed                     // the file could not be opened or read: an IOException
    | Malformed(error: ReadError)    // a short line: an exception the loader does not catch

  datatype CreateOutcome =
    | MissingField                   // name, student id, group name or subject is empty
    | DuplicateName                  // the group name is already taken (exact comparison)
    | Created(saved: Option<string>) // the file text written, or None when the write failed

  /** The platform: the group list, the name set and the subject map, which `Valid` ties together. */
  class Platform {
    var studyGroups: seq<StudyGroup>
    var groupNameSet: set<string>
    var studyGroupMap: map<string, seq<StudyGroup>>

    /** The name set is the set of the list's names, and every subject of the list maps to the
        groups of that subject in list order (and no other subject is mapped). */
    ghost predicate Valid()
      reads this
    {
      groupNameSet == NameSet(studyGroups) && studyGroupMap == BuildIndex(studyGroups)
    }

    /** Starts empty and loads the file once. When the file has a short line the exception
        leaves the constructor; the registry is then still empty. */
    constructor (file: Option<string>)
      ensures Valid()
      ensures file.None? || Decode(file.value).Err? ==> studyGroups == []
      ensures file.Some? && Decode(file.value).Ok? ==> RowsOf(studyGroups) == Decode(file.value).value
      ensures forall g :: g in studyGroups ==> fresh(g) && g.members == []
    {
      studyGroups := [];
      studyGroupMap := map[];
      groupNameSet := {};
      new;
      var _ := LoadStudyGroups(file);
    }

    /** `loadStudyGroups`, run once on the empty registry: the read list becomes the registry
        and one pass over it fills the name set and the subject map. */
    method LoadStudyGroups(file: Option<string>) returns (outcome: LoadOutcome)
      requires Valid() && studyGroups == []
      modifies this
      ensures Valid()
      ensures file.None? ==> outcome == ReadFailed && studyGroups == []
      ensures file.Some? && Decode(file.value).Err? ==>
                outcome == Malformed(Decode(file.value).error) && studyGroups == []
      ensures file.Some? && Decode(file.value).Ok? ==>
                outcome == Loaded && RowsOf(studyGroups) == Decode(file.value).value
      ensures forall g :: g in studyGroups ==> fresh(g) && g.members == []
    {
      if file.None? {
        return ReadFailed;
      }
      var read := ReadStudyGroups(file.value);
      if read.Err? {
        return Malformed(read.error);
      }
      studyGroups := read.value;
      IndexStudyGroups();
      outcome := Loaded;
    }

    /** The pass over the freshly read list: every group's name goes into the (empty) name set
        and every group into its subject's bucket, in list order. */
    method IndexStudyGroups()
      requires groupNameSet == {} && studyGroupMap == map[]
      modifies this
      ensures Valid()
      ensures studyGroups == old(studyGroups)
    {
      var i := 0;
      while i < |studyGroups|
        invariant 0 <= i <= |studyGroups|
        invariant studyGroups == old(studyGroups)
        invariant groupNameSet == NameSet(studyGroups[..i])
        invariant studyGroupMap == BuildIndex(studyGroups[..i])
      {
        var group := studyGroups[i];
        var prefix := studyGroups[..i + 1];
        assert prefix[..i] == studyGroups[..i] && prefix[i] == group;
        assert NameSet(prefix) == NameSet(studyGroups[..i]) + {group.groupName};
        assert BuildIndex(prefix) == AddToIndex(BuildIndex(studyGroups[..i]), group);
        IndexGroup(group);
        i := i + 1;
      }
      assert studyGroups[..i] == studyGroups;
    }

    /** Adds one listed group's name to the name set and the group to the end of its subject's
        bucket; the list itself is left as it is. */
    method IndexGroup(group: StudyGroup)
      modifies this
      ensures studyGroups == old(studyGroups)
      ensures groupNameSet == old(groupNameSet) + {group.groupName}
      ensures studyGroupMap == AddToIndex(old(studyGroupMap), group)
    {
      groupNameSet := groupNameSet + {group.groupName};
      studyGroupMap := AddToIndex(studyGroupMap, group);
    }

    /** The search button: the groups of exactly this subject, in the order they were added, or
        None ("no groups for this subject") when the subject has none. Nothing is changed. */
    method Search(subject: string) returns (found: Option<seq<StudyGroup>>)
      requires Valid()
      ensures found.Some? <==> exists g :: g in studyGroups && g.subject == subject
      ensures found.Some? ==> found.value != []
      ensures found.Some? ==> forall g :: g in found.value <==> g in studyGroups && g.subject == subject
      ensures found.Some? ==> found.value == Bucket(studyGroups, subject)
    {
      BuiltStructuresMatch(studyGroups);
      if subject in studyGroupMap {
        found := Some(studyGroupMap[subject]);
        BucketEmptyIffAbsent(studyGroups, subject);
        forall g ensures g in found.value <==> g in studyGroups && g.subject == subject {
          BucketMembers(studyGroups, subject, g);
        }
      } else {
        found := None;
      }
    }

    /** Appends one group to the list, its name to the name set and the group to the end of its
        subject's bucket, which keeps the three structures in step. */
    method Register(group: StudyGroup)
      requires Valid()
      modifies this
      ensures Valid()
      ensures studyGroups == old(studyGroups) + [group]
      ensures groupNameSet == old(groupNameSet) + {group.groupName}
      ensures studyGroupMap == AddToIndex(old(studyGroupMap), group)
    {
      ghost var before := studyGroups;
      studyGroups := studyGroups + [group];
      assert studyGroups[..|before|] == before;
      groupNameSet := groupNameSet + {group.groupName};
      studyGroupMap := AddToIndex(studyGroupMap, group);
    }

    /** The create button. Any empty field, or a group name already in the name set, rejects the
        request and changes nothing. Otherwise a new group whose one member is the founder is
        appended to the list, its name to the set and the group to its subject's bucket, and the
        whole list is written; a failed write does not undo the append. */
    method Create(name: string, studentId: string, groupName: string, subject: string,
                  writeFails: bool, sep: LineSeparator)
      returns (outcome: CreateOutcome)
      requires Valid()
      modifies this
      ensures Valid()
      ensures forall g :: g in old(studyGroups) ==> g.members == old(g.members)
      ensures outcome == MissingField <==>
              (name == "" || studentId == "" || groupName == "" || subject == "")
      ensures outcome == DuplicateName <==>
              name != "" && studentId != "" && groupName != "" && subject != ""
              && groupName in old(groupNameSet)
      ensures outcome.Created? <==>
              name != "" && studentId != "" && groupName != "" && subject != ""
              && groupName !in old(groupNameSet)
      ensures !outcome.Created? ==>
              && studyGroups == old(studyGroups)
              && groupNameSet == old(groupNameSet) && studyGroupMap == old(studyGroupMap)
      ensures outcome.Created? ==>
              && |studyGroups| == |old(studyGroups)| + 1
              && studyGroups[..|old(studyGroups)|] == old(studyGroups)
              && fresh(studyGroups[|studyGroups| - 1])
              && studyGroups[|studyGroups| - 1].groupName == groupName
              && studyGroups[|studyGroups| - 1].subject == subject
              && studyGroups[|studyGroups| - 1].members == [Student(name, studentId)]
              && groupNameSet == old(groupNameSet) + {groupName}
              && studyGroupMap == AddToIndex(old(studyGroupMap), studyGroups[|studyGroups| - 1])
              && outcome.saved == (if writeFails then None else Some(Encode(RowsOf(studyGroups), sep)))
    {
      if name == "" || studentId == "" || groupName == "" || subject == "" {
        return MissingField;
      }
      if groupName in groupNameSet {
        return DuplicateName;
      }
      var newGroup := new StudyGroup(groupName, subject);
      newGroup.AddMember(Student(name, studentId));
      Register(newGroup);

      var saved: Option<string> := None;
      if !writeFails {
        var text := WriteStudyGroups(studyGroups, sep);
        saved := Some(text);
      }
      outcome := Created(saved);
    }
  }
}
