/** The flat registry of StudyPlatform.java: a list of study groups whose members carry an email
    address, created and joined by case-insensitive group name, shown as text, and kept in a
    whole-list snapshot file. */
module StudyPlatform {
  import opened Wrappers
  import JavaText

  /** A member: a name and an email address. */
  datatype Student = Student(name: string, email: string) {

    /** The member as listed: the name, then the address in parentheses. */
    function ToString(): (r: string)
      ensures |r| == |name| + |email| + 3
      ensures r[..|name|] == name
      ensures r[|name|..|name| + 2] == " ("
      ensures r[|name| + 2..|r| - 1] == email
      ensures r[|r| - 1] == ')'
    {
      name + " (" + email + ")"
    }
  }

  /** A group as a value: what the snapshot file holds for it. */
  datatype GroupRecord = GroupRecord(groupName: string, subject: string, members: seq<Student>)

  /** A study group. Its name and subject are fixed at construction; only its member list grows. */
  class StudyGroup {
    const groupName: string
    const subject: string
    var members: seq<Student>

    constructor (groupName: string, subject: string)
      ensures this.groupName == groupName && this.subject == subject
      ensures members == []
    {
      this.groupName := groupName;
      this.subject := subject;
      members := [];
    }

    method AddMember(student: Student)
      modifies this
      ensures members == old(members) + [student]
    {
      members := members + [student];
    }

    /** The group as the snapshot stores it: every field, members included. */
    function Record(): (r: GroupRecord)
      reads this
      ensures r.groupName == groupName && r.subject == subject && r.members == members
    {
      GroupRecord(groupName, subject, members)
    }
  }

  function RecordsOf(groups: seq<StudyGroup>): (r: seq<GroupRecord>)
    reads groups
    ensures |r| == |groups|
    ensures forall k :: 0 <= k < |groups| ==> r[k] == groups[k].Record()
  {
    seq(|groups|, k reads groups requires 0 <= k < |groups| => groups[k].Record())
  }

  lemma RecordsOfAppend(groups: seq<StudyGroup>, group: StudyGroup)
    ensures RecordsOf(groups + [group]) == RecordsOf(groups) + [group.Record()]
  {
  }

  function NamesOf(groups: seq<StudyGroup>): (r: seq<string>)
    ensures |r| == |groups|
    ensures forall k :: 0 <= k < |groups| ==> r[k] == groups[k].groupName
  {
    seq(|groups|, k requires 0 <= k < |groups| => groups[k].groupName)
  }

  /** The fixed part of each group, its name and subject; reading it needs no heap access. */
  function HeadersOf(groups: seq<StudyGroup>): seq<(string, string)>
  {
    if groups == [] then []
    else HeadersOf(groups[..|groups| - 1])
         + [(groups[|groups| - 1].groupName, groups[|groups| - 1].subject)]
  }

  lemma {:induction false} HeadersOfConcat(groups: seq<StudyGroup>, more: seq<StudyGroup>)
    ensures HeadersOf(groups + more) == HeadersOf(groups) + HeadersOf(more)
    decreases |more|
  {
    if more == [] {
      assert groups + more == groups;
    } else {
      var n := |more| - 1;
      assert (groups + more)[..|groups| + n] == groups + more[..n];
      HeadersOfConcat(groups, more[..n]);
    }
  }

  /** No group object appears twice in the list, so changing one changes one entry. */
  ghost predicate Distinct(groups: seq<StudyGroup>)
  {
    groups == [] || (Distinct(groups[..|groups| - 1]) && groups[|groups| - 1] !in groups[..|groups| - 1])
  }

  lemma DistinctAppend(groups: seq<StudyGroup>, group: StudyGroup)
    requires Distinct(groups) && group !in groups
    ensures Distinct(groups + [group])
  {
    assert (groups + [group])[..|groups|] == groups;
  }

  lemma {:induction false} DistinctApart(groups: seq<StudyGroup>, i: nat, j: nat)
    requires Distinct(groups) && i < |groups| && j < |groups| && i != j
    ensures groups[i] != groups[j]
    decreases |groups|
  {
    var n := |groups| - 1;
    if i < n && j < n {
      DistinctApart(groups[..n], i, j);
    } else if i == n {
      assert groups[j] == groups[..n][j];
    } else {
      assert groups[i] == groups[..n][i];
    }
  }

  // ---------------------------------------------------------------------------------------
  // Email addresses: the pattern ^[A-Za-z0-9+_.-]+@(.+)$, matched against the whole input.
  // ---------------------------------------------------------------------------------------

  /** The characters allowed before the `@`. */
  predicate IsLocalChar(ch: char)
  {
    ('A' <= ch <= 'Z') || ('a' <= ch <= 'z') || ('0' <= ch <= '9')
    || ch == '+' || ch == '_' || ch == '.' || ch == '-'
  }

  /** The characters `.` does not match without the DOTALL flag: the line terminators. */
  predicate IsPatternLineTerminator(ch: char)
  {
    ch == '\n' || ch == '\r' || ch == '\U{0085}' || ch == '\U{2028}' || ch == '\U{2029}'
  }

  /** The pattern as a language: one or more local characters, an `@`, then one or more
      characters that are not line terminators. */
  ghost predicate MatchesEmailPattern(s: string)
  {
    exists at ::
      && 1 <= at < |s| - 1 && s[at] == '@'
      && (forall k :: 0 <= k < at ==> IsLocalChar(s[k]))
      && (forall k :: at < k < |s| ==> !IsPatternLineTerminator(s[k]))
  }

  /** `isValidEmail`: since `@` is not a local character, the `@` of the pattern can only be
      the first one, so one scan decides the match. */
  predicate IsValidEmail(s: string)
    ensures IsValidEmail(s) ==> |s| >= 3 && IsLocalChar(s[0]) && '@' in s
    ensures IsValidEmail(s) ==> !IsPatternLineTerminator(s[|s| - 1])
  {
    var at := JavaText.IndexOf(s, '@');
    && 1 <= at < |s| - 1
    && (forall k :: 0 <= k < at ==> IsLocalChar(s[k]))
    && (forall k :: at < k < |s| ==> !IsPatternLineTerminator(s[k]))
  }

  /** The scan accepts exactly the strings the pattern matches. */
  lemma IsValidEmailMatchesPattern(s: string)
    ensures IsValidEmail(s) <==> MatchesEmailPattern(s)
  {
    var first := JavaText.IndexOf(s, '@');
    if MatchesEmailPattern(s) {
      var at :| && 1 <= at < |s| - 1 && s[at] == '@'
                && (forall k :: 0 <= k < at ==> IsLocalChar(s[k]))
                && (forall k :: at < k < |s| ==> !IsPatternLineTerminator(s[k]));
      assert first <= at;
    }
  }

  lemma EmailAccepted()
    ensures IsValidEmail("a@b")
  {
    assert JavaText.IndexOf("a@b", '@') == 1;
  }

  /** A second `@` after the first is allowed: the domain part only excludes line terminators. */
  lemma EmailAcceptedSecondAt()
    ensures IsValidEmail("x.y@b@c")
  {
    var s := "x.y@b@c";
    assert JavaText.IndexOf(s[3..], '@') == 0;
    assert JavaText.IndexOf(s, '@') == 3;
    assert IsLocalChar(s[0]) && IsLocalChar(s[1]) && IsLocalChar(s[2]);
  }

  lemma EmailRejected()
    ensures !IsValidEmail("")
    ensures !IsValidEmail("noatsign")
    ensures !IsValidEmail("@b")
    ensures !IsValidEmail("a@")
  {
    JavaText.IndexOfAbsent("noatsign", '@');
    assert JavaText.IndexOf("a@", '@') == 1;
  }

  /** A space is not a local character, so it cannot come before the `@`. */
  lemma EmailRejectedSpace()
    ensures !IsValidEmail("a b@c")
  {
    assert !IsLocalChar("a b@c"[1]);
  }

  // ---------------------------------------------------------------------------------------
  // Looking a group up by name, ignoring case.
  // ---------------------------------------------------------------------------------------

  /** The position of the first name equal to `name` ignoring case, or None. */
  function FirstMatch(names: seq<string>, name: string): (r: Option<nat>)
    ensures r.Some? ==> r.value < |names| && JavaText.EqualsIgnoreCase(names[r.value], name)
    ensures r.Some? ==> forall k :: 0 <= k < r.value ==> !JavaText.EqualsIgnoreCase(names[k], name)
    ensures r.None? <==> forall k :: 0 <= k < |names| ==> !JavaText.EqualsIgnoreCase(names[k], name)
  {
    if names == [] then None
    else if JavaText.EqualsIgnoreCase(names[0], name) then Some(0)
    else match FirstMatch(names[1..], name)
      case None => None
      case Some(i) => Some(i + 1)
  }

  /** Why a create or a join was refused. */
  datatype Rejection =
    | EmptyField      // a required field is empty after trimming
    | InvalidEmail    // the trimmed address does not match the pattern
    | DuplicateName   // a group of that name exists, ignoring case (create)
    | GroupNotFound   // no group of that name exists, ignoring case (join)

  datatype CreateOutcome = Created | CreateRejected(reason: Rejection)

  datatype JoinOutcome = Joined(index: nat) | JoinRejected(reason: Rejection)

  // ---------------------------------------------------------------------------------------
  // The text of the "view groups" button.
  // ---------------------------------------------------------------------------------------

  /** A group's heading: name, subject and the number of members. */
  function GroupHeading(g: GroupRecord): (h: string)
    ensures |h| > |g.groupName| + |g.subject| + 5
    ensures h[..|g.groupName|] == g.groupName && h[|h| - 1] == ')'
  {
    g.groupName + " - " + g.subject + " (" + JavaText.Decimal(|g.members|) + "\U{BA85})"
  }

  /** The heading names the group and its subject, then gives the member count in decimal
      digits that read back as that count. */
  lemma GroupHeadingShape(g: GroupRecord)
    ensures var prefix := g.groupName + " - " + g.subject + " (";
            var h := GroupHeading(g);
            && |h| >= |prefix| + 3
            && h[..|prefix|] == prefix
            && h[|h| - 2..] == "\U{BA85})"
            && (forall k :: |prefix| <= k < |h| - 2 ==> '0' <= h[k] <= '9')
            && JavaText.DecimalValue(h[|prefix|..|h| - 2]) == |g.members|
  {
    var prefix := g.groupName + " - " + g.subject + " (";
    var digits := JavaText.Decimal(|g.members|);
    var h := GroupHeading(g);
    assert h == prefix + digits + "\U{BA85})";
    assert h[|prefix|..|h| - 2] == digits;
    JavaText.DecimalRoundTrip(|g.members|);
  }

  /** One indented line per member, in join order. */
  function MemberLines(members: seq<Student>): (r: string)
    ensures |r| >= 8 * |members|
    ensures r == "" <==> members == []
    ensures members != [] ==> r[|r| - 1] == '\n'
  {
    if members == [] then ""
    else MemberLines(members[..|members| - 1]) + "  - " + members[|members| - 1].ToString() + "\n"
  }

  function GroupBlock(g: GroupRecord): (r: string)
    ensures |r| > |GroupHeading(g)| && r[..|GroupHeading(g)|] == GroupHeading(g)
    ensures r[|GroupHeading(g)|] == '\n' && r[|r| - 1] == '\n'
  {
    GroupHeading(g) + "\n" + MemberLines(g.members)
  }

  /** The whole listing: each group's heading line followed by its member lines, in list order. */
  function Render(groups: seq<GroupRecord>): (r: string)
    ensures r == "" <==> groups == []
    ensures groups != [] ==> r[|r| - 1] == '\n'
  {
    if groups == [] then ""
    else Render(groups[..|groups| - 1]) + GroupBlock(groups[|groups| - 1])
  }

  lemma MemberLinesStep(members: seq<Student>, j: nat)
    requires j < |members|
    ensures MemberLines(members[..j + 1])
            == MemberLines(members[..j]) + ("  - " + members[j].ToString() + "\n")
  {
    assert members[..j + 1][..j] == members[..j];
  }

  lemma RenderStep(groups: seq<GroupRecord>, i: nat)
    requires i < |groups|
    ensures Render(groups[..i + 1]) == Render(groups[..i]) + GroupBlock(groups[i])
  {
    assert groups[..i + 1][..i] == groups[..i];
  }

  /** One group's block appended to the listing built so far: its heading line, then one
      line per member. */
  method AppendGroupBlock(text: string, group: StudyGroup) returns (r: string)
    ensures r == text + GroupBlock(group.Record())
  {
    r := text + GroupHeading(group.Record()) + "\n";
    ghost var start := r;
    var members := group.members;
    var j := 0;
    while j < |members|
      invariant 0 <= j <= |members|
      invariant r == start + MemberLines(members[..j])
    {
      MemberLinesStep(members, j);
      JavaText.AppendAssoc(start, MemberLines(members[..j]), "  - " + members[j].ToString() + "\n");
      r := r + ("  - " + members[j].ToString() + "\n");
      j := j + 1;
    }
    assert members[..j] == members;
    JavaText.AppendAssoc(text, GroupHeading(group.Record()) + "\n", MemberLines(members));
  }

  function CountNewlines(s: string): nat
  {
    if s == "" then 0
    else CountNewlines(s[..|s| - 1]) + (if s[|s| - 1] == '\n' then 1 else 0)
  }

  function TotalMembers(groups: seq<GroupRecord>): nat
  {
    if groups == [] then 0
    else TotalMembers(groups[..|groups| - 1]) + |groups[|groups| - 1].members|
  }

  predicate NoNewline(s: string)
  {
    '\n' !in s
  }

  /** Names, subjects and member fields that fit on one line each. */
  predicate SingleLine(g: GroupRecord)
  {
    && NoNewline(g.groupName) && NoNewline(g.subject)
    && forall m :: m in g.members ==> NoNewline(m.name) && NoNewline(m.email)
  }

  lemma {:induction false} CountNewlinesConcat(a: string, b: string)
    ensures CountNewlines(a + b) == CountNewlines(a) + CountNewlines(b)
    decreases |b|
  {
    if b != "" {
      var b' := b[..|b| - 1];
      assert (a + b)[..|a + b| - 1] == a + b';
      CountNewlinesConcat(a, b');
    } else {
      assert a + b == a;
    }
  }

  lemma {:induction false} NoNewlineCount(s: string)
    requires NoNewline(s)
    ensures CountNewlines(s) == 0
  {
    if s != "" {
      assert s[|s| - 1] in s;
      NoNewlineCount(s[..|s| - 1]);
    }
  }

  lemma {:induction false} MemberLinesCount(members: seq<Student>)
    requires forall m :: m in members ==> NoNewline(m.name) && NoNewline(m.email)
    ensures CountNewlines(MemberLines(members)) == |members|
  {
    if members != [] {
      var init := members[..|members| - 1];
      var m := members[|members| - 1];
      assert m in members;
      assert forall x :: x in init ==> x in members;
      MemberLinesCount(init);
      var text := m.ToString();
      assert NoNewline(text) by {
        assert text == m.name + " (" + m.email + ")";
      }
      NoNewlineCount(text);
      CountNewlinesConcat(MemberLines(init), "  - ");
      CountNewlinesConcat(MemberLines(init) + "  - ", text);
      CountNewlinesConcat(MemberLines(init) + "  - " + text, "\n");
      NoNewlineCount("  - ");
      assert CountNewlines("\n") == 1;
    }
  }

  /** The listing has exactly one line per group and one per member. */
  lemma {:induction false} RenderLineCount(groups: seq<GroupRecord>)
    requires forall g :: g in groups ==> SingleLine(g)
    ensures CountNewlines(Render(groups)) == |groups| + TotalMembers(groups)
  {
    if groups != [] {
      var init := groups[..|groups| - 1];
      var g := groups[|groups| - 1];
      assert g in groups;
      assert forall x :: x in init ==> x in groups;
      RenderLineCount(init);
      var heading := GroupHeading(g);
      assert NoNewline(heading) by {
        var digits := JavaText.Decimal(|g.members|);
        assert '\n' !in digits;
        assert heading == g.groupName + " - " + g.subject + " (" + digits + "\U{BA85})";
      }
      NoNewlineCount(heading);
      MemberLinesCount(g.members);
      CountNewlinesConcat(heading, "\n");
      assert CountNewlines("\n") == 1;
      CountNewlinesConcat(heading + "\n", MemberLines(g.members));
      CountNewlinesConcat(Render(init), GroupBlock(g));
    }
  }

  // ---------------------------------------------------------------------------------------
  // The group file read at start-up: `name,subject` lines, trimmed, exactly two fields.
  // ---------------------------------------------------------------------------------------

  /** One line of the group file: accepted only when `split(",")` yields exactly two parts,
      which are then trimmed. */
  function ParseCsvLine(line: string): (r: Option<(string, string)>)
    ensures r.Some? <==> |JavaText.Split(line, ',')| == 2
    ensures r.Some? ==> ',' in line && ',' !in r.value.0 && ',' !in r.value.1
    ensures r.Some? ==> r.value.0 == JavaText.Trim(line[..JavaText.IndexOf(line, ',')])
    ensures r.Some? ==> var rest := line[JavaText.IndexOf(line, ',') + 1..];
              r.value.1 == JavaText.Trim(rest[..JavaText.IndexOf(rest, ',')])
  {
    var parts := JavaText.Split(line, ',');
    if |parts| == 2 then
      JavaText.SplitSecond(line, ',');
      Some((JavaText.Trim(parts[0]), JavaText.Trim(parts[1])))
    else None
  }

  /** Every line's verdict, in file order. */
  function ParseAll(lines: seq<string>): (r: seq<Option<(string, string)>>)
    ensures |r| == |lines|
    ensures forall k :: 0 <= k < |lines| ==> r[k] == ParseCsvLine(lines[k])
  {
    seq(|lines|, k requires 0 <= k < |lines| => ParseCsvLine(lines[k]))
  }

  /** The values of the `Some` entries, in order; the `None` entries are skipped. */
  function Kept<T>(opts: seq<Option<T>>): (r: seq<T>)
    ensures |r| <= |opts|
    ensures forall k :: 0 <= k < |r| ==> Some(r[k]) in opts
  {
    if opts == [] then []
    else
      var init := Kept(opts[..|opts| - 1]);
      match opts[|opts| - 1]
      case None => init
      case Some(v) => init + [v]
  }

  /** The name and subject of each group the file yields, in file order, with the rejected
      lines skipped. */
  function CsvGroups(lines: seq<string>): (r: seq<(string, string)>)
    ensures |r| <= |lines|
    ensures forall k :: 0 <= k < |r| ==> ',' !in r[k].0 && ',' !in r[k].1
  {
    Kept(ParseAll(lines))
  }

  lemma {:induction false} KeptConcat<T>(front: seq<Option<T>>, back: seq<Option<T>>)
    ensures Kept(front + back) == Kept(front) + Kept(back)
    decreases |back|
  {
    if back == [] {
      assert front + back == front;
    } else {
      var init := back[..|back| - 1];
      var opts := front + back;
      assert opts[..|opts| - 1] == front + init;
      KeptConcat(front, init);
    }
  }

  lemma {:induction false} KeptAllSome<T>(opts: seq<Option<T>>)
    requires forall k :: 0 <= k < |opts| ==> opts[k].Some?
    ensures |Kept(opts)| == |opts|
    ensures forall k :: 0 <= k < |opts| ==> Kept(opts)[k] == opts[k].value
  {
    if opts != [] {
      var init := opts[..|opts| - 1];
      KeptAllSome(init);
    }
  }

  lemma {:induction false} KeptMembers<T>(opts: seq<Option<T>>, v: T)
    ensures v in Kept(opts) <==> Some(v) in opts
  {
    if opts != [] {
      var init := opts[..|opts| - 1];
      KeptMembers(init, v);
      assert opts == init + [opts[|opts| - 1]];
    }
  }

  /** File order is kept: the groups of two runs of lines are those of the first run, then
      those of the second. */
  lemma CsvGroupsConcat(front: seq<string>, back: seq<string>)
    ensures CsvGroups(front + back) == CsvGroups(front) + CsvGroups(back)
  {
    var lines := front + back;
    assert forall k :: 0 <= k < |lines| ==>
             ParseAll(lines)[k] == (ParseAll(front) + ParseAll(back))[k] by {
      forall k | 0 <= k < |lines|
        ensures ParseAll(lines)[k] == (ParseAll(front) + ParseAll(back))[k]
      {
        if k < |front| {
          assert lines[k] == front[k];
        } else {
          assert lines[k] == back[k - |front|];
        }
      }
    }
    assert ParseAll(lines) == ParseAll(front) + ParseAll(back);
    KeptConcat(ParseAll(front), ParseAll(back));
  }

  /** When every line is accepted there is one group per line, the k-th from the k-th line. */
  lemma CsvGroupsAllAccepted(lines: seq<string>)
    requires forall k :: 0 <= k < |lines| ==> ParseCsvLine(lines[k]).Some?
    ensures |CsvGroups(lines)| == |lines|
    ensures forall k :: 0 <= k < |lines| ==> CsvGroups(lines)[k] == ParseCsvLine(lines[k]).value
  {
    KeptAllSome(ParseAll(lines));
  }

  /** A group comes from the file exactly when some line of the file is accepted and yields it. */
  lemma CsvGroupsMembers(lines: seq<string>, header: (string, string))
    ensures header in CsvGroups(lines) <==>
              exists k :: 0 <= k < |lines| && ParseCsvLine(lines[k]) == Some(header)
  {
    var parsed := ParseAll(lines);
    KeptMembers(parsed, header);
    if Some(header) in parsed {
      var k :| 0 <= k < |parsed| && parsed[k] == Some(header);
      assert ParseCsvLine(lines[k]) == Some(header);
    }
  }

  /** A line with exactly one comma and a non-empty second field is accepted, and both fields are
      trimmed; a second field of blanks only gives an empty subject. */
  lemma ParseCsvLineAccepts(a: string, b: string)
    requires ',' !in a && ',' !in b && b != ""
    ensures ParseCsvLine(a + "," + b) == Some((JavaText.Trim(a), JavaText.Trim(b)))
  {
    JavaText.SplitTwoFields(a, b, ',');
    assert a + "," + b == a + [','] + b;
  }

  /** A second field of blanks only is accepted and gives an empty subject. */
  lemma ParseCsvLineBlankSubject(a: string, b: string)
    requires ',' !in a && ',' !in b && b != ""
    requires forall k :: 0 <= k < |b| ==> JavaText.IsBlank(b[k])
    ensures ParseCsvLine(a + "," + b) == Some((JavaText.Trim(a), ""))
  {
    ParseCsvLineAccepts(a, b);
  }

  /** `"a, "` is loaded as group `a` with an empty subject. */
  lemma BlankSubjectExample()
    ensures ParseCsvLine("a, ") == Some(("a", ""))
  {
    var a, b := "a", " ";
    assert JavaText.IsBlank(b[0]);
    ParseCsvLineBlankSubject(a, b);
    JavaText.TrimUnchanged(a);
    assert a + "," + b == "a, ";
  }

  /** Trailing commas are dropped by `split`: `a,b,` is accepted like `a,b`. */
  lemma ParseCsvLineTrailingComma(a: string, b: string)
    requires ',' !in a && ',' !in b && b != ""
    ensures ParseCsvLine(a + "," + b + ",") == Some((JavaText.Trim(a), JavaText.Trim(b)))
  {
    var line := a + "," + b + ",";
    var parts := [a, b, ""];
    assert parts[1..] == [b, ""] && [b, ""][1..] == [""];
    assert JavaText.JoinFields([b, ""], ',') == b + [','];
    assert line == JavaText.JoinFields(parts, ',');
    JavaText.FieldsOfJoin(parts, ',');
    assert line[|a|] == ',';
    assert parts[..2] == [a, b];
    assert JavaText.Split(line, ',') == JavaText.DropTrailingEmpty(parts) == [a, b];
  }

  /** A name followed by a single comma, such as `a,`, is skipped: `split` keeps at most the
      name. */
  lemma ParseCsvLineRejectsTrailingComma(a: string)
    requires ',' !in a
    ensures ParseCsvLine(a + ",") == None
  {
    var line := a + ",";
    var parts := [a, ""];
    assert parts[1..] == [""];
    assert line == JavaText.JoinFields(parts, ',');
    JavaText.FieldsOfJoin(parts, ',');
    assert line[|a|] == ',';
    assert parts[..1] == [a];
    assert JavaText.Split(line, ',') == JavaText.DropTrailingEmpty(parts) == JavaText.DropTrailingEmpty([a]);
  }

  /** `"a,b,"` is loaded as group `a` of subject `b`. */
  lemma TrailingCommaExample()
    ensures ParseCsvLine("a,b,") == Some(("a", "b"))
  {
    var a, b := "a", "b";
    ParseCsvLineTrailingComma(a, b);
    JavaText.TrimUnchanged(a);
    JavaText.TrimUnchanged(b);
    assert (JavaText.Trim(a), JavaText.Trim(b)) == ("a", "b");
    assert a + "," + b + "," == "a,b,";
  }

  /** `"a,"` is skipped. */
  lemma OneCommaExample()
    ensures ParseCsvLine("a,") == None
  {
    ParseCsvLineRejectsTrailingComma("a");
    assert "a" + "," == "a,";
  }

  /** A line without a comma, the empty line included, is skipped. */
  lemma ParseCsvLineRejectsNoComma(line: string)
    requires ',' !in line
    ensures ParseCsvLine(line) == None
  {
  }

  /** A line with two commas and text after each is skipped: it has three fields. */
  lemma ParseCsvLineRejectsThreeFields(a: string, b: string, c: string)
    requires ',' !in a && ',' !in b && ',' !in c && c != ""
    ensures ParseCsvLine(a + "," + b + "," + c) == None
  {
    var line := a + "," + b + "," + c;
    assert JavaText.JoinFields([c], ',') == c;
    assert [a, b, c][1..] == [b, c] && [b, c][1..] == [c];
    assert JavaText.JoinFields([b, c], ',') == b + [','] + c;
    assert line == JavaText.JoinFields([a, b, c], ',');
    JavaText.FieldsOfJoin([a, b, c], ',');
    assert line[|a|] == ',';
    assert JavaText.DropTrailingEmpty([a, b, c]) == [a, b, c];
  }

  // ---------------------------------------------------------------------------------------
  // The platform.
  // ---------------------------------------------------------------------------------------

  class Platform {
    var studyGroups: seq<StudyGroup>
    /** The snapshot file: the list last saved, or None when there is no readable file. */
    var dataFile: Option<seq<GroupRecord>>

    ghost predicate Valid()
      reads this
    {
      Distinct(studyGroups)
    }

    /** Start-up: the group file is read and its groups appended, then the snapshot load
        replaces the whole list, so the group file's groups never survive. */
    constructor (csv: Option<seq<string>>, snapshot: Option<seq<GroupRecord>>)
      ensures Valid()
      ensures dataFile == snapshot
      ensures RecordsOf(studyGroups) == (if snapshot.Some? then snapshot.value else [])
      ensures forall g :: g in studyGroups ==> fresh(g)
    {
      studyGroups := [];
      dataFile := snapshot;
      new;
      LoadGroupsFromCsv(csv);
      LoadGroups();
    }

    /** `loadGroupsFromCSV`: one new group per accepted line, appended in file order; nothing
        is appended when the file cannot be read. The lines are parsed by `CsvGroups` and the
        groups they yield are then appended. */
    method LoadGroupsFromCsv(csv: Option<seq<string>>)
      requires Valid()
      modifies this`studyGroups
      ensures Valid()
      ensures exists added ::
                && studyGroups == old(studyGroups) + added
                && HeadersOf(added) == (if csv.Some? then CsvGroups(csv.value) else [])
                && forall g :: g in added ==> fresh(g) && g.members == []
    {
      if csv.Some? {
        AppendGroups(CsvGroups(csv.value));
      } else {
        assert studyGroups == old(studyGroups) + [];
      }
    }

    /** Appends one new group without members per name and subject, in order. */
    method AppendGroups(headers: seq<(string, string)>)
      requires Valid()
      modifies this`studyGroups
      ensures Valid()
      ensures exists added ::
                && studyGroups == old(studyGroups) + added
                && HeadersOf(added) == headers
                && forall g :: g in added ==> fresh(g) && g.members == []
    {
      ghost var added: seq<StudyGroup> := [];
      var i := 0;
      while i < |headers|
        invariant 0 <= i <= |headers|
        invariant studyGroups == old(studyGroups) + added
        invariant Distinct(studyGroups)
        invariant HeadersOf(added) == headers[..i]
        invariant forall g :: g in added ==> fresh(g) && g.members == []
      {
        var group := new StudyGroup(headers[i].0, headers[i].1);
        DistinctAppend(studyGroups, group);
        HeadersOfConcat(added, [group]);
        assert headers[..i + 1] == headers[..i] + [headers[i]];
        studyGroups := studyGroups + [group];
        added := added + [group];
        i := i + 1;
      }
      assert headers[..i] == headers;
    }

    /** `loadGroups`: the list becomes a fresh copy of the snapshot, or empty when there is no
        readable snapshot. */
    method LoadGroups()
      modifies this`studyGroups
      ensures Valid()
      ensures RecordsOf(studyGroups) == (if dataFile.Some? then dataFile.value else [])
      ensures forall g :: g in studyGroups ==> fresh(g)
    {
      studyGroups := [];
      if dataFile.None? {
        return;
      }
      var records := dataFile.value;
      var i := 0;
      while i < |records|
        invariant 0 <= i <= |records|
        invariant Valid()
        invariant RecordsOf(studyGroups) == records[..i]
        invariant forall g :: g in studyGroups ==> fresh(g)
      {
        ghost var before := studyGroups;
        var group := AppendCopy(records[i]);
        RecordsOfAppend(before, group);
        assert records[..i + 1] == records[..i] + [records[i]];
        i := i + 1;
      }
      assert records[..i] == records;
    }

    /** Appends a new group holding a copy of `record`. */
    method AppendCopy(record: GroupRecord) returns (group: StudyGroup)
      requires Valid()
      modifies this`studyGroups
      ensures Valid()
      ensures fresh(group) && group.Record() == record
      ensures studyGroups == old(studyGroups) + [group]
    {
      group := new StudyGroup(record.groupName, record.subject);
      group.members := record.members;
      DistinctAppend(studyGroups, group);
      studyGroups := studyGroups + [group];
    }

    /** `saveGroups`: the whole list is written over the snapshot; when the write fails the
        file keeps what it held. */
    method SaveGroups(writeFails: bool)
      modifies this`dataFile
      ensures dataFile == if writeFails then old(dataFile) else Some(RecordsOf(studyGroups))
    {
      if !writeFails {
        dataFile := Some(RecordsOf(studyGroups));
      }
    }

    /** The scan both buttons make: the position of the first group whose name equals
        `groupName` ignoring case, or None when there is none. Nothing is changed. */
    method FindGroup(groupName: string) returns (selected: Option<nat>)
      ensures selected == FirstMatch(NamesOf(studyGroups), groupName)
    {
      selected := None;
      var i := 0;
      while i < |studyGroups|
        invariant 0 <= i <= |studyGroups|
        invariant forall k :: 0 <= k < i ==>
                    !JavaText.EqualsIgnoreCase(studyGroups[k].groupName, groupName)
      {
        if JavaText.EqualsIgnoreCase(studyGroups[i].groupName, groupName) {
          selected := Some(i);
          break;
        }
        i := i + 1;
      }
      assert selected.Some? ==> NamesOf(studyGroups)[selected.value] == studyGroups[selected.value].groupName;
    }

    /** The create button. All four fields are trimmed. An empty field, an invalid address or
        a name already used by some group (ignoring case) refuses the request and changes
        nothing. Otherwise a new group whose one member is the founder is appended and the
        list is saved. */
    method CreateStudyGroup(nameText: string, emailText: string, groupNameText: string,
                            subjectText: string, writeFails: bool)
      returns (outcome: CreateOutcome)
      requires Valid()
      modifies this
      ensures Valid()
      ensures var name, email := JavaText.Trim(nameText), JavaText.Trim(emailText);
              var groupName, subject := JavaText.Trim(groupNameText), JavaText.Trim(subjectText);
              && (outcome == CreateRejected(EmptyField) <==>
                    name == "" || email == "" || groupName == "" || subject == "")
              && (outcome == CreateRejected(InvalidEmail) <==>
                    name != "" && email != "" && groupName != "" && subject != ""
                    && !IsValidEmail(email))
              && (outcome == CreateRejected(DuplicateName) <==>
                    name != "" && email != "" && groupName != "" && subject != ""
                    && IsValidEmail(email)
                    && FirstMatch(NamesOf(old(studyGroups)), groupName).Some?)
              && (outcome.Created? <==>
                    name != "" && email != "" && groupName != "" && subject != ""
                    && IsValidEmail(email)
                    && FirstMatch(NamesOf(old(studyGroups)), groupName).None?)
              && (outcome.CreateRejected? ==>
                    studyGroups == old(studyGroups) && dataFile == old(dataFile))
              && (outcome.Created? ==>
                    && |studyGroups| == |old(studyGroups)| + 1
                    && studyGroups[..|old(studyGroups)|] == old(studyGroups)
                    && fresh(studyGroups[|old(studyGroups)|])
                    && studyGroups[|old(studyGroups)|].Record()
                       == GroupRecord(groupName, subject, [Student(name, email)])
                    && dataFile == (if writeFails then old(dataFile) else Some(RecordsOf(studyGroups))))
    {
      var name := JavaText.Trim(nameText);
      var email := JavaText.Trim(emailText);
      var groupName := JavaText.Trim(groupNameText);
      var subject := JavaText.Trim(subjectText);

      if name == "" || email == "" || groupName == "" || subject == "" {
        return CreateRejected(EmptyField);
      }
      if !IsValidEmail(email) {
        return CreateRejected(InvalidEmail);
      }
      var existing := FindGroup(groupName);
      if existing.Some? {
        return CreateRejected(DuplicateName);
      }

      var student := Student(name, email);
      var group := new StudyGroup(groupName, subject);
      group.AddMember(student);
      studyGroups := studyGroups + [group];
      SaveGroups(writeFails);
      outcome := Created;
    }

    /** The join button. Name, address and group name are trimmed. An empty field, an invalid
        address or no group of that name (ignoring case) refuses the request and changes no
        group. Otherwise the member is appended to the first group of that name, every other
        group is left as it was, and the list is saved. Joining twice adds the member twice. */
    method JoinStudyGroup(nameText: string, emailText: string, groupNameText: string,
                          writeFails: bool)
      returns (outcome: JoinOutcome)
      requires Valid()
      modifies this`dataFile, studyGroups
      ensures Valid()
      ensures var name, email := JavaText.Trim(nameText), JavaText.Trim(emailText);
              var groupName := JavaText.Trim(groupNameText);
              var target := FirstMatch(NamesOf(studyGroups), groupName);
              && (outcome == JoinRejected(EmptyField) <==> name == "" || email == "" || groupName == "")
              && (outcome == JoinRejected(InvalidEmail) <==>
                    name != "" && email != "" && groupName != "" && !IsValidEmail(email))
              && (outcome == JoinRejected(GroupNotFound) <==>
                    name != "" && email != "" && groupName != "" && IsValidEmail(email)
                    && target.None?)
              && (outcome.Joined? <==>
                    name != "" && email != "" && groupName != "" && IsValidEmail(email)
                    && target.Some?)
              && (outcome.Joined? ==> target == Some(outcome.index))
              && (forall k :: 0 <= k < |studyGroups| ==>
                    studyGroups[k].members ==
                      if outcome.Joined? && k == outcome.index
                      then old(studyGroups[k].members) + [Student(name, email)]
                      else old(studyGroups[k].members))
              && dataFile == (if outcome.Joined? && !writeFails then Some(RecordsOf(studyGroups))
                              else old(dataFile))
    {
      var name := JavaText.Trim(nameText);
      var email := JavaText.Trim(emailText);
      var groupName := JavaText.Trim(groupNameText);

      if name == "" || email == "" || groupName == "" {
        return JoinRejected(EmptyField);
      }
      if !IsValidEmail(email) {
        return JoinRejected(InvalidEmail);
      }
      var selected := FindGroup(groupName);
      if selected.Some? {
        forall k | 0 <= k < |studyGroups| && k != selected.value
          ensures studyGroups[k] != studyGroups[selected.value]
        {
          DistinctApart(studyGroups, k, selected.value);
        }
        var student := Student(name, email);
        studyGroups[selected.value].AddMember(student);
        SaveGroups(writeFails);
        outcome := Joined(selected.value);
      } else {
        outcome := JoinRejected(GroupNotFound);
      }
    }

    /** The view button: the listing of every group and its members, built line by line. */
    method DisplayGroups() returns (text: string)
      ensures text == Render(RecordsOf(studyGroups))
    {
      ghost var records := RecordsOf(studyGroups);
      text := "";
      var i := 0;
      while i < |studyGroups|
        invariant 0 <= i <= |studyGroups|
        invariant text == Render(records[..i])
      {
        assert records[i] == studyGroups[i].Record();
        text := AppendGroupBlock(text, studyGroups[i]);
        RenderStep(records, i);
        i := i + 1;
      }
      assert records[..i] == records;
    }
  }
}
