/** What the record store promises across operations: a written line reads
    back as its record, an added roll or name is refused the second time, a
    deleted roll is gone and the other records keep their order, an update
    touches only the record of its roll, and add, update and delete keep
    rolls and names unique. */
module StoreProperties {
  import opened Wrappers
  import opened LineCodec
  import opened RecordFile

  // ---------------------------------------------------------------- reading lines back

  /** Trimming an already trimmed line changes nothing. */
  lemma TrimmedTwice(line: string)
    ensures Trimmed(Trimmed(line)) == Trimmed(line)
  {
    var t := Trimmed(line);
    if t != [] {
      assert !IsNewline(t[|t| - 1]);
    }
  }

  /** The loops write a kept line back trimmed; it still reads as the same tokens. */
  lemma FieldsOfTrimmed(line: string)
    ensures Fields(Trimmed(line)) == Fields(line)
    ensures RecordOf(Trimmed(line)) == RecordOf(line)
  {
    TrimmedTwice(line);
  }

  /** The roll written by addStudent or updateStudent is the roll read back
      by rollExists, whatever the name. */
  lemma RollOfFormatLine(roll: int, name: string, marks: string)
    requires IsMarksText(marks)
    ensures HasRollField(FormatLine(roll, name, marks))
    ensures RollOf(FormatLine(roll, name, marks)) == roll
  {
    FirstTokenOfFormatLine(roll, name, marks);
    AtoiIntToString(roll);
  }

  /** Round trip of a record: a non-empty name without delimiter reads back
      as the record that was written. */
  lemma ReadFormatLine(roll: int, name: string, marks: string)
    requires name != [] && Delimiter !in name && IsMarksText(marks)
    ensures RecordOf(FormatLine(roll, name, marks)) == Some(Record(roll, name, marks))
    ensures HasNameField(FormatLine(roll, name, marks)) && NameOf(FormatLine(roll, name, marks)) == name
  {
    FieldsOfFormatLine(roll, name, marks);
    AtoiIntToString(roll);
  }

  /** A line written with an empty name has only two tokens: no display or
      search loop sees it as a record. */
  lemma EmptyNameLineHasNoRecord(roll: int, marks: string)
    requires IsMarksText(marks)
    ensures RecordOf(FormatLine(roll, "", marks)) == None
  {
    FieldsOfFormatLineEmptyName(roll, marks);
  }

  // ---------------------------------------------------------------- sequences of lines

  lemma {:induction false} RecordsAppend(a: seq<string>, b: seq<string>)
    ensures Records(a + b) == Records(a) + Records(b)
  {
    if a == [] {
      assert a + b == b;
    } else {
      var ab := a + b;
      assert ab[0] == a[0] && ab[1..] == a[1..] + b;
      RecordsAppend(a[1..], b);
      var head := RecordOf(a[0]);
      if head.Some? {
        assert Records(ab) == [head.value] + Records(a[1..] + b);
        assert Records(a) == [head.value] + Records(a[1..]);
      } else {
        assert Records(ab) == Records(a[1..] + b);
        assert Records(a) == Records(a[1..]);
      }
    }
  }

  lemma HasRollConcat(a: seq<string>, b: seq<string>, roll: int)
    ensures HasRoll(a + b, roll) <==> HasRoll(a, roll) || HasRoll(b, roll)
  {
    if HasRoll(a + b, roll) {
      var i :| 0 <= i < |a + b| && RollLine((a + b)[i], roll);
      if i >= |a| {
        assert (a + b)[i] == b[i - |a|];
      }
    }
    if HasRoll(a, roll) {
      var i :| 0 <= i < |a| && RollLine(a[i], roll);
      assert (a + b)[i] == a[i];
    }
    if HasRoll(b, roll) {
      var i :| 0 <= i < |b| && RollLine(b[i], roll);
      assert (a + b)[i + |a|] == b[i];
    }
  }

  lemma HasNameConcat(a: seq<string>, b: seq<string>, name: string)
    ensures HasName(a + b, name) <==> HasName(a, name) || HasName(b, name)
  {
    if HasName(a + b, name) {
      var i :| 0 <= i < |a + b| && NameLine((a + b)[i], name);
      if i >= |a| {
        assert (a + b)[i] == b[i - |a|];
      }
    }
    if HasName(a, name) {
      var i :| 0 <= i < |a| && NameLine(a[i], name);
      assert (a + b)[i] == a[i];
    }
    if HasName(b, name) {
      var i :| 0 <= i < |b| && NameLine(b[i], name);
      assert (a + b)[i + |a|] == b[i];
    }
  }

  /** Uniqueness of rolls, taken one line at a time from the front. */
  lemma {:induction false} UniqueRollsCons(line: string, rest: seq<string>)
    ensures UniqueRolls([line] + rest) <==>
      UniqueRolls(rest) && (HasRollField(line) ==> !HasRoll(rest, RollOf(line)))
  {
    var all := [line] + rest;
    assert all[0] == line && all[1..] == rest;
    if UniqueRolls(all) && HasRollField(line) {
      forall i | 0 <= i < |rest| ensures !RollLine(rest[i], RollOf(line)) {
        assert all[1..][i] == all[i + 1];
      }
    }
    if UniqueRolls(rest) && (HasRollField(line) ==> !HasRoll(rest, RollOf(line))) {
      forall i, j | 0 <= i < j < |all| && HasRollField(all[i]) && HasRollField(all[j])
        ensures RollOf(all[i]) != RollOf(all[j])
      {
        if i == 0 {
          assert !RollLine(all[1..][j - 1], RollOf(all[0]));
        } else {
          assert all[1..][i - 1] == all[i];
        }
      }
    }
  }

  /** Uniqueness of names, taken apart at the first line. */
  lemma UniqueNamesHead(line: string, rest: seq<string>)
    requires UniqueNames([line] + rest)
    ensures UniqueNames(rest)
    ensures HasNameField(line) ==> !HasName(rest, NameOf(line))
  {
    var all := [line] + rest;
    assert forall i :: 0 <= i < |rest| ==> all[i + 1] == rest[i];
    if HasNameField(line) {
      forall i | 0 <= i < |rest| ensures !NameLine(rest[i], NameOf(line)) {
        assert all[0] == line && all[i + 1] == rest[i];
      }
    }
  }

  /** A later line holds another name than a first line whose name the rest lacks. */
  lemma NameAbsentInTail(all: seq<string>, j: int)
    requires 0 < j < |all| && HasNameField(all[0]) && HasNameField(all[j])
    requires !HasName(all[1..], NameOf(all[0]))
    ensures NameKey(NameOf(all[j])) != NameKey(NameOf(all[0]))
  {
    assert all[1..][j - 1] == all[j];
  }

  /** Two later lines hold different names when the rest has unique names. */
  lemma UniqueNamesInTail(all: seq<string>, i: int, j: int)
    requires 0 < i < j < |all| && HasNameField(all[i]) && HasNameField(all[j])
    requires UniqueNames(all[1..])
    ensures NameKey(NameOf(all[i])) != NameKey(NameOf(all[j]))
  {
    var rest := all[1..];
    assert rest[i - 1] == all[i] && rest[j - 1] == all[j];
  }

  /** Uniqueness of names, built up one line at a time from the front. */
  lemma {:induction false} UniqueNamesCons(line: string, rest: seq<string>)
    requires UniqueNames(rest)
    requires HasNameField(line) ==> !HasName(rest, NameOf(line))
    ensures UniqueNames([line] + rest)
  {
    var all := [line] + rest;
    assert all[0] == line && all[1..] == rest;
    forall i, j | 0 <= i < j < |all| && HasNameField(all[i]) && HasNameField(all[j])
      ensures NameKey(NameOf(all[i])) != NameKey(NameOf(all[j]))
    {
      if i == 0 {
        NameAbsentInTail(all, j);
      } else {
        UniqueNamesInTail(all, i, j);
      }
    }
  }

  // ---------------------------------------------------------------- add

  /** Once a student is added, adding the same roll again is refused and
      leaves the file as it is. */
  lemma AddThenRollTaken(file: Option<seq<string>>, roll: int, name: string, marks: string,
                         otherName: string, otherMarks: string)
    requires IsMarksText(marks)
    requires AddResult(file, roll, name, marks).1 == Added
    ensures var after := AddResult(file, roll, name, marks).0;
      AddResult(after, roll, otherName, otherMarks) == (after, RollTaken)
  {
    var lines := Lines(file);
    var after := lines + [FormatLine(roll, Sanitized(name), marks)];
    RollOfFormatLine(roll, Sanitized(name), marks);
    assert RollLine(after[|lines|], roll);
  }

  /** Once a student is added, adding the same name again under another
      roll, in any case, is refused and leaves the file as it is. */
  lemma AddThenNameTaken(file: Option<seq<string>>, roll: int, name: string, marks: string,
                         otherRoll: int, otherName: string, otherMarks: string)
    requires name != [] && IsMarksText(marks)
    requires AddResult(file, roll, name, marks).1 == Added
    requires SameIgnoringCase(Sanitized(otherName), Sanitized(name))
    ensures var after := AddResult(file, roll, name, marks).0;
      AddResult(after, otherRoll, otherName, otherMarks).0 == after &&
      AddResult(after, otherRoll, otherName, otherMarks).1 != Added &&
      (!HasRoll(Lines(after), otherRoll) ==> AddResult(after, otherRoll, otherName, otherMarks).1 == NameTaken)
  {
    var lines := Lines(file);
    var line := FormatLine(roll, Sanitized(name), marks);
    var after := lines + [line];
    assert AddResult(file, roll, name, marks).0 == Some(after);
    FieldsOfFormatLine(roll, Sanitized(name), marks);
    assert NameOf(line) == Sanitized(name);
    SameIgnoringCaseKey(Sanitized(otherName), Sanitized(name));
    assert NameLine(after[|lines|], Sanitized(otherName));
    assert HasName(after, Sanitized(otherName));
  }

  /** A successful add shows the new record last in the listing, after the
      records that were there. */
  lemma AddAppendsRecord(file: Option<seq<string>>, roll: int, name: string, marks: string)
    requires name != [] && IsMarksText(marks)
    requires AddResult(file, roll, name, marks).1 == Added
    ensures Records(Lines(AddResult(file, roll, name, marks).0)) ==
      Records(Lines(file)) + [Record(roll, Sanitized(name), marks)]
  {
    var line := FormatLine(roll, Sanitized(name), marks);
    ReadFormatLine(roll, Sanitized(name), marks);
    RecordsAppend(Lines(file), [line]);
    assert [line][1..] == [];
  }

  /** The empty-name quirk: an add with an empty name succeeds, takes the
      roll, and yet lists no record, since its line has only two tokens. */
  lemma AddEmptyNameInvisible(file: Option<seq<string>>, roll: int, marks: string)
    requires IsMarksText(marks)
    requires !HasRoll(Lines(file), roll)
    ensures AddResult(file, roll, "", marks).1 == Added
    ensures Records(Lines(AddResult(file, roll, "", marks).0)) == Records(Lines(file))
    ensures HasRoll(Lines(AddResult(file, roll, "", marks).0), roll)
  {
    var lines := Lines(file);
    assert Sanitized("") == "";
    forall i | 0 <= i < |lines| && HasNameField(lines[i])
      ensures NameKey(NameOf(lines[i])) != NameKey("")
    {
      TokensShape(Trimmed(lines[i]));
      assert |NameKey(NameOf(lines[i]))| > 0;
    }
    var line := FormatLine(roll, "", marks);
    var after := lines + [line];
    EmptyNameLineHasNoRecord(roll, marks);
    RecordsAppend(lines, [line]);
    assert [line][1..] == [];
    RollOfFormatLine(roll, "", marks);
    assert RollLine(after[|lines|], roll);
  }

  /** addStudent keeps the rolls of the file unique. */
  lemma AddKeepsRollsUnique(file: Option<seq<string>>, roll: int, name: string, marks: string)
    requires IsMarksText(marks)
    requires UniqueRolls(Lines(file))
    ensures UniqueRolls(Lines(AddResult(file, roll, name, marks).0))
  {
    var lines := Lines(file);
    if AddResult(file, roll, name, marks).1 == Added {
      var line := FormatLine(roll, Sanitized(name), marks);
      var after := lines + [line];
      RollOfFormatLine(roll, Sanitized(name), marks);
      forall i, j | 0 <= i < j < |after| && HasRollField(after[i]) && HasRollField(after[j])
        ensures RollOf(after[i]) != RollOf(after[j])
      {
        assert after[i] == lines[i];
        if j == |lines| {
          assert !RollLine(lines[i], roll);
        } else {
          assert after[j] == lines[j];
        }
      }
    }
  }

  /** addStudent keeps the names of the file unique up to case. */
  lemma AddKeepsNamesUnique(file: Option<seq<string>>, roll: int, name: string, marks: string)
    requires name != [] && IsMarksText(marks)
    requires UniqueNames(Lines(file))
    ensures UniqueNames(Lines(AddResult(file, roll, name, marks).0))
  {
    var lines := Lines(file);
    if AddResult(file, roll, name, marks).1 == Added {
      var line := FormatLine(roll, Sanitized(name), marks);
      var after := lines + [line];
      ReadFormatLine(roll, Sanitized(name), marks);
      forall i, j | 0 <= i < j < |after| && HasNameField(after[i]) && HasNameField(after[j])
        ensures NameKey(NameOf(after[i])) != NameKey(NameOf(after[j]))
      {
        assert after[i] == lines[i];
        if j == |lines| {
          assert !NameLine(lines[i], Sanitized(name));
        } else {
          assert after[j] == lines[j];
        }
      }
    }
  }

  /** Why AddKeepsNamesUnique asks for a non-empty name: a line added with
      an empty name shows its marks in the name position, a name that
      nameExists never compared, so two lines can end up with one name. */
  lemma EmptyNameCanDuplicateName(r1: int, r2: int, marks: string)
    requires r1 != r2 && IsMarksText(marks)
    ensures UniqueNames([FormatLine(r1, marks, marks)])
    ensures AddResult(Some([FormatLine(r1, marks, marks)]), r2, "", marks).1 == Added
    ensures !UniqueNames(Lines(AddResult(Some([FormatLine(r1, marks, marks)]), r2, "", marks).0))
  {
    var l1, l2 := FormatLine(r1, marks, marks), FormatLine(r2, "", marks);
    assert Delimiter !in marks;
    ReadFormatLine(r1, marks, marks);
    RollOfFormatLine(r1, marks, marks);
    assert !HasRoll([l1], r2);
    assert Sanitized("") == "";
    assert |NameKey(marks)| > 0;
    assert !HasName([l1], "");
    FormatLineTrimmed(r2, "", marks);
    FieldsOfFormatLineEmptyName(r2, marks);
    assert HasNameField(l2) && NameOf(l2) == marks;
    var after := [l1] + [l2];
    assert after[0] == l1 && after[1] == l2;
  }

  // ---------------------------------------------------------------- delete

  /** The records whose roll is not `key`, in their order. */
  function WithoutRoll(recs: seq<Record>, key: int): seq<Record>
  {
    if recs == [] then []
    else if recs[0].roll != key then [recs[0]] + WithoutRoll(recs[1..], key)
    else WithoutRoll(recs[1..], key)
  }

  /** What a rewrite of the file writes when it drops no line for its roll:
      every line that has a token, trimmed. */
  function Cleaned(lines: seq<string>): seq<string>
  {
    if lines == [] then []
    else (if HasRollField(lines[0]) then [Trimmed(lines[0])] else []) + Cleaned(lines[1..])
  }

  /** After deleteStudent no line of the file holds the roll. */
  lemma {:induction false} KeptLinesLackRoll(lines: seq<string>, key: int)
    ensures !HasRoll(KeptLines(lines, key), key)
  {
    if lines != [] {
      KeptLinesLackRoll(lines[1..], key);
      var head := KeptLine(lines[0], key);
      HasRollConcat(head, KeptLines(lines[1..], key), key);
      FieldsOfTrimmed(lines[0]);
      assert !HasRoll(head, key);
    }
  }

  /** A file where no line holds the roll has no record with it. */
  lemma NoRollNoRecord(lines: seq<string>, key: int)
    requires !HasRoll(lines, key)
    ensures FindByRoll(lines, key) == None
  {
    forall i | 0 <= i < |lines| ensures !RecordWithRoll(lines[i], key) {
      assert !RollLine(lines[i], key);
    }
  }

  /** Delete then find: once a roll is deleted, rollExists no longer sees
      it and a search by that roll finds nothing. */
  lemma DeleteThenFindNothing(file: Option<seq<string>>, key: int)
    ensures !HasRoll(Lines(DeleteResult(file, key).0), key)
    ensures FindByRoll(Lines(DeleteResult(file, key).0), key) == None
  {
    KeptLinesLackRoll(Lines(file), key);
    NoRollNoRecord(Lines(DeleteResult(file, key).0), key);
  }

  /** deleteStudent keeps every record of another roll, in its order, and no other. */
  lemma {:induction false} DeleteKeepsOtherRecords(lines: seq<string>, key: int)
    ensures Records(KeptLines(lines, key)) == WithoutRoll(Records(lines), key)
  {
    if lines != [] {
      DeleteKeepsOtherRecords(lines[1..], key);
      var head := KeptLine(lines[0], key);
      RecordsAppend(head, KeptLines(lines[1..], key));
      FieldsOfTrimmed(lines[0]);
      var rest := Records(lines[1..]);
      if RecordOf(lines[0]).Some? {
        assert ([RecordOf(lines[0]).value] + rest)[1..] == rest;
      }
    }
  }

  /** Deleting a roll twice writes what deleting it once wrote. */
  lemma {:induction false} DeleteIdempotent(lines: seq<string>, key: int)
    ensures KeptLines(KeptLines(lines, key), key) == KeptLines(lines, key)
  {
    if lines != [] {
      DeleteIdempotent(lines[1..], key);
      var head := KeptLine(lines[0], key);
      KeptLinesAppend(head, KeptLines(lines[1..], key), key);
      if head != [] {
        FieldsOfTrimmed(lines[0]);
        TrimmedTwice(lines[0]);
        assert KeptLines(head, key) == KeptLine(head[0], key) + KeptLines(head[1..], key);
        assert head[1..] == [];
      }
    }
  }

  /** deleteStudent drops exactly the lines without tokens and the lines of
      the roll: it drops more than a rewrite that keeps every roll iff a line held the roll. */
  lemma {:induction false} KeptLinesAgainstCleaned(lines: seq<string>, key: int)
    ensures |KeptLines(lines, key)| <= |Cleaned(lines)|
    ensures HasRoll(lines, key) ==> |KeptLines(lines, key)| < |Cleaned(lines)|
    ensures !HasRoll(lines, key) ==> KeptLines(lines, key) == Cleaned(lines)
  {
    if lines != [] {
      KeptLinesAgainstCleaned(lines[1..], key);
      assert lines == [lines[0]] + lines[1..];
      HasRollConcat([lines[0]], lines[1..], key);
      assert HasRoll([lines[0]], key) <==> RollLine(lines[0], key) by {
        assert [lines[0]][0] == lines[0];
      }
    }
  }

  /** The outcome of deleteStudent: Done exactly when the rewritten file
      lost a line holding the roll, not only lines without tokens. */
  lemma DeleteOutcome(lines: seq<string>, key: int)
    ensures DeleteResult(Some(lines), key).1 == Done <==> DeleteResult(Some(lines), key).0 != Some(Cleaned(lines))
    ensures DeleteResult(Some(lines), key).1 != OpenFailed
  {
    KeptLinesAgainstCleaned(lines, key);
  }

  /** What the delete writes for one line holds only that line's roll and name. */
  lemma KeptLineFromInput(line: string, key: int, roll: int, name: string)
    ensures HasRoll(KeptLine(line, key), roll) ==> HasRoll([line], roll)
    ensures HasName(KeptLine(line, key), name) ==> HasName([line], name)
  {
    var head := KeptLine(line, key);
    FieldsOfTrimmed(line);
    if head != [] {
      assert head[0] == Trimmed(line) && [line][0] == line;
    }
  }

  /** Every roll and name of deleteStudent's output was in its input. */
  lemma {:induction false} KeptLinesFromInput(lines: seq<string>, key: int, roll: int, name: string)
    ensures HasRoll(KeptLines(lines, key), roll) ==> HasRoll(lines, roll)
    ensures HasName(KeptLines(lines, key), name) ==> HasName(lines, name)
  {
    if lines != [] {
      KeptLinesFromInput(lines[1..], key, roll, name);
      var head := KeptLine(lines[0], key);
      HasRollConcat(head, KeptLines(lines[1..], key), roll);
      HasNameConcat(head, KeptLines(lines[1..], key), name);
      assert lines == [lines[0]] + lines[1..];
      HasRollConcat([lines[0]], lines[1..], roll);
      HasNameConcat([lines[0]], lines[1..], name);
      KeptLineFromInput(lines[0], key, roll, name);
    }
  }

  /** deleteStudent keeps rolls unique, whatever the names. */
  lemma {:induction false} KeptLinesRollsUnique(lines: seq<string>, key: int)
    requires UniqueRolls(lines)
    ensures UniqueRolls(KeptLines(lines, key))
  {
    if lines != [] {
      var line, rest := lines[0], lines[1..];
      assert lines == [line] + rest;
      UniqueRollsCons(line, rest);
      KeptLinesRollsUnique(rest, key);
      if KeptLine(line, key) != [] {
        var t := Trimmed(line);
        FieldsOfTrimmed(line);
        KeptLinesFromInput(rest, key, RollOf(line), "");
        UniqueRollsCons(t, KeptLines(rest, key));
        assert KeptLines(lines, key) == [t] + KeptLines(rest, key);
      }
    }
  }

  /** deleteStudent keeps names unique, whatever the rolls. */
  lemma {:induction false} KeptLinesNamesUnique(lines: seq<string>, key: int)
    requires UniqueNames(lines)
    ensures UniqueNames(KeptLines(lines, key))
  {
    if lines != [] {
      var line, rest := lines[0], lines[1..];
      assert lines == [line] + rest;
      UniqueNamesHead(line, rest);
      KeptLinesNamesUnique(rest, key);
      if KeptLine(line, key) != [] {
        var t := Trimmed(line);
        FieldsOfTrimmed(line);
        KeptLinesFromInput(rest, key, RollOf(line), if HasNameField(line) then NameOf(line) else "");
        UniqueNamesCons(t, KeptLines(rest, key));
        assert KeptLines(lines, key) == [t] + KeptLines(rest, key);
      }
    }
  }

  /** deleteStudent keeps rolls unique, and keeps names unique when they were. */
  lemma DeleteKeepsUnique(lines: seq<string>, key: int)
    requires UniqueRolls(lines)
    ensures UniqueRolls(KeptLines(lines, key))
    ensures UniqueNames(lines) ==> UniqueNames(KeptLines(lines, key))
  {
    KeptLinesRollsUnique(lines, key);
    if UniqueNames(lines) {
      KeptLinesNamesUnique(lines, key);
    }
  }

  // ---------------------------------------------------------------- update

  /** What a rewrite of the file writes when it rewrites no record: every
      line that has a record, trimmed. */
  function WellFormed(lines: seq<string>): seq<string>
  {
    if lines == [] then []
    else (if RecordOf(lines[0]).Some? then [Trimmed(lines[0])] else []) + WellFormed(lines[1..])
  }

  lemma {:induction false} WithoutRollAppend(a: seq<Record>, b: seq<Record>, key: int)
    ensures WithoutRoll(a + b, key) == WithoutRoll(a, key) + WithoutRoll(b, key)
  {
    if a == [] {
      assert a + b == b;
    } else {
      var ab := a + b;
      assert ab[0] == a[0] && ab[1..] == a[1..] + b;
      WithoutRollAppend(a[1..], b, key);
      if a[0].roll != key {
        assert WithoutRoll(ab, key) == [a[0]] + WithoutRoll(a[1..] + b, key);
        assert WithoutRoll(a, key) == [a[0]] + WithoutRoll(a[1..], key);
      } else {
        assert WithoutRoll(ab, key) == WithoutRoll(a[1..] + b, key);
      }
    }
  }

  /** The records of a one-line file. */
  lemma RecordsOfOne(line: string)
    ensures Records([line]) == if RecordOf(line).Some? then [RecordOf(line).value] else []
  {
    assert [line][1..] == [];
  }

  /** Dropping the lines without a record and trimming the others loses no record. */
  lemma {:induction false} WellFormedRecords(lines: seq<string>)
    ensures Records(WellFormed(lines)) == Records(lines)
  {
    if lines != [] {
      WellFormedRecords(lines[1..]);
      var head := if RecordOf(lines[0]).Some? then [Trimmed(lines[0])] else [];
      RecordsAppend(head, WellFormed(lines[1..]));
      FieldsOfTrimmed(lines[0]);
      if head != [] {
        RecordsOfOne(Trimmed(lines[0]));
      }
    }
  }

  /** Dropping the lines without a record and trimming the others keeps
      what a search by roll finds. */
  lemma {:induction false} WellFormedFindByRoll(lines: seq<string>, key: int)
    ensures FindByRoll(WellFormed(lines), key) == FindByRoll(lines, key)
  {
    if lines != [] {
      WellFormedFindByRoll(lines[1..], key);
      FieldsOfTrimmed(lines[0]);
      var rest := WellFormed(lines[1..]);
      if RecordOf(lines[0]).Some? {
        assert ([Trimmed(lines[0])] + rest)[0] == Trimmed(lines[0]);
        assert ([Trimmed(lines[0])] + rest)[1..] == rest;
      } else {
        assert [] + rest == rest;
      }
    }
  }

  /** An update that rewrites no record writes back every record line,
      trimmed, and drops only the lines without a record. */
  lemma {:induction false} UpdateWithoutRewrite(orig: seq<string>, lines: seq<string>, key: int, newName: string, marks: string)
    requires !AnyRewrites(orig, lines, key, newName)
    ensures UpdatedLines(orig, lines, key, newName, marks) == WellFormed(lines)
  {
    if lines != [] {
      assert !Rewrites(orig, lines[0], key, newName);
      assert forall i :: 0 <= i < |lines[1..]| ==> lines[1..][i] == lines[i + 1];
      UpdateWithoutRewrite(orig, lines[1..], key, newName, marks);
    }
  }

  /** A rewritten line reads back as the record with the new name and marks. */
  lemma RewrittenLineReadsBack(orig: seq<string>, line: string, key: int, newName: string, marks: string)
    requires Rewrites(orig, line, key, newName)
    requires newName != [] && Delimiter !in newName && IsMarksText(marks)
    ensures Records(UpdatedLine(orig, line, key, newName, marks)) == [Record(key, newName, marks)]
  {
    ReadFormatLine(key, newName, marks);
    RecordsOfOne(FormatLine(key, newName, marks));
  }

  /** updateStudent leaves every record of another roll as it was, in its order. */
  lemma {:induction false} UpdateLeavesOtherRecords(orig: seq<string>, lines: seq<string>, key: int, newName: string, marks: string)
    requires Delimiter !in newName && IsMarksText(marks)
    ensures WithoutRoll(Records(UpdatedLines(orig, lines, key, newName, marks)), key) == WithoutRoll(Records(lines), key)
  {
    if lines != [] {
      var line := lines[0];
      UpdateLeavesOtherRecords(orig, lines[1..], key, newName, marks);
      var head := UpdatedLine(orig, line, key, newName, marks);
      var rest := UpdatedLines(orig, lines[1..], key, newName, marks);
      RecordsAppend(head, rest);
      WithoutRollAppend(Records(head), Records(rest), key);
      assert lines == [line] + lines[1..];
      RecordsAppend([line], lines[1..]);
      RecordsOfOne(line);
      WithoutRollAppend(Records([line]), Records(lines[1..]), key);
      if RecordOf(line).Some? {
        if Rewrites(orig, line, key, newName) {
          if newName != [] {
            RewrittenLineReadsBack(orig, line, key, newName, marks);
          } else {
            EmptyNameLineHasNoRecord(key, marks);
            RecordsOfOne(FormatLine(key, newName, marks));
          }
          assert WithoutRoll(Records(head), key) == [];
        } else {
          FieldsOfTrimmed(line);
          RecordsOfOne(Trimmed(line));
        }
      }
    }
  }

  /** A name equal up to case to a token holds no delimiter, so sanitising
      leaves it as it is. */
  lemma SameAsTokenIsSanitized(name: string, token: string)
    requires Delimiter !in token && SameIgnoringCase(name, token)
    ensures Sanitized(name) == name
  {
    LoweredChars(name);
    LoweredChars(token);
    SanitizedChars(name);
    forall j | 0 <= j < |name| ensures name[j] != Delimiter {
      assert Lowered(name)[j] == Lowered(token)[j];
      assert LowerChar(name[j]) == LowerChar(token[j]);
    }
    var s := Sanitized(name);
    assert forall j :: 0 <= j < |name| ==> s[j] == name[j];
  }

  /** Update self-name: renaming a student to their current name, in any
      case, always rewrites their record. */
  lemma UpdateSameNameSucceeds(lines: seq<string>, key: int, newName: string, marks: string, r: Record)
    requires FindByRoll(lines, key) == Some(r)
    requires SameIgnoringCase(newName, r.name)
    ensures UpdateResult(Some(lines), key, newName, marks).1 == Done
  {
    FindByRollFirst(lines, key);
    var i :| FirstRecordAt(lines, key, i) && RecordOf(lines[i]) == Some(r);
    assert r.name == Fields(lines[i])[1];
    TokensShape(Trimmed(lines[i]));
    SameAsTokenIsSanitized(newName, r.name);
    assert Rewrites(lines, lines[i], key, Sanitized(newName));
  }

  /** Update conflict: when the new name is held by another roll and is not
      the record's own name up to case, nothing is rewritten, the outcome is
      NotFound, and a search by the roll still finds the old record. */
  lemma UpdateConflictKeepsRecord(lines: seq<string>, key: int, newName: string, marks: string, r: Record)
    requires UniqueRolls(lines)
    requires FindByRoll(lines, key) == Some(r)
    requires !SameIgnoringCase(Sanitized(newName), r.name)
    requires HasNameExcept(lines, Sanitized(newName), key)
    ensures UpdateResult(Some(lines), key, newName, marks) == (Some(WellFormed(lines)), NotFound)
    ensures FindByRoll(Lines(UpdateResult(Some(lines), key, newName, marks).0), key) == Some(r)
  {
    var s := Sanitized(newName);
    FindByRollFirst(lines, key);
    var i0 :| FirstRecordAt(lines, key, i0) && RecordOf(lines[i0]) == Some(r);
    assert RollOf(lines[i0]) == key;
    forall i | 0 <= i < |lines| ensures !Rewrites(lines, lines[i], key, s) {
      if i < i0 && HasRollField(lines[i]) {
        assert RollOf(lines[i]) != RollOf(lines[i0]);
      } else if i > i0 && HasRollField(lines[i]) {
        assert RollOf(lines[i0]) != RollOf(lines[i]);
      }
    }
    UpdateWithoutRewrite(lines, lines, key, s, marks);
    WellFormedFindByRoll(lines, key);
  }

  /** Search by roll passes over a written part without a record of the roll. */
  lemma FindByRollPast(head: seq<string>, rest: seq<string>, key: int)
    requires |head| <= 1
    requires head != [] ==> !RecordWithRoll(head[0], key)
    ensures FindByRoll(head + rest, key) == FindByRoll(rest, key)
  {
    if head == [] {
      assert head + rest == rest;
    } else {
      assert (head + rest)[0] == head[0] && (head + rest)[1..] == rest;
    }
  }

  /** In a file whose rolls are unique, a line before a rewritten line holds
      no record of the roll. */
  lemma NoRecordBeforeRewrite(orig: seq<string>, lines: seq<string>, key: int, newName: string)
    requires lines != [] && UniqueRolls(lines)
    requires AnyRewrites(orig, lines[1..], key, newName)
    ensures !RecordWithRoll(lines[0], key)
    ensures UniqueRolls(lines[1..])
  {
    assert lines == [lines[0]] + lines[1..];
    UniqueRollsCons(lines[0], lines[1..]);
    var j :| 0 <= j < |lines[1..]| && Rewrites(orig, lines[1..][j], key, newName);
    assert RollLine(lines[1..][j], key);
  }

  /** In a file whose rolls are unique, once some line of the roll is
      rewritten, search by roll in the rewritten file finds the new record. */
  lemma {:induction false} UpdatedLinesFindNew(orig: seq<string>, lines: seq<string>, key: int, newName: string, marks: string)
    requires newName != [] && Delimiter !in newName && IsMarksText(marks)
    requires UniqueRolls(lines)
    requires AnyRewrites(orig, lines, key, newName)
    ensures FindByRoll(UpdatedLines(orig, lines, key, newName, marks), key) == Some(Record(key, newName, marks))
  {
    var line := lines[0];
    var head := UpdatedLine(orig, line, key, newName, marks);
    var rest := UpdatedLines(orig, lines[1..], key, newName, marks);
    UpdatedLinesUnfold(orig, lines, key, newName, marks);
    AnyRewritesCons(orig, lines, key, newName);
    if Rewrites(orig, line, key, newName) {
      ReadFormatLine(key, newName, marks);
      assert (head + rest)[0] == FormatLine(key, newName, marks);
    } else {
      NoRecordBeforeRewrite(orig, lines, key, newName);
      UpdatedLinesFindNew(orig, lines[1..], key, newName, marks);
      FieldsOfTrimmed(line);
      FindByRollPast(head, rest, key);
    }
  }

  /** A successful update, in a file whose rolls are unique, leaves the
      student findable by roll with the sanitised new name and the new marks. */
  lemma UpdateReadsBack(lines: seq<string>, key: int, newName: string, marks: string)
    requires UniqueRolls(lines)
    requires newName != [] && IsMarksText(marks)
    requires UpdateResult(Some(lines), key, newName, marks).1 == Done
    ensures FindByRoll(UpdateResult(Some(lines), key, newName, marks).0.value, key) ==
      Some(Record(key, Sanitized(newName), marks))
  {
    UpdatedLinesFindNew(lines, lines, key, Sanitized(newName), marks);
  }

  /** Every stored name is a non-empty token, so no line holds the empty name. */
  lemma NoLineHoldsEmptyName(orig: seq<string>, key: int)
    ensures !HasNameExcept(orig, "", key)
  {
    forall i | 0 <= i < |orig| && HasNameField(orig[i]) ensures NameKey(NameOf(orig[i])) != NameKey("") {
      TokensShape(Trimmed(orig[i]));
      assert |NameKey(NameOf(orig[i]))| > 0;
    }
  }

  /** An update to the empty name rewrites exactly the record lines of the
      roll, into lines that hold the roll but no record. */
  lemma UpdatedLineEmptyName(orig: seq<string>, line: string, key: int, marks: string)
    requires IsMarksText(marks)
    ensures Rewrites(orig, line, key, "") <==> RecordWithRoll(line, key)
    ensures forall k :: 0 <= k < |UpdatedLine(orig, line, key, "", marks)| ==>
      !RecordWithRoll(UpdatedLine(orig, line, key, "", marks)[k], key)
    ensures HasRoll(UpdatedLine(orig, line, key, "", marks), key) <==> RecordWithRoll(line, key)
  {
    NoLineHoldsEmptyName(orig, key);
    var w := UpdatedLine(orig, line, key, "", marks);
    if RecordOf(line).Some? {
      if RecordWithRoll(line, key) {
        assert w == [FormatLine(key, "", marks)];
        EmptyNameLineHasNoRecord(key, marks);
        RollOfFormatLine(key, "", marks);
        assert RollLine(w[0], key);
      } else {
        assert w == [Trimmed(line)];
        FieldsOfTrimmed(line);
      }
    }
  }

  /** The rewriting loop with the empty name: no written line holds a record
      of the roll, and the roll stays in the file exactly when a line was
      rewritten. */
  lemma {:induction false} UpdatedLinesEmptyName(orig: seq<string>, lines: seq<string>, key: int, marks: string)
    requires IsMarksText(marks)
    ensures forall k :: 0 <= k < |UpdatedLines(orig, lines, key, "", marks)| ==>
      !RecordWithRoll(UpdatedLines(orig, lines, key, "", marks)[k], key)
    ensures HasRoll(UpdatedLines(orig, lines, key, "", marks), key) <==> AnyRewrites(orig, lines, key, "")
  {
    if lines != [] {
      var line, rest := lines[0], lines[1..];
      UpdatedLinesEmptyName(orig, rest, key, marks);
      UpdatedLineEmptyName(orig, line, key, marks);
      var w := UpdatedLine(orig, line, key, "", marks);
      var t := UpdatedLines(orig, rest, key, "", marks);
      UpdatedLinesUnfold(orig, lines, key, "", marks);
      HasRollConcat(w, t, key);
      NoRecordOfRollConcat(w, t, key);
      AnyRewritesCons(orig, lines, key, "");
    }
  }

  /** Two parts without a record of the roll, joined, have none. */
  lemma NoRecordOfRollConcat(a: seq<string>, b: seq<string>, key: int)
    requires forall k :: 0 <= k < |a| ==> !RecordWithRoll(a[k], key)
    requires forall k :: 0 <= k < |b| ==> !RecordWithRoll(b[k], key)
    ensures forall k :: 0 <= k < |a + b| ==> !RecordWithRoll((a + b)[k], key)
  {
    forall k | 0 <= k < |a + b| ensures !RecordWithRoll((a + b)[k], key) {
      if k < |a| {
        assert (a + b)[k] == a[k];
      } else {
        assert (a + b)[k] == b[k - |a|];
      }
    }
  }

  /** Some line is rewritten exactly when the first one is or one of the rest is. */
  lemma AnyRewritesCons(orig: seq<string>, lines: seq<string>, key: int, newName: string)
    requires lines != []
    ensures AnyRewrites(orig, lines, key, newName) <==>
      Rewrites(orig, lines[0], key, newName) || AnyRewrites(orig, lines[1..], key, newName)
  {
    if AnyRewrites(orig, lines, key, newName) {
      var i :| 0 <= i < |lines| && Rewrites(orig, lines[i], key, newName);
      if i > 0 {
        assert lines[1..][i - 1] == lines[i];
      }
    }
    if AnyRewrites(orig, lines[1..], key, newName) {
      var i :| 0 <= i < |lines[1..]| && Rewrites(orig, lines[1..][i], key, newName);
      assert lines[i + 1] == lines[1..][i];
    }
  }

  /** updateStudent with an empty new name, which nothing refuses: it reports
      success exactly when search by roll found the student, and afterwards
      search by roll finds nothing while rollExists still sees the roll. */
  lemma UpdateEmptyNameInvisible(lines: seq<string>, key: int, marks: string)
    requires IsMarksText(marks)
    ensures UpdateResult(Some(lines), key, "", marks).1 == Done <==> FindByRoll(lines, key).Some?
    ensures FindByRoll(UpdateResult(Some(lines), key, "", marks).0.value, key) == None
    ensures UpdateResult(Some(lines), key, "", marks).1 == Done <==>
      HasRoll(UpdateResult(Some(lines), key, "", marks).0.value, key)
  {
    var u := UpdatedLines(lines, lines, key, "", marks);
    assert Sanitized("") == "";
    UpdatedLinesEmptyName(lines, lines, key, marks);
    FindByRollFirst(lines, key);
    FindByRollFirst(u, key);
    forall i | 0 <= i < |lines| ensures Rewrites(lines, lines[i], key, "") <==> RecordWithRoll(lines[i], key) {
      UpdatedLineEmptyName(lines, lines[i], key, marks);
    }
  }

  /** What updateStudent writes for one line holds only that line's roll, and
      that line's name or the new name of a rewritten record. */
  lemma UpdatedLineFromInput(orig: seq<string>, line: string, key: int, newName: string,
                             marks: string, roll: int, name: string)
    requires newName != [] && Delimiter !in newName && IsMarksText(marks)
    ensures HasRoll(UpdatedLine(orig, line, key, newName, marks), roll) ==> HasRoll([line], roll)
    ensures HasName(UpdatedLine(orig, line, key, newName, marks), name) ==>
      HasName([line], name) || (NameKey(name) == NameKey(newName) && Rewrites(orig, line, key, newName))
  {
    var head := UpdatedLine(orig, line, key, newName, marks);
    assert [line][0] == line;
    if head != [] {
      if Rewrites(orig, line, key, newName) {
        ReadFormatLine(key, newName, marks);
        assert head[0] == FormatLine(key, newName, marks);
      } else {
        FieldsOfTrimmed(line);
        assert head[0] == Trimmed(line);
      }
    }
  }

  /** Every roll of updateStudent's output was in its input; every name was
      in its input or is the new name of a rewritten record. */
  lemma {:induction false} UpdatedFromInput(orig: seq<string>, lines: seq<string>, key: int, newName: string,
                                            marks: string, roll: int, name: string)
    requires newName != [] && Delimiter !in newName && IsMarksText(marks)
    ensures HasRoll(UpdatedLines(orig, lines, key, newName, marks), roll) ==> HasRoll(lines, roll)
    ensures HasName(UpdatedLines(orig, lines, key, newName, marks), name) ==>
      HasName(lines, name) || (NameKey(name) == NameKey(newName) && AnyRewrites(orig, lines, key, newName))
  {
    if lines != [] {
      var line, rest := lines[0], lines[1..];
      UpdatedFromInput(orig, rest, key, newName, marks, roll, name);
      var head := UpdatedLine(orig, line, key, newName, marks);
      var tail := UpdatedLines(orig, rest, key, newName, marks);
      UpdatedLinesUnfold(orig, lines, key, newName, marks);
      HasRollConcat(head, tail, roll);
      HasNameConcat(head, tail, name);
      UpdatedLineFromInput(orig, line, key, newName, marks, roll, name);
      assert lines == [line] + rest;
      HasRollConcat([line], rest, roll);
      HasNameConcat([line], rest, name);
      if AnyRewrites(orig, rest, key, newName) {
        var q :| 0 <= q < |rest| && Rewrites(orig, rest[q], key, newName);
        assert lines[q + 1] == rest[q];
      }
      if Rewrites(orig, line, key, newName) {
        assert Rewrites(orig, lines[0], key, newName);
      }
    }
  }

  /** updateStudent keeps rolls and names unique, for lines taken from the
      file whose other rolls the name check consults. */
  lemma {:induction false} UpdatedLinesUnique(orig: seq<string>, lines: seq<string>, key: int, newName: string, marks: string)
    requires newName != [] && Delimiter !in newName && IsMarksText(marks)
    requires UniqueRolls(lines) && UniqueNames(lines)
    requires forall i :: 0 <= i < |lines| ==> lines[i] in orig
    ensures UniqueRolls(UpdatedLines(orig, lines, key, newName, marks))
    ensures UniqueNames(UpdatedLines(orig, lines, key, newName, marks))
  {
    if lines != [] {
      var line, rest := lines[0], lines[1..];
      assert lines == [line] + rest;
      UniqueRollsCons(line, rest);
      UniqueNamesHead(line, rest);
      assert forall i :: 0 <= i < |rest| ==> rest[i] == lines[i + 1];
      UpdatedLinesUnique(orig, rest, key, newName, marks);
      var tail := UpdatedLines(orig, rest, key, newName, marks);
      var rec := RecordOf(line);
      if rec.Some? {
        var x := UpdatedLine(orig, line, key, newName, marks)[0];
        assert UpdatedLines(orig, lines, key, newName, marks) == [x] + tail;
        var n0 := NameOf(line);
        if Rewrites(orig, line, key, newName) {
          ReadFormatLine(key, newName, marks);
          UpdatedFromInput(orig, rest, key, newName, marks, key, newName);
          forall q | 0 <= q < |rest| ensures !Rewrites(orig, rest[q], key, newName) {
            assert !RollLine(rest[q], key);
          }
          forall q | 0 <= q < |rest| ensures !NameLine(rest[q], newName) {
            if HasNameField(rest[q]) {
              if SameIgnoringCase(newName, rec.value.name) {
                SameIgnoringCaseKey(newName, rec.value.name);
                assert !NameLine(rest[q], n0);
              } else {
                var p :| 0 <= p < |orig| && orig[p] == rest[q];
                assert !NameLineExcept(orig[p], newName, key);
                assert !RollLine(rest[q], key);
              }
            }
          }
          UniqueRollsCons(x, tail);
          UniqueNamesCons(x, tail);
        } else {
          FieldsOfTrimmed(line);
          UpdatedFromInput(orig, rest, key, newName, marks, RollOf(line), n0);
          forall q | 0 <= q < |rest| && Rewrites(orig, rest[q], key, newName)
            ensures NameKey(n0) != NameKey(newName)
          {
            assert !RollLine(rest[q], RollOf(line));
            var other := RecordOf(rest[q]).value.name;
            if SameIgnoringCase(newName, other) {
              SameIgnoringCaseKey(newName, other);
              assert !NameLine(rest[q], n0);
            } else {
              var p :| 0 <= p < |orig| && orig[p] == line;
              assert !NameLineExcept(orig[p], newName, key);
            }
          }
          UniqueRollsCons(x, tail);
          UniqueNamesCons(x, tail);
        }
      } else {
        assert UpdatedLines(orig, lines, key, newName, marks) == tail;
      }
    }
  }

  /** What updateStudent writes for one line, whatever the new name: at
      most one line, holding the roll of the line it came from. */
  lemma UpdatedLineRoll(orig: seq<string>, line: string, key: int, newName: string, marks: string)
    requires IsMarksText(marks)
    ensures |UpdatedLine(orig, line, key, newName, marks)| <= 1
    ensures UpdatedLine(orig, line, key, newName, marks) != [] ==>
      HasRollField(line) && RollLine(UpdatedLine(orig, line, key, newName, marks)[0], RollOf(line))
  {
    if RecordOf(line).Some? {
      if Rewrites(orig, line, key, newName) {
        RollOfFormatLine(RecordOf(line).value.roll, newName, marks);
      } else {
        FieldsOfTrimmed(line);
      }
    }
  }

  /** A roll of what the update writes for one line is that line's roll. */
  lemma UpdatedLineRollFromInput(orig: seq<string>, line: string, key: int, newName: string,
                                 marks: string, roll: int)
    requires IsMarksText(marks)
    ensures HasRoll(UpdatedLine(orig, line, key, newName, marks), roll) ==> HasRoll([line], roll)
  {
    UpdatedLineRoll(orig, line, key, newName, marks);
    var head := UpdatedLine(orig, line, key, newName, marks);
    if HasRoll(head, roll) {
      assert RollLine(head[0], roll);
      assert RollLine([line][0], roll);
    }
  }

  /** Every roll of updateStudent's output, whatever the new name, was in its input. */
  lemma {:induction false} UpdatedRollsFromInput(orig: seq<string>, lines: seq<string>, key: int, newName: string,
                                                 marks: string, roll: int)
    requires IsMarksText(marks)
    ensures HasRoll(UpdatedLines(orig, lines, key, newName, marks), roll) ==> HasRoll(lines, roll)
  {
    if lines != [] {
      var line, rest := lines[0], lines[1..];
      UpdatedRollsFromInput(orig, rest, key, newName, marks, roll);
      var head := UpdatedLine(orig, line, key, newName, marks);
      UpdatedLinesUnfold(orig, lines, key, newName, marks);
      HasRollConcat(head, UpdatedLines(orig, rest, key, newName, marks), roll);
      UpdatedLineRollFromInput(orig, line, key, newName, marks, roll);
      assert lines == [line] + rest;
      HasRollConcat([line], rest, roll);
    }
  }

  /** The rewriting loop keeps rolls unique, whatever the new name. */
  lemma {:induction false} UpdatedLinesRollsUnique(orig: seq<string>, lines: seq<string>, key: int, newName: string, marks: string)
    requires IsMarksText(marks) && UniqueRolls(lines)
    ensures UniqueRolls(UpdatedLines(orig, lines, key, newName, marks))
  {
    if lines != [] {
      var line, rest := lines[0], lines[1..];
      assert lines == [line] + rest;
      UniqueRollsCons(line, rest);
      UpdatedLinesRollsUnique(orig, rest, key, newName, marks);
      var head := UpdatedLine(orig, line, key, newName, marks);
      var tail := UpdatedLines(orig, rest, key, newName, marks);
      UpdatedLinesUnfold(orig, lines, key, newName, marks);
      UpdatedLineRoll(orig, line, key, newName, marks);
      if head == [] {
        assert head + tail == tail;
      } else {
        assert head == [head[0]];
        UpdatedRollsFromInput(orig, rest, key, newName, marks, RollOf(line));
        UniqueRollsCons(head[0], tail);
      }
    }
  }

  /** updateStudent keeps rolls unique for every new name, the empty one
      included, and keeps names unique when they were and the new name is
      not empty. */
  lemma UpdateKeepsUnique(file: Option<seq<string>>, key: int, newName: string, marks: string)
    requires IsMarksText(marks) && UniqueRolls(Lines(file))
    ensures UniqueRolls(Lines(UpdateResult(file, key, newName, marks).0))
    ensures newName != [] && UniqueNames(Lines(file)) ==> UniqueNames(Lines(UpdateResult(file, key, newName, marks).0))
  {
    if file.Some? {
      var lines := file.value;
      UpdatedLinesRollsUnique(lines, lines, key, Sanitized(newName), marks);
      if newName != [] && UniqueNames(lines) {
        UpdatedLinesUnique(lines, lines, key, Sanitized(newName), marks);
      }
    }
  }

  /** One call of addStudent, updateStudent or deleteStudent, with its input. */
  datatype StoreCall =
    | AddCall(roll: int, name: string, marks: string)
    | UpdateCall(key: int, newName: string, newMarks: string)
    | DeleteCall(key: int)

  /** The marks of every call are text that `%.2f` writes. */
  predicate MarksWritten(calls: seq<StoreCall>)
  {
    forall i :: 0 <= i < |calls| ==>
      (calls[i].AddCall? ==> IsMarksText(calls[i].marks)) &&
      (calls[i].UpdateCall? ==> IsMarksText(calls[i].newMarks))
  }

  /** The first call's marks are written text, and so are the rest's. */
  lemma MarksWrittenSplit(calls: seq<StoreCall>)
    requires calls != [] && MarksWritten(calls)
    ensures calls[0].AddCall? ==> IsMarksText(calls[0].marks)
    ensures calls[0].UpdateCall? ==> IsMarksText(calls[0].newMarks)
    ensures MarksWritten(calls[1..])
  {
    assert forall i :: 0 <= i < |calls[1..]| ==> calls[1..][i] == calls[i + 1];
  }

  /** The student file after one call. */
  function RunCall(file: Option<seq<string>>, call: StoreCall): Option<seq<string>>
  {
    match call
    case AddCall(roll, name, marks) => AddResult(file, roll, name, marks).0
    case UpdateCall(key, newName, newMarks) => UpdateResult(file, key, newName, newMarks).0
    case DeleteCall(key) => DeleteResult(file, key).0
  }

  /** The student file after the calls, one after the other. */
  function RunCalls(file: Option<seq<string>>, calls: seq<StoreCall>): Option<seq<string>>
    decreases |calls|
  {
    if calls == [] then file else RunCalls(RunCall(file, calls[0]), calls[1..])
  }

  /** One call keeps rolls unique, whatever its name. */
  lemma CallKeepsRollsUnique(file: Option<seq<string>>, call: StoreCall)
    requires call.AddCall? ==> IsMarksText(call.marks)
    requires call.UpdateCall? ==> IsMarksText(call.newMarks)
    requires UniqueRolls(Lines(file))
    ensures UniqueRolls(Lines(RunCall(file, call)))
  {
    match call {
      case AddCall(roll, name, marks) =>
        AddKeepsRollsUnique(file, roll, name, marks);
      case UpdateCall(key, newName, newMarks) =>
        UpdateKeepsUnique(file, key, newName, newMarks);
      case DeleteCall(key) =>
        if file.Some? {
          DeleteKeepsUnique(file.value, key);
        }
    }
  }

  /** Whatever adds, updates and deletes run, with any names, the empty one
      included, no two lines of the file hold the same roll, starting from a
      file whose rolls are unique, such as a missing one. */
  lemma {:induction false} CallsKeepRollsUnique(file: Option<seq<string>>, calls: seq<StoreCall>)
    requires MarksWritten(calls) && UniqueRolls(Lines(file))
    ensures UniqueRolls(Lines(RunCalls(file, calls)))
    decreases |calls|
  {
    if calls != [] {
      MarksWrittenSplit(calls);
      var next := RunCall(file, calls[0]);
      CallKeepsRollsUnique(file, calls[0]);
      CallsKeepRollsUnique(next, calls[1..]);
      assert RunCalls(file, calls) == RunCalls(next, calls[1..]);
    }
  }

  /** From a missing student file, rolls stay unique through any calls. */
  lemma FromMissingFileRollsUnique(calls: seq<StoreCall>)
    requires MarksWritten(calls)
    ensures UniqueRolls(Lines(RunCalls(None, calls)))
  {
    CallsKeepRollsUnique(None, calls);
  }

  // ---------------------------------------------------------------- scans and searches

  lemma {:induction false} HasNameExceptCons(line: string, rest: seq<string>, name: string, roll: int)
    ensures HasNameExcept([line] + rest, name, roll) <==> NameLineExcept(line, name, roll) || HasNameExcept(rest, name, roll)
  {
    var all := [line] + rest;
    assert all[0] == line && all[1..] == rest;
    if HasNameExcept(all, name, roll) {
      var i :| 0 <= i < |all| && NameLineExcept(all[i], name, roll);
      if i > 0 {
        assert all[1..][i - 1] == all[i];
      }
    }
    if HasNameExcept(rest, name, roll) {
      var i :| 0 <= i < |rest| && NameLineExcept(rest[i], name, roll);
      assert all[i + 1] == all[1..][i];
    }
  }

  /** One line: it holds the name for another roll iff delete keeps it with the name. */
  lemma NameLineExceptKept(line: string, name: string, roll: int)
    ensures NameLineExcept(line, name, roll) <==> HasName(KeptLine(line, roll), name)
  {
    FieldsOfTrimmed(line);
    var head := KeptLine(line, roll);
    if head != [] {
      assert head[0] == Trimmed(line);
    }
  }

  /** nameExistsExceptRoll(name, roll) sees exactly what nameExists(name)
      would see once the lines of `roll` are deleted. */
  lemma {:induction false} NameExceptIsNameAfterDelete(lines: seq<string>, name: string, roll: int)
    ensures HasNameExcept(lines, name, roll) <==> HasName(KeptLines(lines, roll), name)
  {
    if lines != [] {
      var line, rest := lines[0], lines[1..];
      NameExceptIsNameAfterDelete(rest, name, roll);
      HasNameConcat(KeptLine(line, roll), KeptLines(rest, roll), name);
      assert lines == [line] + rest;
      HasNameExceptCons(line, rest, name, roll);
      NameLineExceptKept(line, name, roll);
    }
  }

  /** A name that nameExistsExceptRoll finds, nameExists finds too. */
  lemma NameExceptImpliesName(lines: seq<string>, name: string, roll: int)
    ensures HasNameExcept(lines, name, roll) ==> HasName(lines, name)
    ensures !HasName(lines, name) ==> !HasNameExcept(lines, name, roll)
  {
    NameExceptIsNameAfterDelete(lines, name, roll);
    KeptLinesFromInput(lines, roll, 0, name);
  }

  /** The first record of roll `key` in the listing. */
  function FirstWithRoll(recs: seq<Record>, key: int): Option<Record>
  {
    if recs == [] then None
    else if recs[0].roll == key then Some(recs[0])
    else FirstWithRoll(recs[1..], key)
  }

  /** Search by roll finds the first record of that roll that displayStudents lists. */
  lemma {:induction false} FindByRollInListing(lines: seq<string>, key: int)
    ensures FindByRoll(lines, key) == FirstWithRoll(Records(lines), key)
  {
    if lines != [] {
      FindByRollInListing(lines[1..], key);
      var rest := Records(lines[1..]);
      if RecordOf(lines[0]).Some? {
        assert ([RecordOf(lines[0]).value] + rest)[0] == RecordOf(lines[0]).value;
        assert ([RecordOf(lines[0]).value] + rest)[1..] == rest;
      }
    }
  }

  /** An empty query matches every record. */
  lemma {:induction false} SearchEmptyQuery(recs: seq<Record>)
    ensures Matching(recs, "") == recs
  {
    if recs != [] {
      SearchEmptyQuery(recs[1..]);
      var key := NameKey(recs[0].name);
      assert key[0..] == key;
      assert NameMatches(recs[0].name, "");
    }
  }

  /** The case of the query does not matter: it is lower-cased before the search. */
  lemma {:induction false} SearchIgnoresQueryCase(recs: seq<Record>, query: string)
    ensures Matching(recs, query) == Matching(recs, Lowered(query))
  {
    LoweredIdempotent(query);
    if recs != [] {
      SearchIgnoresQueryCase(recs[1..], query);
    }
  }

  /** A name shorter than the name buffer matches every query it contains,
      and, the query being lower-cased, every case variant of one. */
  lemma SubstringMatches(name: string, query: string, other: string)
    requires |name| < NameMax && Contains(name, query)
    requires SameIgnoringCase(other, query)
    ensures NameMatches(name, query) && NameMatches(name, other)
  {
    var i :| 0 <= i <= |name| && query <= name[i..];
    var key, low := NameKey(name), Lowered(query);
    assert key == Lowered(name);
    LoweredChars(name);
    LoweredChars(query);
    forall j | 0 <= j < |low| ensures low[j] == key[i..][j] {
      assert query[j] == name[i + j];
    }
    assert low <= key[i..];
  }

  // ---------------------------------------------------------------- a session

  /** A name without delimiter is stored as it is. */
  lemma SanitizedClean(name: string)
    requires Delimiter !in name
    ensures Sanitized(name) == name
  {
    var t := Sanitized(name);
    SanitizedChars(name);
    assert forall j :: 0 <= j < |name| ==> t[j] == name[j];
  }

  /** `line` is the line written for `rec`: it reads back as `rec` and has no line break to trim. */
  predicate WrittenFor(line: string, rec: Record)
  {
    RecordOf(line) == Some(rec) && Trimmed(line) == line && HasNameField(line) && NameOf(line) == rec.name
  }

  /** What the scans of the second add see in the file the first add wrote. */
  lemma SessionScans(l1: string, r1: int, r2: int, first: string, second: string, m1: string)
    requires WrittenFor(l1, Record(r1, first, m1))
    requires r1 != r2 && NameKey(first) != NameKey(second)
    ensures !HasRoll([l1], r2) && !HasName([l1], second)
  {
    assert [l1][0] == l1;
  }

  /** The two adds of the session: both succeed, each appending its line. */
  lemma SessionAdds(l1: string, l2: string, r1: int, r2: int, first: string, second: string, m1: string, m2: string)
    requires l1 == FormatLine(r1, first, m1) && l2 == FormatLine(r2, second, m2)
    requires Sanitized(first) == first && Sanitized(second) == second
    requires !HasRoll([l1], r2) && !HasName([l1], second)
    ensures AddResult(None, r1, first, m1) == (Some([l1]), Added)
    ensures AddResult(Some([l1]), r2, second, m2) == (Some([l1, l2]), Added)
  {
    var none: seq<string> := [];
    assert none + [l1] == [l1];
    assert [l1] + [l2] == [l1, l2];
  }

  /** The update of the session: the first line is rewritten, the second kept. */
  lemma SessionUpdate(l1: string, l2: string, l3: string, r1: int, r2: int, first: string, second: string,
                      m1: string, m2: string, m3: string)
    requires l3 == FormatLine(r1, first, m3) && Sanitized(first) == first
    requires WrittenFor(l1, Record(r1, first, m1)) && WrittenFor(l2, Record(r2, second, m2))
    requires r1 != r2
    ensures UpdateResult(Some([l1, l2]), r1, first, m3) == (Some([l3, l2]), Done)
  {
    var file := [l1, l2];
    assert Rewrites(file, l1, r1, first);
    assert !Rewrites(file, l2, r1, first);
    assert file[1..][1..] == [];
    assert UpdatedLines(file, file[1..], r1, first, m3) == [l2];
    assert UpdatedLines(file, file, r1, first, m3) == [l3, l2];
    assert Rewrites(file, file[0], r1, first);
  }

  /** The delete of the session: the second roll's line goes, the first stays. */
  lemma SessionDelete(l2: string, l3: string, r1: int, r2: int, first: string, second: string, m2: string, m3: string)
    requires WrittenFor(l2, Record(r2, second, m2)) && WrittenFor(l3, Record(r1, first, m3))
    requires r1 != r2
    ensures DeleteResult(Some([l3, l2]), r2) == (Some([l3]), Done)
    ensures Records([l3]) == [Record(r1, first, m3)]
  {
    var after := [l3, l2];
    assert after[1..][1..] == [];
    assert KeptLines(after[1..], r2) == [];
    assert KeptLines(after, r2) == [l3];
    assert RollLine(after[1], r2);
    RecordsOfOne(l3);
  }

  /** Starting without a student file: add a roll, add another roll under
      another name, update the first roll keeping its name, delete the second
      roll. Every step succeeds and the listing is the one record of the first
      roll with its new marks. */
  lemma AddUpdateDeleteSession(r1: int, r2: int, first: string, second: string, m1: string, m2: string, m3: string)
    requires first != [] && Delimiter !in first && second != [] && Delimiter !in second
    requires r1 != r2 && NameKey(first) != NameKey(second)
    requires IsMarksText(m1) && IsMarksText(m2) && IsMarksText(m3)
    ensures var s1 := AddResult(None, r1, first, m1);
      var s2 := AddResult(s1.0, r2, second, m2);
      var s3 := UpdateResult(s2.0, r1, first, m3);
      var s4 := DeleteResult(s3.0, r2);
      s1.1 == Added && s2.1 == Added && s3.1 == Done && s4.1 == Done &&
      Records(Lines(s4.0)) == [Record(r1, first, m3)]
  {
    SanitizedClean(first);
    SanitizedClean(second);
    var l1, l2, l3 := FormatLine(r1, first, m1), FormatLine(r2, second, m2), FormatLine(r1, first, m3);
    ReadFormatLine(r1, first, m1);
    ReadFormatLine(r2, second, m2);
    ReadFormatLine(r1, first, m3);
    FormatLineTrimmed(r1, first, m1);
    FormatLineTrimmed(r2, second, m2);
    FormatLineTrimmed(r1, first, m3);
    SessionScans(l1, r1, r2, first, second, m1);
    SessionAdds(l1, l2, r1, r2, first, second, m1, m2);
    SessionUpdate(l1, l2, l3, r1, r2, first, second, m1, m2, m3);
    SessionDelete(l2, l3, r1, r2, first, second, m2, m3);
  }

  /** The session with "Bob" and "Carol", marks 88.50, 91.00 and 95.00. */
  lemma BobAndCarol()
    ensures var s1 := AddResult(None, 1, "Bob", "88.50");
      var s2 := AddResult(s1.0, 2, "Carol", "91.00");
      var s3 := UpdateResult(s2.0, 1, "Bob", "95.00");
      var s4 := DeleteResult(s3.0, 2);
      s1.1 == Added && s2.1 == Added && s3.1 == Done && s4.1 == Done &&
      Records(Lines(s4.0)) == [Record(1, "Bob", "95.00")]
  {
    assert |NameKey("Bob")| == 3 && |NameKey("Carol")| == 5;
    AddUpdateDeleteSession(1, 2, "Bob", "Carol", "88.50", "91.00", "95.00");
  }
}
