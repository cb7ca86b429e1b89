/** What the record store's operations compute, stated over the lines of the
    student file. Each line is read the way project.cpp reads it: the line
    break is trimmed, the text is split by strtok on '|', the first token is
    the roll (through atoi), the second the name, the third the marks. */
module RecordFile {
  import opened Wrappers
  import opened LineCodec

  /** One student as a reader of the file sees it; the marks stay the text the file holds. */
  datatype Record = Record(roll: int, name: string, marks: string)

  /** Result of an add: the line is appended only when neither guard fires. */
  datatype AddOutcome = Added | RollTaken | NameTaken

  /** Result of an update or a delete, which rewrite the whole file. */
  datatype RewriteOutcome = Done | NotFound | OpenFailed

  /** Read operations treat a missing file as an empty one. */
  function Lines(file: Option<seq<string>>): seq<string>
  {
    if file.Some? then file.value else []
  }

  /** The strtok tokens of a line once its line break is trimmed. */
  function Fields(line: string): seq<string>
  {
    Tokens(Trimmed(line))
  }

  predicate HasRollField(line: string) { |Fields(line)| >= 1 }

  function RollOf(line: string): int
    requires HasRollField(line)
  {
    Atoi(Fields(line)[0])
  }

  predicate HasNameField(line: string) { |Fields(line)| >= 2 }

  function NameOf(line: string): string
    requires HasNameField(line)
  {
    Fields(line)[1]
  }

  /** rollExists sees this line as holding `roll`. */
  predicate RollLine(line: string, roll: int)
  {
    HasRollField(line) && RollOf(line) == roll
  }

  /** nameExists sees this line as holding `name`. */
  predicate NameLine(line: string, name: string)
  {
    HasNameField(line) && NameKey(NameOf(line)) == NameKey(name)
  }

  /** nameExistsExceptRoll sees this line as holding `name` for another roll than `roll`. */
  predicate NameLineExcept(line: string, name: string, roll: int)
  {
    HasNameField(line) && RollOf(line) != roll && NameKey(NameOf(line)) == NameKey(name)
  }

  predicate HasRoll(lines: seq<string>, roll: int)
  {
    exists i :: 0 <= i < |lines| && RollLine(lines[i], roll)
  }

  predicate HasName(lines: seq<string>, name: string)
  {
    exists i :: 0 <= i < |lines| && NameLine(lines[i], name)
  }

  predicate HasNameExcept(lines: seq<string>, name: string, roll: int)
  {
    exists i :: 0 <= i < |lines| && NameLineExcept(lines[i], name, roll)
  }

  /** The record of a line that has roll, name and marks tokens; the display,
      search and update loops skip every other line. */
  function RecordOf(line: string): (r: Option<Record>)
    ensures r.Some? <==> |Fields(line)| >= 3
    ensures r.Some? ==> RollLine(line, r.value.roll) && NameOf(line) == r.value.name
    ensures r.Some? ==> r.value.marks == Fields(line)[2]
  {
    var f := Fields(line);
    if |f| >= 3 then Some(Record(Atoi(f[0]), f[1], f[2])) else None
  }

  // ---------------------------------------------------------------- listing and search

  /** displayStudents: the records of the file, in file order. */
  function Records(lines: seq<string>): (r: seq<Record>)
    ensures |r| <= |lines|
  {
    if lines == [] then []
    else
      var head := RecordOf(lines[0]);
      if head.Some? then [head.value] + Records(lines[1..]) else Records(lines[1..])
  }

  /** Every listed record is the record of some line. */
  lemma {:induction false} RecordsFromLines(lines: seq<string>)
    ensures forall k :: 0 <= k < |Records(lines)| ==>
      exists i :: 0 <= i < |lines| && RecordOf(lines[i]) == Some(Records(lines)[k])
  {
    if lines != [] {
      var r, rest := Records(lines), Records(lines[1..]);
      RecordsFromLines(lines[1..]);
      var head := RecordOf(lines[0]);
      assert head.Some? ==> r == [head.value] + rest;
      assert head.None? ==> r == rest;
      forall k | 0 <= k < |r| ensures exists i :: 0 <= i < |lines| && RecordOf(lines[i]) == Some(r[k]) {
        if head.Some? && k == 0 {
          assert RecordOf(lines[0]) == Some(r[k]);
        } else {
          var k' := if head.Some? then k - 1 else k;
          assert r[k] == rest[k'];
          var i :| 0 <= i < |lines[1..]| && RecordOf(lines[1..][i]) == Some(rest[k']);
          assert lines[1..][i] == lines[i + 1];
        }
      }
    } else {
      assert Records(lines) == [];
    }
  }

  /** Every line with a record has it listed. */
  lemma {:induction false} LinesListed(lines: seq<string>)
    ensures forall i :: 0 <= i < |lines| && RecordOf(lines[i]).Some? ==> RecordOf(lines[i]).value in Records(lines)
  {
    if lines != [] {
      var r, rest := Records(lines), Records(lines[1..]);
      LinesListed(lines[1..]);
      var head := RecordOf(lines[0]);
      assert head.Some? ==> r == [head.value] + rest;
      assert head.None? ==> r == rest;
      forall i | 0 <= i < |lines| && RecordOf(lines[i]).Some? ensures RecordOf(lines[i]).value in r {
        if i > 0 {
          assert lines[1..][i - 1] == lines[i];
        }
      }
    } else {
      assert Records(lines) == [];
    }
  }

  /** The line has a record, and its roll is `key`. */
  predicate RecordWithRoll(line: string, key: int)
  {
    RecordOf(line).Some? && RecordOf(line).value.roll == key
  }

  /** Line `i` holds the first record in file order whose roll is `key`. */
  predicate FirstRecordAt(lines: seq<string>, key: int, i: int)
  {
    0 <= i < |lines| && RecordWithRoll(lines[i], key) &&
    forall j :: 0 <= j < i ==> !RecordWithRoll(lines[j], key)
  }

  /** Search by roll: the record of the first line, in file order, that has one with roll `key`. */
  function FindByRoll(lines: seq<string>, key: int): (r: Option<Record>)
    ensures r.Some? ==> r.value.roll == key
  {
    if lines == [] then None
    else if RecordWithRoll(lines[0], key) then RecordOf(lines[0])
    else FindByRoll(lines[1..], key)
  }

  /** Search by roll finds nothing exactly when no line has a record of roll
      `key`, and otherwise finds the record of the first such line. */
  lemma {:induction false} FindByRollFirst(lines: seq<string>, key: int)
    ensures FindByRoll(lines, key).None? <==> forall i :: 0 <= i < |lines| ==> !RecordWithRoll(lines[i], key)
    ensures FindByRoll(lines, key).Some? ==>
      exists i :: FirstRecordAt(lines, key, i) && RecordOf(lines[i]) == FindByRoll(lines, key)
  {
    if lines != [] {
      if RecordWithRoll(lines[0], key) {
        assert FirstRecordAt(lines, key, 0);
      } else {
        var rest := lines[1..];
        FindByRollFirst(rest, key);
        if FindByRoll(rest, key).Some? {
          var i :| FirstRecordAt(rest, key, i) && RecordOf(rest[i]) == FindByRoll(rest, key);
          forall j | 0 < j <= i ensures !RecordWithRoll(lines[j], key) {
            assert lines[j] == rest[j - 1];
          }
          assert lines[i + 1] == rest[i];
          assert FirstRecordAt(lines, key, i + 1);
        } else {
          forall j | 0 < j < |lines| ensures !RecordWithRoll(lines[j], key) {
            assert lines[j] == rest[j - 1];
          }
        }
      }
    }
  }

  /** A name matches a query when its first NameMax - 1 characters, lower-cased,
      contain the lower-cased query (strstr after the tolower loops). */
  predicate NameMatches(name: string, query: string)
  {
    Contains(NameKey(name), Lowered(query))
  }

  /** Search by name: the records whose name matches, in file order. */
  function Matching(recs: seq<Record>, query: string): (r: seq<Record>)
    ensures |r| <= |recs|
  {
    if recs == [] then []
    else if NameMatches(recs[0].name, query) then [recs[0]] + Matching(recs[1..], query)
    else Matching(recs[1..], query)
  }

  /** Search by name finds exactly the records whose name matches. */
  lemma {:induction false} MatchingExactly(recs: seq<Record>, query: string)
    ensures forall k :: 0 <= k < |Matching(recs, query)| ==>
      Matching(recs, query)[k] in recs && NameMatches(Matching(recs, query)[k].name, query)
    ensures forall k :: 0 <= k < |recs| && NameMatches(recs[k].name, query) ==> recs[k] in Matching(recs, query)
  {
    if recs != [] {
      MatchingExactly(recs[1..], query);
      assert forall k :: 1 <= k < |recs| ==> recs[k] == recs[1..][k - 1];
    }
  }

  // ---------------------------------------------------------------- add

  /** addStudent: the roll guard, then the guard on the sanitised name, then one appended line. */
  function AddResult(file: Option<seq<string>>, roll: int, name: string, marks: string)
    : (r: (Option<seq<string>>, AddOutcome))
    ensures r.1 == RollTaken <==> HasRoll(Lines(file), roll)
    ensures r.1 != Added ==> r.0 == file
    ensures r.1 == Added ==> r.0.Some? && |r.0.value| == |Lines(file)| + 1 && r.0.value[..|Lines(file)|] == Lines(file)
  {
    var lines := Lines(file);
    if HasRoll(lines, roll) then (file, RollTaken)
    else if HasName(lines, Sanitized(name)) then (file, NameTaken)
    else (Some(lines + [FormatLine(roll, Sanitized(name), marks)]), Added)
  }

  // ---------------------------------------------------------------- delete

  /** What deleteStudent writes for one line: nothing for an empty line, a
      line without tokens or a line holding `key`; the trimmed line otherwise. */
  function KeptLine(line: string, key: int): seq<string>
  {
    if HasRollField(line) && RollOf(line) != key then [Trimmed(line)] else []
  }

  function KeptLines(lines: seq<string>, key: int): (r: seq<string>)
    ensures |r| <= |lines|
  {
    if lines == [] then [] else KeptLine(lines[0], key) + KeptLines(lines[1..], key)
  }

  /** The delete copy of two parts joined is the two copies joined. */
  lemma {:induction false} KeptLinesAppend(a: seq<string>, b: seq<string>, key: int)
    ensures KeptLines(a + b, key) == KeptLines(a, key) + KeptLines(b, key)
  {
    if a == [] {
      assert a + b == b;
    } else {
      var ab := a + b;
      assert ab[0] == a[0] && ab[1..] == a[1..] + b;
      KeptLinesAppend(a[1..], b, key);
      assert KeptLines(ab, key) == KeptLine(a[0], key) + KeptLines(a[1..] + b, key);
    }
  }

  /** deleteStudent: a missing file is left missing; otherwise the file is
      rewritten, and the outcome says whether some line held the roll. */
  function DeleteResult(file: Option<seq<string>>, key: int): (r: (Option<seq<string>>, RewriteOutcome))
    ensures r.1 == OpenFailed <==> file.None?
    ensures r.0.None? <==> file.None?
  {
    if file.None? then (None, OpenFailed)
    else (Some(KeptLines(file.value, key)), if HasRoll(file.value, key) then Done else NotFound)
  }

  // ---------------------------------------------------------------- update

  /** The record on `line` is rewritten: its roll is `key`, and the new name
      either equals its name up to case or is held by no other roll in `orig`. */
  predicate Rewrites(orig: seq<string>, line: string, key: int, newName: string)
  {
    var rec := RecordOf(line);
    rec.Some? && rec.value.roll == key &&
    (SameIgnoringCase(newName, rec.value.name) || !HasNameExcept(orig, newName, key))
  }

  /** Some line of `lines` is rewritten. */
  predicate AnyRewrites(orig: seq<string>, lines: seq<string>, key: int, newName: string)
  {
    exists i :: 0 <= i < |lines| && Rewrites(orig, lines[i], key, newName)
  }

  /** What updateStudent writes for one line: nothing for a line without
      roll, name and marks; the new record for a rewritten line; the trimmed
      line otherwise, also when the new name is refused. */
  function UpdatedLine(orig: seq<string>, line: string, key: int, newName: string, marks: string): seq<string>
  {
    if RecordOf(line).None? then []
    else if Rewrites(orig, line, key, newName) then [FormatLine(RecordOf(line).value.roll, newName, marks)]
    else [Trimmed(line)]
  }

  /** The rewritten file; name conflicts are looked up in `orig`, the file as it was before the update. */
  function UpdatedLines(orig: seq<string>, lines: seq<string>, key: int, newName: string, marks: string): (r: seq<string>)
    ensures |r| <= |lines|
  {
    if lines == [] then []
    else UpdatedLine(orig, lines[0], key, newName, marks) + UpdatedLines(orig, lines[1..], key, newName, marks)
  }

  /** One step of UpdatedLines, stated on its own. */
  lemma UpdatedLinesUnfold(orig: seq<string>, lines: seq<string>, key: int, newName: string, marks: string)
    requires lines != []
    ensures UpdatedLines(orig, lines, key, newName, marks) ==
      UpdatedLine(orig, lines[0], key, newName, marks) + UpdatedLines(orig, lines[1..], key, newName, marks)
  {
  }

  /** updateStudent: a missing file is left missing; otherwise the file is
      rewritten with the sanitised name, and the outcome says whether a line was rewritten. */
  function UpdateResult(file: Option<seq<string>>, key: int, name: string, marks: string)
    : (r: (Option<seq<string>>, RewriteOutcome))
    ensures r.1 == OpenFailed <==> file.None?
    ensures r.0.None? <==> file.None?
  {
    if file.None? then (None, OpenFailed)
    else
      var lines, s := file.value, Sanitized(name);
      (Some(UpdatedLines(lines, lines, key, s, marks)),
       if AnyRewrites(lines, lines, key, s) then Done else NotFound)
  }

  /** Every element is one line of text: none holds a line break. */
  predicate SingleLines(lines: seq<string>)
  {
    forall i :: 0 <= i < |lines| ==> '\n' !in lines[i]
  }

  // ---------------------------------------------------------------- the uniqueness invariants

  /** No two lines that rollExists can see hold the same roll. */
  ghost predicate UniqueRolls(lines: seq<string>)
  {
    forall i, j :: 0 <= i < j < |lines| && HasRollField(lines[i]) && HasRollField(lines[j]) ==>
      RollOf(lines[i]) != RollOf(lines[j])
  }

  /** No two lines that nameExists can see hold the same name, up to case. */
  ghost predicate UniqueNames(lines: seq<string>)
  {
    forall i, j :: 0 <= i < j < |lines| && HasNameField(lines[i]) && HasNameField(lines[j]) ==>
      NameKey(NameOf(lines[i])) != NameKey(NameOf(lines[j]))
  }
}
