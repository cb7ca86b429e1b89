/** The student record store of project.cpp: the student file and the
    operations that scan it, append to it or rewrite it. Prompts become
    parameters; the file becomes the field `file`, the sequence of its lines
    (without their line breaks), or None while it does not exist. Writing a
    temporary file and renaming it over the original is one assignment of
    the new sequence. */
module Store {
  import opened Wrappers
  import opened LineCodec
  import opened RecordFile

  class RecordStore {
    /** The student file, one element per line; None while it does not exist. */
    var file: Option<seq<string>>

    /** Every element is one line of text: none holds a line break. */
    ghost predicate Valid()
      reads this
    {
      SingleLines(Lines(file))
    }

    constructor (initial: Option<seq<string>>)
      requires SingleLines(Lines(initial))
      ensures Valid() && file == initial
    {
      file := initial;
    }

    /** rollExists: a scan that stops at the first line whose roll token reads as `roll`. */
    method RollExists(roll: int) returns (b: bool)
      ensures b == HasRoll(Lines(file), roll)
    {
      if file.None? {
        return false;
      }
      var lines := file.value;
      var i := 0;
      while i < |lines|
        invariant 0 <= i <= |lines|
        invariant forall j :: 0 <= j < i ==> !RollLine(lines[j], roll)
      {
        var tokens := SplitLine(lines[i]);
        if tokens != [] && Atoi(tokens[0]) == roll {
          assert RollLine(lines[i], roll);
          return true;
        }
        i := i + 1;
      }
      return false;
    }

    /** The first steps of every loop body: trim the line break, skip an
        empty line, split the rest with strtok. */
    static method SplitLine(raw: string) returns (tokens: seq<string>)
      ensures tokens == Fields(raw)
    {
      var line := TrimNewline(raw);
      if line == [] {
        return [];
      }
      tokens := Tokens(line);
    }

    /** nameExists: a scan that stops at the first line whose name token
        equals `name` once both are cut to NameMax - 1 characters and lower-cased. */
    method NameExists(name: string) returns (b: bool)
      ensures b == HasName(Lines(file), name)
    {
      if file.None? {
        return false;
      }
      var lines := file.value;
      var wanted := LowerCopy(name, NameMax - 1);
      var i := 0;
      while i < |lines|
        invariant 0 <= i <= |lines|
        invariant forall j :: 0 <= j < i ==> !NameLine(lines[j], name)
      {
        var tokens := SplitLine(lines[i]);
        if |tokens| >= 2 {
          var existing := LowerCopy(tokens[1], NameMax - 1);
          if wanted == existing {
            assert NameLine(lines[i], name);
            return true;
          }
        }
        i := i + 1;
      }
      return false;
    }

    /** The body of the nameExistsExceptRoll loop for one line. */
    static method NameTokenIsExcept(raw: string, ghost name: string, wanted: string, roll: int) returns (b: bool)
      requires wanted == NameKey(name)
      ensures b == NameLineExcept(raw, name, roll)
    {
      var tokens := SplitLine(raw);
      if |tokens| < 2 || Atoi(tokens[0]) == roll {
        return false;
      }
      var existing := LowerCopy(tokens[1], NameMax - 1);
      return wanted == existing;
    }

    /** nameExistsExceptRoll: nameExists, skipping every line whose roll token reads as `roll`. */
    method NameExistsExceptRoll(name: string, roll: int) returns (b: bool)
      ensures b == HasNameExcept(Lines(file), name, roll)
    {
      if file.None? {
        return false;
      }
      var lines := file.value;
      var wanted := LowerCopy(name, NameMax - 1);
      var i := 0;
      while i < |lines|
        invariant 0 <= i <= |lines|
        invariant forall j :: 0 <= j < i ==> !NameLineExcept(lines[j], name, roll)
      {
        var same := NameTokenIsExcept(lines[i], name, wanted, roll);
        if same {
          return true;
        }
        i := i + 1;
      }
      return false;
    }

    /** The part of every read loop that turns one line into a record, or into nothing. */
    static method ReadRecord(raw: string) returns (r: Option<Record>)
      ensures r == RecordOf(raw)
    {
      var tokens := SplitLine(raw);
      if |tokens| < 3 {
        return None;
      }
      return Some(Record(Atoi(tokens[0]), tokens[1], tokens[2]));
    }

    /** displayStudents: every record of the file, in file order. */
    method DisplayStudents() returns (recs: seq<Record>)
      ensures recs == Records(Lines(file))
    {
      recs := [];
      if file.None? {
        return;
      }
      var lines := file.value;
      var i := 0;
      while i < |lines|
        invariant 0 <= i <= |lines|
        invariant Records(lines) == recs + Records(lines[i..])
      {
        assert lines[i..][1..] == lines[i + 1..];
        var r := ReadRecord(lines[i]);
        if r.Some? {
          recs := recs + [r.value];
        }
        i := i + 1;
      }
      assert lines[i..] == [];
    }

    /** searchStudent by roll: the first record in file order with roll `key`. */
    method SearchByRoll(key: int) returns (r: Option<Record>)
      ensures r == FindByRoll(Lines(file), key)
    {
      if file.None? {
        return None;
      }
      var lines := file.value;
      var i := 0;
      while i < |lines|
        invariant 0 <= i <= |lines|
        invariant FindByRoll(lines, key) == FindByRoll(lines[i..], key)
      {
        assert lines[i..][1..] == lines[i + 1..];
        var rec := ReadRecord(lines[i]);
        if rec.Some? && rec.value.roll == key {
          return rec;
        }
        i := i + 1;
      }
      return None;
    }

    /** searchStudent by name: every record, in file order, whose name cut to
        NameMax - 1 characters contains the query, both lower-cased. */
    method SearchByName(query: string) returns (found: seq<Record>)
      ensures found == Matching(Records(Lines(file)), query)
    {
      found := [];
      if file.None? {
        return;
      }
      var lines := file.value;
      var lowQuery := LowerCopy(query, |query|);
      var i := 0;
      while i < |lines|
        invariant 0 <= i <= |lines|
        invariant Matching(Records(lines), query) == found + Matching(Records(lines[i..]), query)
      {
        var hit := MatchLine(lines[i], query, lowQuery);
        SearchStep(lines, i, query, found, hit);
        found := found + hit;
        i := i + 1;
      }
      assert lines[i..] == [];
    }

    /** The body of the search-by-name loop for one line: its record when it
        has one whose name matches the query. */
    static method MatchLine(raw: string, ghost query: string, lowQuery: string) returns (hit: seq<Record>)
      requires lowQuery == Lowered(query)
      ensures hit == MatchOf(raw, query)
    {
      var rec := ReadRecord(raw);
      if rec.None? {
        return [];
      }
      var lowName := LowerCopy(rec.value.name, NameMax - 1);
      hit := if Contains(lowName, lowQuery) then [rec.value] else [];
    }

    /** addStudent: refuses a roll that exists, then a sanitised name that
        exists up to case; otherwise appends one line `roll|name|marks`. */
    method AddStudent(roll: int, name: string, marks: string) returns (outcome: AddOutcome)
      requires Valid()
      requires |name| < NameMax && '\n' !in name
      requires IsMarksText(marks)
      modifies this
      ensures Valid()
      ensures (file, outcome) == AddResult(old(file), roll, name, marks)
    {
      var rollTaken := RollExists(roll);
      if rollTaken {
        return RollTaken;
      }
      var buf := new char[|name|](i requires 0 <= i < |name| => name[i]);
      assert buf[..] == name;
      SanitizePipe(buf);
      var clean := buf[..];
      var nameTaken := NameExists(clean);
      if nameTaken {
        return NameTaken;
      }
      SanitizedSingleLine(name);
      FormatLineSingleLine(roll, clean, marks);
      file := Some(Lines(file) + [FormatLine(roll, clean, marks)]);
      return Added;
    }

    /** The body of the deleteStudent loop for one line: what it writes, and
        whether the line holds `key`. */
    static method DeleteStep(raw: string, key: int) returns (written: seq<string>, hit: bool)
      requires '\n' !in raw
      ensures written == KeptLine(raw, key) && SingleLines(written)
      ensures hit == RollLine(raw, key)
    {
      SingleLineTrimmed(raw);
      var line := TrimNewline(raw);
      written, hit := [], false;
      if line == [] {
        return;
      }
      var tokens := Tokens(line);
      if tokens == [] {
        return;
      }
      if Atoi(tokens[0]) == key {
        hit := true;
      } else {
        written := [line];
      }
    }

    /** The copying loop of deleteStudent, from the student file into the
        temporary file: every line in turn goes through DeleteStep. */
    static method CopyWithout(lines: seq<string>, key: int) returns (out: seq<string>, found: bool)
      requires SingleLines(lines)
      ensures out == KeptLines(lines, key) && SingleLines(out)
      ensures found == HasRoll(lines, key)
    {
      out, found := [], false;
      var i := 0;
      while i < |lines|
        invariant 0 <= i <= |lines|
        invariant out == KeptLines(lines[..i], key)
        invariant found == HasRoll(lines[..i], key)
        invariant SingleLines(out)
      {
        out, found := DeleteLine(lines, i, key, out, found);
        i := i + 1;
      }
      assert lines[..i] == lines;
    }

    /** One turn of the deleteStudent loop: line `i` goes through DeleteStep
        and what it writes is added to the temporary file. */
    static method DeleteLine(lines: seq<string>, i: nat, key: int, out: seq<string>, found: bool)
      returns (out': seq<string>, found': bool)
      requires SingleLines(lines) && i < |lines|
      requires out == KeptLines(lines[..i], key) && SingleLines(out)
      requires found == HasRoll(lines[..i], key)
      ensures out' == KeptLines(lines[..i + 1], key) && SingleLines(out')
      ensures found' == HasRoll(lines[..i + 1], key)
    {
      var written, hit := DeleteStep(lines[i], key);
      KeptLinesStep(lines, i, key);
      HasRollStep(lines, i, key, found, hit);
      SingleLinesAppend(out, written);
      out', found' := out + written, found || hit;
    }

    /** deleteStudent: a missing file is an error and stays missing;
        otherwise the file is replaced by its copy without the lines of `key`. */
    method DeleteStudent(key: int) returns (outcome: RewriteOutcome)
      requires Valid()
      modifies this
      ensures Valid()
      ensures (file, outcome) == DeleteResult(old(file), key)
    {
      if file.None? {
        return OpenFailed;
      }
      var out, found := CopyWithout(file.value, key);
      file := Some(out);
      outcome := if found then Done else NotFound;
    }

    /** The body of the updateStudent loop for one line: what it writes, and
        whether it rewrote the line. Name conflicts are looked up in the file
        as it still is. */
    method UpdateStep(raw: string, key: int, newName: string, newMarks: string)
      returns (written: seq<string>, rewritten: bool)
      requires file.Some?
      requires '\n' !in raw && '\n' !in newName && IsMarksText(newMarks)
      ensures written == UpdatedLine(file.value, raw, key, Sanitized(newName), newMarks) && SingleLines(written)
      ensures rewritten == Rewrites(file.value, raw, key, Sanitized(newName))
    {
      SingleLineTrimmed(raw);
      written, rewritten := [], false;
      var line := TrimNewline(raw);
      if line == [] {
        return;
      }
      var tokens := Tokens(line);
      if |tokens| < 3 {
        return;
      }
      var roll := Atoi(tokens[0]);
      if roll != key {
        written := [line];
        return;
      }
      var buf := new char[|newName|](k requires 0 <= k < |newName| => newName[k]);
      assert buf[..] == newName;
      SanitizePipe(buf);
      var clean := buf[..];
      var conflict := false;
      if !SameIgnoringCase(clean, tokens[1]) {
        conflict := NameExistsExceptRoll(clean, roll);
      }
      if conflict {
        written := [line];
      } else {
        SanitizedSingleLine(newName);
        FormatLineSingleLine(roll, clean, newMarks);
        written := [FormatLine(roll, clean, newMarks)];
        rewritten := true;
      }
    }

    /** The copying loop of updateStudent, from the student file into the
        temporary file: every line in turn goes through UpdateStep, while the
        student file itself is not yet replaced. */
    method CopyWithUpdate(key: int, newName: string, newMarks: string) returns (out: seq<string>, found: bool)
      requires file.Some? && SingleLines(file.value)
      requires '\n' !in newName && IsMarksText(newMarks)
      ensures out == UpdatedLines(file.value, file.value, key, Sanitized(newName), newMarks)
      ensures found == AnyRewrites(file.value, file.value, key, Sanitized(newName))
      ensures SingleLines(out)
    {
      var lines := file.value;
      ghost var clean := Sanitized(newName);
      out, found := [], false;
      var i := 0;
      assert lines[0..] == lines && lines[..0] == [];
      while i < |lines|
        invariant 0 <= i <= |lines|
        invariant out + UpdatedLines(lines, lines[i..], key, clean, newMarks) == UpdatedLines(lines, lines, key, clean, newMarks)
        invariant found == AnyRewrites(lines, lines[..i], key, clean)
        invariant SingleLines(out)
      {
        out, found := CopyLine(i, key, newName, newMarks, out, found);
        i := i + 1;
      }
      assert lines[..i] == lines && lines[i..] == [];
      NothingLeft(out, UpdatedLines(lines, lines[i..], key, clean, newMarks), UpdatedLines(lines, lines, key, clean, newMarks));
    }

    /** One turn of the updateStudent loop: line `i` goes through UpdateStep
        and what it writes is added to the temporary file. */
    method CopyLine(i: nat, key: int, newName: string, newMarks: string, out: seq<string>, found: bool)
      returns (out': seq<string>, found': bool)
      requires file.Some? && SingleLines(file.value) && i < |file.value|
      requires '\n' !in newName && IsMarksText(newMarks)
      requires out + UpdatedLines(file.value, file.value[i..], key, Sanitized(newName), newMarks) ==
        UpdatedLines(file.value, file.value, key, Sanitized(newName), newMarks)
      requires found == AnyRewrites(file.value, file.value[..i], key, Sanitized(newName))
      requires SingleLines(out)
      ensures out' + UpdatedLines(file.value, file.value[i + 1..], key, Sanitized(newName), newMarks) ==
        UpdatedLines(file.value, file.value, key, Sanitized(newName), newMarks)
      ensures found' == AnyRewrites(file.value, file.value[..i + 1], key, Sanitized(newName))
      ensures SingleLines(out')
    {
      var lines := file.value;
      var written, rewritten := UpdateStep(lines[i], key, newName, newMarks);
      UpdatedLinesStep(lines, i, key, Sanitized(newName), newMarks);
      AnyRewritesStep(lines, i, key, Sanitized(newName), found, rewritten);
      SingleLinesAppend(out, written);
      out', found' := out + written, found || rewritten;
      MoveToOutput(out, written, UpdatedLines(lines, lines[i..], key, Sanitized(newName), newMarks),
                   UpdatedLines(lines, lines[i + 1..], key, Sanitized(newName), newMarks));
    }

    /** updateStudent: a missing file is an error and stays missing;
        otherwise the file is replaced by its updated copy. */
    method UpdateStudent(key: int, newName: string, newMarks: string) returns (outcome: RewriteOutcome)
      requires Valid()
      requires |newName| < NameMax && '\n' !in newName
      requires IsMarksText(newMarks)
      modifies this
      ensures Valid()
      ensures (file, outcome) == UpdateResult(old(file), key, newName, newMarks)
    {
      if file.None? {
        return OpenFailed;
      }
      var out, found := CopyWithUpdate(key, newName, newMarks);
      file := Some(out);
      outcome := if found then Done else NotFound;
    }
  }

  /** What the search loop collects from one line. */
  function MatchOf(line: string, query: string): seq<Record>
  {
    var rec := RecordOf(line);
    if rec.Some? && NameMatches(rec.value.name, query) then [rec.value] else []
  }

  /** One step of the search loop: line `i` contributes its record when it has one that matches. */
  lemma SearchStep(lines: seq<string>, i: nat, query: string, found: seq<Record>, hit: seq<Record>)
    requires i < |lines|
    requires Matching(Records(lines), query) == found + Matching(Records(lines[i..]), query)
    requires hit == MatchOf(lines[i], query)
    ensures Matching(Records(lines), query) == (found + hit) + Matching(Records(lines[i + 1..]), query)
  {
    assert lines[i..][1..] == lines[i + 1..];
    var rest := Records(lines[i + 1..]);
    if RecordOf(lines[i]).Some? {
      assert ([RecordOf(lines[i]).value] + rest)[1..] == rest;
    }
  }

  /** One step of the delete loop: what it writes for line `i`. */
  lemma KeptLinesStep(lines: seq<string>, i: nat, key: int)
    requires i < |lines|
    ensures KeptLines(lines[..i + 1], key) == KeptLines(lines[..i], key) + KeptLine(lines[i], key)
  {
    var one := [lines[i]];
    assert lines[..i + 1] == lines[..i] + one;
    KeptLinesAppend(lines[..i], one, key);
    assert one[0] == lines[i] && one[1..] == [];
    assert KeptLines(one, key) == KeptLine(lines[i], key) + KeptLines([], key);
  }

  /** One step of a scan for a roll: whether lines 0 to `i` hold it. */
  lemma HasRollStep(lines: seq<string>, i: nat, key: int, found: bool, hit: bool)
    requires i < |lines|
    requires found == HasRoll(lines[..i], key) && hit == RollLine(lines[i], key)
    ensures (found || hit) == HasRoll(lines[..i + 1], key)
  {
    assert lines[..i + 1] == lines[..i] + [lines[i]];
    HasRollAppend(lines[..i], lines[i], key);
  }

  /** Once nothing is left to write, the output is the whole. */
  lemma NothingLeft<T>(out: seq<T>, todo: seq<T>, whole: seq<T>)
    requires out + todo == whole && todo == []
    ensures out == whole
  {
    assert out + todo == out;
  }

  /** Moving the first part of what is still to be written onto the output
      keeps the whole. */
  lemma MoveToOutput<T>(out: seq<T>, part: seq<T>, todo: seq<T>, rest: seq<T>)
    requires todo == part + rest
    ensures (out + part) + rest == out + todo
  {
  }

  /** One step of the update loop: what it writes for line `i`. */
  lemma UpdatedLinesStep(lines: seq<string>, i: nat, key: int, newName: string, marks: string)
    requires i < |lines|
    ensures UpdatedLines(lines, lines[i..], key, newName, marks) ==
      UpdatedLine(lines, lines[i], key, newName, marks) + UpdatedLines(lines, lines[i + 1..], key, newName, marks)
  {
    var rest := lines[i..];
    assert rest[0] == lines[i] && rest[1..] == lines[i + 1..];
    UpdatedLinesUnfold(lines, rest, key, newName, marks);
  }

  /** One step of the update loop: whether lines 0 to `i` hold a line it rewrites. */
  lemma AnyRewritesStep(lines: seq<string>, i: nat, key: int, newName: string, found: bool, hit: bool)
    requires i < |lines|
    requires found == AnyRewrites(lines, lines[..i], key, newName)
    requires hit == Rewrites(lines, lines[i], key, newName)
    ensures (found || hit) == AnyRewrites(lines, lines[..i + 1], key, newName)
  {
    assert lines[..i + 1] == lines[..i] + [lines[i]];
    AnyRewritesAppend(lines, lines[..i], lines[i], key, newName);
  }

  lemma HasRollAppend(lines: seq<string>, line: string, key: int)
    ensures HasRoll(lines + [line], key) == (HasRoll(lines, key) || RollLine(line, key))
  {
    var all := lines + [line];
    assert all[|lines|] == line;
    assert forall i :: 0 <= i < |lines| ==> all[i] == lines[i];
  }

  lemma AnyRewritesAppend(orig: seq<string>, lines: seq<string>, line: string, key: int, newName: string)
    ensures AnyRewrites(orig, lines + [line], key, newName) ==
      (AnyRewrites(orig, lines, key, newName) || Rewrites(orig, line, key, newName))
  {
    var all := lines + [line];
    assert all[|lines|] == line;
    assert forall i :: 0 <= i < |lines| ==> all[i] == lines[i];
  }

  lemma SingleLinesAppend(a: seq<string>, b: seq<string>)
    requires SingleLines(a) && SingleLines(b)
    ensures SingleLines(a + b)
  {
    assert forall i :: |a| <= i < |a + b| ==> (a + b)[i] == b[i - |a|];
  }

  /** Trimming keeps a line free of line breaks. */
  lemma SingleLineTrimmed(line: string)
    ensures '\n' !in line ==> '\n' !in Trimmed(line)
  {
    var t := Trimmed(line);
    assert forall j :: 0 <= j < |t| ==> t[j] == line[j];
  }

  /** Sanitising keeps a name free of line breaks. */
  lemma SanitizedSingleLine(name: string)
    ensures '\n' !in name ==> '\n' !in Sanitized(name)
  {
    var s := Sanitized(name);
    SanitizedChars(name);
    assert forall j :: 0 <= j < |s| && s[j] == '\n' ==> name[j] == '\n';
  }
}
