/** The text form of one student record, the line `roll|name|marks`, and the
    C library routines the store reads it back with: newline trimming,
    delimiter sanitising, ASCII lower-casing, strtok field splitting
    (ISO/IEC 9899:2011 section 7.24.5.8), atoi (section 7.22.1.2) and the
    `%d` rendering of the roll. */
module LineCodec {

  /** Size of the name buffers; names are compared on their first NameMax - 1 characters. */
  const NameMax: nat := 200

  /** The field separator of the record file. */
  const Delimiter: char := '|'

  // ---------------------------------------------------------------- trimNewline

  predicate IsNewline(c: char) { c == '\n' || c == '\r' }

  /** `s` without its trailing run of '\n' and '\r' characters. */
  function Trimmed(s: string): (t: string)
    ensures |t| <= |s| && t == s[..|t|]
    ensures t == [] || !IsNewline(t[|t| - 1])
    decreases |s|
  {
    if s != [] && IsNewline(s[|s| - 1]) then Trimmed(s[..|s| - 1]) else s
  }

  /** Trimming removes only line-break characters. */
  lemma {:induction false} TrimmedRemovesLineBreaks(s: string)
    ensures forall j :: |Trimmed(s)| <= j < |s| ==> IsNewline(s[j])
    decreases |s|
  {
    if s != [] && IsNewline(s[|s| - 1]) {
      var u := s[..|s| - 1];
      TrimmedRemovesLineBreaks(u);
      assert forall j :: 0 <= j < |u| ==> u[j] == s[j];
    }
  }

  /** trimNewline: shrinks the string from the end while it ends in '\n' or '\r'. */
  method TrimNewline(s: string) returns (t: string)
    ensures t == Trimmed(s)
  {
    var n := |s|;
    assert s[..n] == s;
    while n > 0 && IsNewline(s[n - 1])
      invariant 0 <= n <= |s|
      invariant Trimmed(s[..n]) == Trimmed(s)
    {
      assert s[..n][..n - 1] == s[..n - 1];
      n := n - 1;
    }
    t := s[..n];
  }

  // ---------------------------------------------------------------- sanitizePipe

  function SanitizeChar(c: char): char { if c == Delimiter then ' ' else c }

  /** The name with every delimiter replaced by a space. */
  function Sanitized(s: string): (r: string)
    ensures |r| == |s|
    ensures Delimiter !in r
  {
    if s == [] then [] else [SanitizeChar(s[0])] + Sanitized(s[1..])
  }

  /** Every delimiter of the name becomes a space and every other character stays. */
  lemma {:induction false} SanitizedChars(s: string)
    ensures forall i :: 0 <= i < |s| && s[i] != Delimiter ==> Sanitized(s)[i] == s[i]
    ensures forall i :: 0 <= i < |s| && s[i] == Delimiter ==> Sanitized(s)[i] == ' '
  {
    if s != [] {
      SanitizedChars(s[1..]);
      assert forall i :: 1 <= i < |s| ==> Sanitized(s)[i] == Sanitized(s[1..])[i - 1] && s[i] == s[1..][i - 1];
    }
  }

  /** sanitizePipe: rewrites the name buffer in place. */
  method SanitizePipe(a: array<char>)
    modifies a
    ensures a[..] == Sanitized(old(a[..]))
  {
    var i := 0;
    while i < a.Length
      invariant 0 <= i <= a.Length
      invariant forall k :: 0 <= k < i ==> a[k] == SanitizeChar(old(a[k]))
      invariant forall k :: i <= k < a.Length ==> a[k] == old(a[k])
    {
      if a[i] == Delimiter {
        a[i] := ' ';
      }
      i := i + 1;
    }
    SanitizedChars(old(a[..]));
  }

  /** Sanitising twice is sanitising once. */
  lemma SanitizedIdempotent(s: string)
    ensures Sanitized(Sanitized(s)) == Sanitized(s)
  {
    var r := Sanitized(s);
    assert forall i :: 0 <= i < |r| ==> r[i] != Delimiter;
  }

  // ---------------------------------------------------------------- tolower, strncpy

  /** tolower in the C locale: only 'A'..'Z' change. */
  function LowerChar(c: char): char
  {
    if 'A' <= c <= 'Z' then (c as int - 'A' as int + 'a' as int) as char else c
  }

  /** The string lower-cased character by character. */
  function Lowered(s: string): (r: string)
    ensures |r| == |s|
  {
    if s == [] then [] else [LowerChar(s[0])] + Lowered(s[1..])
  }

  /** Each character is its tolower, so no upper-case ASCII letter remains. */
  lemma {:induction false} LoweredChars(s: string)
    ensures forall i :: 0 <= i < |s| ==> Lowered(s)[i] == LowerChar(s[i])
    ensures forall i :: 0 <= i < |s| ==> !('A' <= Lowered(s)[i] <= 'Z')
  {
    if s != [] {
      LoweredChars(s[1..]);
      assert forall i :: 1 <= i < |s| ==> Lowered(s)[i] == Lowered(s[1..])[i - 1] && s[i] == s[1..][i - 1];
    }
  }

  /** The tolower loop over a buffer, done in place. */
  method LowerInPlace(a: array<char>)
    modifies a
    ensures a[..] == Lowered(old(a[..]))
  {
    var i := 0;
    while i < a.Length
      invariant 0 <= i <= a.Length
      invariant forall k :: 0 <= k < i ==> a[k] == LowerChar(old(a[k]))
      invariant forall k :: i <= k < a.Length ==> a[k] == old(a[k])
    {
      a[i] := LowerChar(a[i]);
      i := i + 1;
    }
    LoweredChars(old(a[..]));
  }

  /** strncpy into an n + 1 byte buffer whose last byte is then cleared: at most n characters survive. */
  function Truncated(s: string, n: nat): (r: string)
    ensures |r| <= n && |r| <= |s| && r == s[..|r|]
    ensures |s| <= n ==> r == s
    ensures |s| > n ==> |r| == n
  {
    if |s| <= n then s else s[..n]
  }

  /** The form in which a name takes part in a uniqueness check: its first
      NameMax - 1 characters, lower-cased. */
  function NameKey(s: string): (r: string)
    ensures |r| <= NameMax - 1 && |r| <= |s|
    ensures |s| <= NameMax - 1 ==> r == Lowered(s)
  {
    Lowered(Truncated(s, NameMax - 1))
  }

  /** Copy at most n characters of `s` into a fresh buffer and lower-case it there. */
  method LowerCopy(s: string, n: nat) returns (r: string)
    ensures r == Lowered(Truncated(s, n))
  {
    var t := Truncated(s, n);
    var buf := new char[|t|](i requires 0 <= i < |t| => t[i]);
    assert buf[..] == t;
    LowerInPlace(buf);
    r := buf[..];
  }

  /** strcasecmp(a, b) == 0. */
  predicate SameIgnoringCase(a: string, b: string): (r: bool)
    ensures a == b ==> r
    ensures r ==> |a| == |b|
  {
    Lowered(a) == Lowered(b)
  }

  /** Lower-casing commutes with truncation. */
  lemma LoweredTruncated(s: string, n: nat)
    ensures Lowered(Truncated(s, n)) == Truncated(Lowered(s), n)
  {
    var l, r := Lowered(Truncated(s, n)), Truncated(Lowered(s), n);
    LoweredChars(s);
    LoweredChars(Truncated(s, n));
    assert |l| == |r|;
    forall i | 0 <= i < |l| ensures l[i] == r[i] {
      assert Truncated(s, n)[i] == s[i];
    }
  }

  /** Names equal up to case have equal keys. */
  lemma SameIgnoringCaseKey(a: string, b: string)
    requires SameIgnoringCase(a, b)
    ensures NameKey(a) == NameKey(b)
  {
    LoweredTruncated(a, NameMax - 1);
    LoweredTruncated(b, NameMax - 1);
  }

  /** Lower-casing twice is lower-casing once. */
  lemma LoweredIdempotent(s: string)
    ensures Lowered(Lowered(s)) == Lowered(s)
  {
    var r := Lowered(s);
    LoweredChars(s);
    LoweredChars(r);
    assert forall i :: 0 <= i < |r| ==> LowerChar(r[i]) == r[i];
  }

  /** strstr(haystack, needle) != NULL: the needle occurs somewhere; the empty needle always does. */
  predicate Contains(haystack: string, needle: string): (r: bool)
    ensures needle == [] ==> r
    ensures |needle| > |haystack| ==> !r
  {
    assert needle == [] ==> needle <= haystack[0..];
    exists i :: 0 <= i <= |haystack| && needle <= haystack[i..]
  }

  // ---------------------------------------------------------------- strtok(…, "|")

  /** Length of the token at the front of `s`: the run before the first delimiter. */
  function TokenLength(s: string): (k: nat)
    ensures k <= |s|
    ensures k < |s| ==> s[k] == Delimiter
  {
    if s == [] || s[0] == Delimiter then 0 else 1 + TokenLength(s[1..])
  }

  /** The token at the front holds no delimiter. */
  lemma {:induction false} TokenLengthRun(s: string)
    ensures forall j :: 0 <= j < TokenLength(s) ==> s[j] != Delimiter
  {
    if s != [] && s[0] != Delimiter {
      TokenLengthRun(s[1..]);
      assert forall j :: 1 <= j < TokenLength(s) ==> s[j] == s[1..][j - 1];
    }
  }

  /** The tokens that successive strtok(…, "|") calls return, in order: leading
      delimiters are skipped and runs of delimiters collapse. */
  function Tokens(s: string): (r: seq<string>)
    ensures |r| <= |s|
    decreases |s|
  {
    if s == [] then []
    else if s[0] == Delimiter then Tokens(s[1..])
    else
      var k := TokenLength(s);
      [s[..k]] + Tokens(s[k..])
  }

  /** No token is empty and none holds a delimiter. */
  lemma {:induction false} TokensShape(s: string)
    ensures forall k :: 0 <= k < |Tokens(s)| ==> Tokens(s)[k] != [] && Delimiter !in Tokens(s)[k]
    decreases |s|
  {
    if s != [] {
      if s[0] == Delimiter {
        TokensShape(s[1..]);
      } else {
        var k := TokenLength(s);
        TokenLengthRun(s);
        TokensShape(s[k..]);
        var r := Tokens(s);
        assert r == [s[..k]] + Tokens(s[k..]);
        assert Delimiter !in s[..k];
        assert forall j :: 1 <= j < |r| ==> r[j] == Tokens(s[k..])[j - 1];
      }
    }
  }

  /** A field free of delimiters, followed by a delimiter, is the first token. */
  lemma {:induction false} TokensCons(a: string, rest: string)
    requires a != [] && Delimiter !in a
    ensures Tokens(a + [Delimiter] + rest) == [a] + Tokens(rest)
  {
    var s := a + [Delimiter] + rest;
    assert s[|a|] == Delimiter;
    assert forall j :: 0 <= j < |a| ==> s[j] == a[j];
    var k := TokenLength(s);
    TokenLengthRun(s);
    assert k == |a|;
    assert s[..k] == a;
    assert s[k..] == [Delimiter] + rest;
    assert ([Delimiter] + rest)[1..] == rest;
  }

  /** A non-empty field free of delimiters is one token. */
  lemma TokensSingle(a: string)
    requires a != [] && Delimiter !in a
    ensures Tokens(a) == [a]
  {
    var k := TokenLength(a);
    assert k == |a|;
    assert a[..k] == a;
    assert a[k..] == [];
  }

  /** A leading delimiter is skipped: "|Bob|3" yields the tokens "Bob" and "3". */
  lemma LeadingDelimiterSkipped()
    ensures Tokens("|Bob|3") == ["Bob", "3"]
  {
    TokensSingle("3");
    TokensCons("Bob", "3");
    assert "|Bob|3" == [Delimiter] + ("Bob" + [Delimiter] + "3");
  }

  // ---------------------------------------------------------------- atoi

  /** isspace in the C locale: ' ', '\t', '\n', '\v', '\f', '\r'. */
  predicate IsSpace(c: char) { c == ' ' || '\t' <= c <= '\r' }

  predicate IsDigit(c: char) { '0' <= c <= '9' }

  function DigitValue(c: char): nat
    requires IsDigit(c)
  {
    c as int - '0' as int
  }

  /** Index of the first character at or after `i` that is not white space. */
  function SkipSpaces(s: string, i: nat): (j: nat)
    requires i <= |s|
    ensures i <= j <= |s|
    decreases |s| - i
  {
    if i < |s| && IsSpace(s[i]) then SkipSpaces(s, i + 1) else i
  }

  /** The digit loop of atoi from index `i`, with the value read so far in `acc`. */
  function DigitsFrom(s: string, i: nat, acc: nat): nat
    requires i <= |s|
    decreases |s| - i
  {
    if i < |s| && IsDigit(s[i]) then DigitsFrom(s, i + 1, 10 * acc + DigitValue(s[i])) else acc
  }

  /** The decimal value of a string of digits, read from its last digit. */
  function DigitsValue(d: string): nat
    requires forall j :: 0 <= j < |d| ==> IsDigit(d[j])
  {
    if d == [] then 0 else 10 * DigitsValue(d[..|d| - 1]) + DigitValue(d[|d| - 1])
  }

  /** atoi: optional white space, an optional sign, then the longest digit
      prefix; 0 when there are no digits. The value is the exact one: an
      out-of-range result, undefined in C, is not wrapped. */
  function Atoi(s: string): (r: int)
    ensures var i := SkipSpaces(s, 0); r < 0 ==> i < |s| && s[i] == '-'
  {
    var i := SkipSpaces(s, 0);
    if i < |s| && s[i] == '-' then -(DigitsFrom(s, i + 1, 0) as int)
    else if i < |s| && s[i] == '+' then DigitsFrom(s, i + 1, 0)
    else DigitsFrom(s, i, 0)
  }

  /** atoi is permissive: a text in which no digit follows the leading white
      space and the optional sign reads as 0. */
  lemma AtoiWithoutDigits(s: string)
    ensures var i := SkipSpaces(s, 0);
            var j := if i < |s| && (s[i] == '-' || s[i] == '+') then i + 1 else i;
            !(j < |s| && IsDigit(s[j])) ==> Atoi(s) == 0
  {
  }

  /** A roll token that is a name, such as "Bob", reads as roll 0. */
  lemma AtoiOfName()
    ensures Atoi("Bob") == 0
  {
    assert SkipSpaces("Bob", 0) == 0;
    AtoiWithoutDigits("Bob");
  }

  // ---------------------------------------------------------------- printf("%d")

  function DigitChar(d: nat): (c: char)
    requires d < 10
    ensures IsDigit(c) && DigitValue(c) == d
  {
    ('0' as int + d) as char
  }

  /** The decimal rendering of a natural number, most significant digit first. */
  function NatToString(n: nat): (s: string)
    ensures s != []
    ensures forall j :: 0 <= j < |s| ==> IsDigit(s[j])
  {
    if n < 10 then [DigitChar(n)] else NatToString(n / 10) + [DigitChar(n % 10)]
  }

  /** `%d`: a minus sign for negative values, then the digits. */
  function IntToString(n: int): (r: string)
    ensures r != [] && (r[0] == '-' <==> n < 0)
  {
    if n < 0 then "-" + NatToString(-n) else NatToString(n)
  }

  lemma {:induction false} NatToStringValue(n: nat)
    ensures DigitsValue(NatToString(n)) == n
  {
    var s := NatToString(n);
    if n >= 10 {
      NatToStringValue(n / 10);
      assert s[..|s| - 1] == NatToString(n / 10);
    }
  }

  /** The atoi digit loop over a run of digits that reaches the end of the
      string computes the run's decimal value. */
  lemma {:induction false} DigitsFromValue(s: string, start: nat, i: nat)
    requires start <= i <= |s|
    requires forall j :: start <= j < |s| ==> IsDigit(s[j])
    ensures DigitsFrom(s, i, DigitsValue(s[start..i])) == DigitsValue(s[start..])
    decreases |s| - i
  {
    if i < |s| {
      assert s[start..i + 1][..i - start] == s[start..i];
      DigitsFromValue(s, start, i + 1);
    } else {
      assert s[start..i] == s[start..];
    }
  }

  /** atoi reads back every value `%d` writes. */
  lemma AtoiIntToString(n: int)
    ensures Atoi(IntToString(n)) == n
  {
    var m: nat := if n < 0 then -n else n;
    var d := NatToString(m);
    NatToStringValue(m);
    var s := IntToString(n);
    assert SkipSpaces(s, 0) == 0;
    if n < 0 {
      assert s[0] == '-' && s[1..] == d;
      assert s[1..1] == [];
      DigitsFromValue(s, 1, 1);
    } else {
      assert s == d && IsDigit(s[0]);
      assert s[0..0] == [] && s[0..] == s;
      DigitsFromValue(s, 0, 0);
    }
  }

  /** No '\n' or '\r' in a rendered number. */
  lemma IntToStringHasNoNewline(n: int)
    ensures forall j :: 0 <= j < |IntToString(n)| ==> !IsNewline(IntToString(n)[j])
  {
    var d := NatToString(if n < 0 then -n else n);
    assert forall j :: 0 <= j < |d| ==> IsDigit(d[j]);
  }

  // ---------------------------------------------------------------- the record line

  /** What `%.2f` writes for the marks: a non-empty text without delimiter or line break. */
  predicate IsMarksText(m: string)
  {
    m != [] && forall j :: 0 <= j < |m| ==> m[j] != Delimiter && !IsNewline(m[j])
  }

  /** fprintf("%d|%s|%.2f"), without the line break. */
  function FormatLine(roll: int, name: string, marks: string): (r: string)
    ensures |r| >= |name| + |marks| + 3
  {
    IntToString(roll) + [Delimiter] + (name + [Delimiter] + marks)
  }

  /** A formatted line is one line of text when the name has no line break. */
  lemma FormatLineSingleLine(roll: int, name: string, marks: string)
    requires '\n' !in name && IsMarksText(marks)
    ensures '\n' !in FormatLine(roll, name, marks)
  {
    IntToStringHasNoNewline(roll);
    var r := IntToString(roll);
    assert forall j :: 0 <= j < |r| ==> r[j] != '\n';
    assert forall j :: 0 <= j < |marks| ==> marks[j] != '\n';
  }

  /** A formatted line has no trailing line break to trim. */
  lemma FormatLineTrimmed(roll: int, name: string, marks: string)
    requires IsMarksText(marks)
    ensures Trimmed(FormatLine(roll, name, marks)) == FormatLine(roll, name, marks)
  {
    var l := FormatLine(roll, name, marks);
    assert l[|l| - 1] == marks[|marks| - 1];
  }

  /** The roll is the first token of a formatted line, whatever follows it. */
  lemma FirstTokenOfFormatLine(roll: int, name: string, marks: string)
    requires IsMarksText(marks)
    ensures Tokens(Trimmed(FormatLine(roll, name, marks))) != []
    ensures Tokens(Trimmed(FormatLine(roll, name, marks)))[0] == IntToString(roll)
  {
    var r, tail := IntToString(roll), name + [Delimiter] + marks;
    FormatLineTrimmed(roll, name, marks);
    IntToStringHasNoDelimiter(roll);
    TokensCons(r, tail);
    assert FormatLine(roll, name, marks) == r + [Delimiter] + tail;
  }

  lemma IntToStringHasNoDelimiter(n: int)
    ensures IntToString(n) != [] && Delimiter !in IntToString(n)
  {
    var d := NatToString(if n < 0 then -n else n);
    assert forall j :: 0 <= j < |d| ==> IsDigit(d[j]);
  }

  /** Three delimiter-free fields joined by delimiters split back into themselves. */
  lemma TokensOfThree(a: string, b: string, c: string)
    requires a != [] && Delimiter !in a
    requires b != [] && Delimiter !in b
    requires c != [] && Delimiter !in c
    ensures Tokens(a + [Delimiter] + (b + [Delimiter] + c)) == [a, b, c]
  {
    TokensSingle(c);
    TokensCons(b, c);
    TokensCons(a, b + [Delimiter] + c);
  }

  /** Round trip of the line format: a non-empty name without delimiter reads
      back as the three tokens roll, name and marks. */
  lemma FieldsOfFormatLine(roll: int, name: string, marks: string)
    requires name != [] && Delimiter !in name
    requires IsMarksText(marks)
    ensures Tokens(Trimmed(FormatLine(roll, name, marks))) == [IntToString(roll), name, marks]
  {
    FormatLineTrimmed(roll, name, marks);
    IntToStringHasNoDelimiter(roll);
    assert Delimiter !in marks;
    TokensOfThree(IntToString(roll), name, marks);
    assert FormatLine(roll, name, marks) == IntToString(roll) + [Delimiter] + (name + [Delimiter] + marks);
  }

  /** An empty name leaves two delimiters side by side; they collapse, so the
      line reads back as only two tokens and the marks take the name's place. */
  lemma FieldsOfFormatLineEmptyName(roll: int, marks: string)
    requires IsMarksText(marks)
    ensures Tokens(Trimmed(FormatLine(roll, "", marks))) == [IntToString(roll), marks]
  {
    var r, tail := IntToString(roll), [Delimiter] + marks;
    var empty: string := [];
    assert empty + [Delimiter] + marks == tail;
    assert FormatLine(roll, "", marks) == r + [Delimiter] + tail;
    FormatLineTrimmed(roll, "", marks);
    IntToStringHasNoDelimiter(roll);
    assert tail[0] == Delimiter && tail[1..] == marks;
    TokensSingle(marks);
    assert Tokens(tail) == [marks];
    TokensCons(r, tail);
  }
}
