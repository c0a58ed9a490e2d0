/** The handful of Python `str` operations the assistant relies on, over `seq<char>`. */
module Text {

  /** Python's `str.isspace()` for one character: the characters `str.strip()` removes. */
  predicate IsSpace(c: char) {
    || ('\t' <= c <= '\r')
    || ('\U{1C}' <= c <= ' ')
    || c == '\U{85}' || c == '\U{A0}' || c == '\U{1680}'
    || ('\U{2000}' <= c <= '\U{200A}')
    || c == '\U{2028}' || c == '\U{2029}' || c == '\U{202F}' || c == '\U{205F}' || c == '\U{3000}'
  }

  predicate AllSpace(s: string) {
    forall i :: 0 <= i < |s| ==> IsSpace(s[i])
  }

  /** A string with no whitespace at either end, i.e. one `str.strip()` leaves alone. */
  predicate Stripped(s: string) {
    s == [] || (!IsSpace(s[0]) && !IsSpace(s[|s| - 1]))
  }

  /** How many whitespace characters `s` starts with. */
  function LeadingSpace(s: string): (n: nat)
    ensures n <= |s|
    ensures forall i :: 0 <= i < n ==> IsSpace(s[i])
    ensures n == |s| || !IsSpace(s[n])
  {
    if |s| > 0 && IsSpace(s[0]) then
      var n := 1 + LeadingSpace(s[1..]);
      assert forall i :: 1 <= i < n ==> s[i] == s[1..][i - 1];
      n
    else 0
  }

  /** How many whitespace characters `s` ends with. */
  function TrailingSpace(s: string): (n: nat)
    ensures n <= |s|
    ensures forall i :: |s| - n <= i < |s| ==> IsSpace(s[i])
    ensures n == |s| || !IsSpace(s[|s| - n - 1])
  {
    if |s| > 0 && IsSpace(s[|s| - 1]) then 1 + TrailingSpace(s[..|s| - 1]) else 0
  }

  /** `s.strip()`: `s` without its leading and its trailing whitespace. */
  function Strip(s: string): (r: string)
    ensures |r| <= |s|
    ensures Stripped(r)
    ensures r == [] <==> AllSpace(s)
  {
    var e := |s| - TrailingSpace(s);
    var t := s[..e];
    var b := LeadingSpace(t);
    if b == e then
      SpaceOnBothSides(s, e);
      []
    else
      assert t[e - 1] == s[e - 1];
      t[b..]
  }

  /** What `strip()` returns is a stretch of `s` with only whitespace on either side of it; since
      it is itself stripped, that is the longest such stretch. */
  lemma StripTrims(s: string)
    ensures TrimmedFrom(s, Strip(s))
  {
    var e := |s| - TrailingSpace(s);
    var t := s[..e];
    var b := LeadingSpace(t);
    assert forall i :: 0 <= i < b ==> t[i] == s[i];
    SpaceAround(s, b, e);
  }

  /** `r` is a stretch of `s` with nothing but whitespace before it and after it. */
  predicate TrimmedFrom(s: string, r: string) {
    exists b :: 0 <= b <= |s| && Around(s, r, b)
  }

  /** `r` is found in `s` at `b`, with only whitespace before and after it. */
  predicate Around(s: string, r: string, b: int) {
    0 <= b <= |s| - |r| && r == s[b..b + |r|] && AllSpace(s[..b]) && AllSpace(s[b + |r|..])
  }

  /** The text between a run of leading and a run of trailing whitespace is trimmed from `s`. */
  lemma SpaceAround(s: string, b: nat, e: nat)
    requires b <= e <= |s|
    requires forall i :: 0 <= i < b ==> IsSpace(s[i])
    requires forall i :: e <= i < |s| ==> IsSpace(s[i])
    ensures TrimmedFrom(s, s[b..e]) && TrimmedFrom(s, s[..e][b..])
  {
    assert s[..e][b..] == s[b..e];
    assert Around(s, s[b..e], b);
  }

  /** A string whose first `e` characters and whose remaining ones are all whitespace is all
      whitespace. */
  lemma SpaceOnBothSides(s: string, e: nat)
    requires e <= |s|
    requires AllSpace(s[..e])
    requires forall i :: e <= i < |s| ==> IsSpace(s[i])
    ensures AllSpace(s)
  {
    forall i | 0 <= i < |s|
      ensures IsSpace(s[i])
    {
      if i < e {
        assert s[i] == s[..e][i];
      }
    }
  }

  /** Stripping is idempotent: a stripped string is its own strip. */
  lemma StripStripped(s: string)
    requires Stripped(s)
    ensures Strip(s) == s
  {
    if s != [] {
      assert TrailingSpace(s) == 0;
      assert s[..|s|] == s;
      assert LeadingSpace(s) == 0;
    }
  }

  /** A leading run of whitespace in front of a stripped string is exactly what `strip()` removes. */
  lemma StripAfterSpaces(pad: string, s: string)
    requires AllSpace(pad) && Stripped(s) && s != []
    ensures Strip(pad + s) == s
  {
    var x := pad + s;
    assert x[|x| - 1] == s[|s| - 1];
    assert TrailingSpace(x) == 0;
    assert x[..|x|] == x;
    LeadingSpaceOfPadded(pad, s);
    assert x[|pad|..] == s;
    assert Strip(x) == x[|pad|..];
  }

  lemma LeadingSpaceOfPadded(pad: string, s: string)
    requires AllSpace(pad) && s != [] && !IsSpace(s[0])
    ensures LeadingSpace(pad + s) == |pad|
  {
    var x := pad + s;
    var n := LeadingSpace(x);
    assert x[|pad|] == s[0];
    assert forall i :: 0 <= i < |pad| ==> x[i] == pad[i];
  }

  /** `s.startswith(prefix)`. */
  predicate StartsWith(s: string, prefix: string) {
    |prefix| <= |s| && s[..|prefix|] == prefix
  }

  /** The position of the first `c` in `s` (Python's `s.index(c)`). */
  function IndexOf(s: string, c: char): (i: nat)
    requires c in s
    ensures i < |s| && s[i] == c && c !in s[..i]
  {
    if s[0] == c then 0
    else
      var i := 1 + IndexOf(s[1..], c);
      assert s[..i] == [s[0]] + s[1..][..i - 1];
      i
  }

  /** `sep.join(parts)` for a one-character separator. */
  function Join(parts: seq<string>, sep: char): string
    requires |parts| >= 1
  {
    if |parts| == 1 then parts[0] else parts[0] + [sep] + Join(parts[1..], sep)
  }

  /** `s.split(sep)` for a one-character separator: the pieces between the separators, in order. */
  function Split(s: string, sep: char): (parts: seq<string>)
    ensures |parts| >= 1
    ensures forall i :: 0 <= i < |parts| ==> sep !in parts[i]
    ensures Join(parts, sep) == s
    decreases |s|
  {
    if sep !in s then [s]
    else
      var i := IndexOf(s, sep);
      var rest := Split(s[i + 1..], sep);
      var parts := [s[..i]] + rest;
      assert parts[1..] == rest;
      assert s == s[..i] + [sep] + s[i + 1..];
      parts
  }

  /** Splitting undoes joining, as long as no piece holds the separator. */
  lemma {:induction false} SplitJoin(parts: seq<string>, sep: char)
    requires |parts| >= 1
    requires forall i :: 0 <= i < |parts| ==> sep !in parts[i]
    ensures Split(Join(parts, sep), sep) == parts
    decreases |parts|
  {
    if |parts| == 1 {
      assert Join(parts, sep) == parts[0];
    } else {
      var s := Join(parts, sep);
      var tail := Join(parts[1..], sep);
      assert s == parts[0] + [sep] + tail;
      FirstSeparator(parts[0], sep, tail);
      assert s[|parts[0]| + 1..] == tail;
      assert Split(s, sep) == [parts[0]] + Split(tail, sep);
      SplitJoin(parts[1..], sep);
      assert parts == [parts[0]] + parts[1..];
    }
  }

  /** In a piece without the separator, followed by the separator, the first separator is the one
      after the piece. */
  lemma FirstSeparator(head: string, sep: char, tail: string)
    requires sep !in head
    ensures var s := head + [sep] + tail; sep in s && IndexOf(s, sep) == |head| && s[..|head|] == head
  {
    var s := head + [sep] + tail;
    assert s[|head|] == sep;
    assert s[..|head|] == head;
    assert forall j :: 0 <= j < |head| ==> s[j] == head[j];
  }

  /** `s.split(sep, 1)[1]`: everything after the first `sep`. */
  function AfterFirst(s: string, sep: char): (r: string)
    requires sep in s
    ensures |r| < |s|
    ensures s == s[..|s| - |r| - 1] + [sep] + r
    ensures sep !in s[..|s| - |r| - 1]
  {
    var i := IndexOf(s, sep);
    assert s == s[..i] + [sep] + s[i + 1..];
    s[i + 1..]
  }

  /** A field such as `Title:`: ends in the one and only colon it contains. */
  predicate IsFieldLabel(field: string) {
    |field| > 0 && field[|field| - 1] == ':' && ':' !in field[..|field| - 1]
  }

  /** For a line that starts with a field, the text after its first colon is the text after the field. */
  lemma AfterFieldLabel(line: string, field: string)
    requires IsFieldLabel(field) && StartsWith(line, field)
    ensures ':' in line
    ensures AfterFirst(line, ':') == line[|field|..]
  {
    var k := |field| - 1;
    assert line[k] == field[k];
    var r := AfterFirst(line, ':');
    var i := |line| - |r| - 1;
    assert line[..k] == field[..k];
  }

  /** ASCII lower-casing, which is what `str.lower()` does to every string that can lower-case to one
      of the assistant's command words. */
  function LowerAscii(s: string): (r: string)
    ensures |r| == |s|
    ensures forall i :: 0 <= i < |s| ==> r[i] == if 'A' <= s[i] <= 'Z' then (s[i] as int + 32) as char else s[i]
  {
    if s == [] then []
    else [if 'A' <= s[0] <= 'Z' then (s[0] as int + 32) as char else s[0]] + LowerAscii(s[1..])
  }
}
