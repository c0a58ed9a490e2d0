/** Choosing the result to read (`select_best_result`): the model's `Title:` / `URL:` reply is
    parsed, with the first search result as the fallback when the reply cannot be parsed. */
module Selection {
  import opened Options
  import opened Text
  import opened Search

  /** The `(title, url)` pair the assistant goes on with. */
  datatype Selected = Selected(title: string, url: string)

  /** The two fields of a selection reply, and the text each of its lines starts with. */
  datatype Field = Title | Url {
    function Name(): string {
      match this
      case Title => "Title:"
      case Url => "URL:"
    }
  }

  lemma FieldNameIsLabel(f: Field)
    ensures IsFieldLabel(f.Name()) && !IsSpace(f.Name()[0]) && '\n' !in f.Name()
  {
    match f
    case Title => assert f.Name()[..5] == "Title";
    case Url => assert f.Name()[..3] == "URL";
  }

  /** The other field of the two. */
  function Other(f: Field): (g: Field)
    ensures g != f
  {
    if f == Title then Url else Title
  }

  /** No line starts with both field names. */
  lemma FieldsExclusive(line: string, f: Field)
    requires StartsWith(line, f.Name())
    ensures !StartsWith(line, Other(f).Name())
  {
    assert line[0] == f.Name()[0];
  }

  /** The reply is stripped and split at newlines; each line is stripped, and blank lines are
      dropped. */
  function ReplyLines(reply: string): (lines: seq<string>)
    ensures forall i :: 0 <= i < |lines| ==> lines[i] != [] && Stripped(lines[i])
  {
    NonBlank(Split(Strip(reply), '\n'))
  }

  /** The stripped lines that are not blank, in their original order. */
  function NonBlank(raw: seq<string>): (lines: seq<string>)
    ensures |lines| <= |raw|
    ensures forall i :: 0 <= i < |lines| ==> lines[i] != [] && Stripped(lines[i])
  {
    if raw == [] then [] else Kept(raw[0]) + NonBlank(raw[1..])
  }

  /** What one raw line contributes: its strip, unless that is empty. */
  function Kept(line: string): (r: seq<string>)
    ensures |r| <= 1
    ensures forall i :: 0 <= i < |r| ==> r[i] != [] && Stripped(r[i])
  {
    var l := Strip(line);
    if l == [] then [] else [l]
  }

  /** A single raw line gives its strip, unless that is empty. */
  lemma NonBlankOne(x: string)
    ensures NonBlank([x]) == if Strip(x) == [] then [] else [Strip(x)]
  {
    assert [x][1..] == [];
  }

  /** A raw line in front contributes what it would contribute alone. */
  lemma NonBlankCons(x: string, rest: seq<string>)
    ensures NonBlank([x] + rest) == Kept(x) + NonBlank(rest)
  {
    assert ([x] + rest)[1..] == rest;
  }

  /** Lines are filtered one by one: the non-blank lines of two blocks are those of the first
      followed by those of the second. */
  lemma {:induction false} NonBlankAppend(a: seq<string>, b: seq<string>)
    ensures NonBlank(a + b) == NonBlank(a) + NonBlank(b)
    decreases |a|
  {
    if a == [] {
      assert a + b == b;
    } else {
      var x, t := a[0], a[1..];
      assert a == [x] + t;
      assert a + b == [x] + (t + b);
      NonBlankCons(x, t + b);
      NonBlankCons(x, t);
      NonBlankAppend(t, b);
      ConcatAssociates(Kept(x), NonBlank(t), NonBlank(b));
    }
  }

  lemma ConcatAssociates<T>(a: seq<T>, b: seq<T>, c: seq<T>)
    ensures a + (b + c) == (a + b) + c
  {
  }

  /** The index of the first line that starts with `prefix`. */
  function FindPrefixed(lines: seq<string>, prefix: string): (r: Option<nat>)
    ensures r.Some? ==> r.value < |lines| && StartsWith(lines[r.value], prefix)
    ensures r.Some? ==> forall j :: 0 <= j < r.value ==> !StartsWith(lines[j], prefix)
    ensures r.None? ==> forall j :: 0 <= j < |lines| ==> !StartsWith(lines[j], prefix)
  {
    if lines == [] then None
    else if StartsWith(lines[0], prefix) then Some(0)
    else
      match FindPrefixed(lines[1..], prefix)
      case None => None
      case Some(k) => Some(k + 1)
  }

  /** The value of a field: the first line that starts with the field's name is cut after its
      first colon and stripped; no such line gives no value. Only that first line is looked at,
      even when its value is empty. */
  function FieldValue(lines: seq<string>, field: Field): (v: Option<string>)
    ensures v.Some? <==> exists i :: 0 <= i < |lines| && StartsWith(lines[i], field.Name())
    ensures v.Some? ==> Stripped(v.value)
  {
    match FindPrefixed(lines, field.Name())
    case None => None
    case Some(i) =>
      FieldNameIsLabel(field);
      AfterFieldLabel(lines[i], field.Name());
      Some(Strip(AfterFirst(lines[i], ':')))
  }

  /** The value of a field line is the stripped text after the field name. */
  lemma FieldValueOfLine(lines: seq<string>, field: Field, i: nat)
    requires i < |lines| && StartsWith(lines[i], field.Name())
    requires forall j :: 0 <= j < i ==> !StartsWith(lines[j], field.Name())
    ensures FieldValue(lines, field) == Some(Strip(lines[i][|field.Name()|..]))
  {
    var k := FindPrefixed(lines, field.Name());
    assert k == Some(i);
    FieldNameIsLabel(field);
    AfterFieldLabel(lines[i], field.Name());
  }

  /** The parse of a selection reply: both fields present and non-empty, or nothing. */
  function ParseSelection(reply: string): (r: Option<Selected>)
    ensures r.Some? ==> r.value.title != [] && r.value.url != []
    ensures r.Some? ==> Stripped(r.value.title) && Stripped(r.value.url)
  {
    var lines := ReplyLines(reply);
    var title := FieldValue(lines, Title);
    var url := FieldValue(lines, Url);
    if title.Some? && url.Some? && title.value != [] && url.value != [] then
      Some(Selected(title.value, url.value))
    else None
  }

  /** The reply the selection prompt asks the model for. */
  function FormatSelection(s: Selected): string {
    Title.Name() + " " + s.title + "\n" + Url.Name() + " " + s.url
  }

  /** Two non-blank, stripped lines joined by a newline read back as exactly those two lines. */
  lemma ReplyLinesOfTwo(line1: string, line2: string)
    requires line1 != [] && line2 != [] && Stripped(line1) && Stripped(line2)
    requires '\n' !in line1 && '\n' !in line2
    ensures ReplyLines(line1 + "\n" + line2) == [line1, line2]
  {
    var reply := line1 + "\n" + line2;
    assert Join([line1, line2], '\n') == reply;
    assert reply[0] == line1[0] && reply[|reply| - 1] == line2[|line2| - 1];
    StripStripped(reply);
    SplitJoin([line1, line2], '\n');
    StripStripped(line1);
    StripStripped(line2);
    assert [line1, line2][1..] == [line2];
    assert [line2][1..] == [];
    assert NonBlank([line2]) == [line2];
    assert NonBlank([line1, line2]) == [line1, line2];
  }

  /** A non-blank, stripped reply without a newline is one line. */
  lemma ReplyLinesOfOne(line: string)
    requires line != [] && Stripped(line) && '\n' !in line
    ensures ReplyLines(line) == [line]
  {
    StripStripped(line);
    SplitJoin([line], '\n');
    assert Join([line], '\n') == line;
    assert [line][1..] == [];
  }

  /** A field name, a space and a stripped value form a stripped line without a newline. */
  lemma FieldLine(field: string, value: string)
    requires field != [] && !IsSpace(field[0]) && '\n' !in field
    requires value != [] && Stripped(value) && '\n' !in value
    ensures var line := field + " " + value;
      && line != [] && Stripped(line) && '\n' !in line
      && StartsWith(line, field)
      && line[|field|..] == " " + value
  {
    var line := field + " " + value;
    assert line[|line| - 1] == value[|value| - 1];
    assert line[..|field|] == field;
    assert line[|field|..] == " " + value;
    assert forall j :: |field| < j < |line| ==> line[j] == value[j - |field| - 1];
  }

  /** The lines of a reply in the requested format are its `Title:` line and its `URL:` line. */
  lemma FormattedLines(s: Selected)
    requires s.title != [] && s.url != []
    requires Stripped(s.title) && Stripped(s.url)
    requires '\n' !in s.title && '\n' !in s.url
    ensures ReplyLines(FormatSelection(s)) == [Title.Name() + " " + s.title, Url.Name() + " " + s.url]
  {
    var line1 := Title.Name() + " " + s.title;
    var line2 := Url.Name() + " " + s.url;
    FieldNameIsLabel(Title);
    FieldNameIsLabel(Url);
    FieldLine(Title.Name(), s.title);
    FieldLine(Url.Name(), s.url);
    assert FormatSelection(s) == line1 + "\n" + line2;
    ReplyLinesOfTwo(line1, line2);
  }

  /** The value of a field written as the field name, a space and a stripped value. */
  lemma FieldOfFormatted(lines: seq<string>, field: Field, i: nat, value: string)
    requires value != [] && Stripped(value) && '\n' !in value
    requires i < |lines| && lines[i] == field.Name() + " " + value
    requires forall j :: 0 <= j < i ==> !StartsWith(lines[j], field.Name())
    ensures FieldValue(lines, field) == Some(value)
  {
    FieldNameIsLabel(field);
    FieldLine(field.Name(), value);
    FieldValueOfLine(lines, field, i);
    StripAfterSpaces(" ", value);
  }

  /** The `Title:` value of a reply in the requested format is the title written. */
  lemma FormattedTitle(s: Selected)
    requires s.title != [] && s.url != []
    requires Stripped(s.title) && Stripped(s.url)
    requires '\n' !in s.title && '\n' !in s.url
    ensures FieldValue(ReplyLines(FormatSelection(s)), Title) == Some(s.title)
  {
    FormattedLines(s);
    FieldOfFormatted([Title.Name() + " " + s.title, Url.Name() + " " + s.url], Title, 0, s.title);
  }

  /** After a line that starts with the other field, a line written as the field name, a space
      and a value holds the value. */
  lemma SecondField(first: string, field: Field, value: string)
    requires StartsWith(first, Other(field).Name())
    requires value != [] && Stripped(value) && '\n' !in value
    ensures FieldValue([first, field.Name() + " " + value], field) == Some(value)
  {
    FieldsExclusive(first, Other(field));
    assert Other(Other(field)) == field;
    FieldOfFormatted([first, field.Name() + " " + value], field, 1, value);
  }

  /** The `URL:` value of a reply in the requested format is the URL written. */
  lemma FormattedUrl(s: Selected)
    requires s.title != [] && s.url != []
    requires Stripped(s.title) && Stripped(s.url)
    requires '\n' !in s.title && '\n' !in s.url
    ensures FieldValue(ReplyLines(FormatSelection(s)), Url) == Some(s.url)
  {
    FormattedLines(s);
    FieldNameIsLabel(Title);
    FieldLine(Title.Name(), s.title);
    SecondField(Title.Name() + " " + s.title, Url, s.url);
  }

  /** A reply in the requested format parses back to the title and URL it was written from. */
  lemma ParseFormatted(s: Selected)
    requires s.title != [] && s.url != []
    requires Stripped(s.title) && Stripped(s.url)
    requires '\n' !in s.title && '\n' !in s.url
    ensures ParseSelection(FormatSelection(s)) == Some(s)
  {
    FormattedTitle(s);
    FormattedUrl(s);
  }

  /** The deterministic fallback: the first result's title (`'Unknown'` if it has none) and URL
      (empty if it has none). */
  function Fallback(first: SearchResult): (s: Selected)
    ensures first.title.Some? ==> s.title == first.title.value
    ensures first.title.None? ==> s.title == "Unknown"
    ensures first.url.Some? ==> s.url == first.url.value
    ensures first.url.None? ==> s.url == ""
  {
    Selected(ValueOr(first.title, "Unknown"), ValueOr(first.url, ""))
  }

  /** `select_best_result`, given the model's reply (`None` when the model call gave up): no reply
      or an empty one selects nothing; a reply that parses selects what it names; any other reply
      falls back to the first result. */
  function SelectBestResult(reply: Option<string>, results: seq<SearchResult>): (r: Option<Selected>)
    ensures (reply.None? || reply.value == "") ==> r.None?
    ensures reply.Some? && reply.value != "" && |results| > 0 ==> r.Some?
    ensures reply.Some? && reply.value != "" && ParseSelection(reply.value).Some? ==> r == ParseSelection(reply.value)
    ensures r.Some? && ParseSelection(reply.value).None? ==> |results| > 0 && r == Some(Fallback(results[0]))
  {
    if reply.None? || reply.value == "" then None
    else
      match ParseSelection(reply.value)
      case Some(s) => Some(s)
      case None => if |results| > 0 then Some(Fallback(results[0])) else None
  }

  /** A reply that names no field still selects something once the search found results: the
      first result. */
  lemma UnparsableReplyFallsBack(reply: string, results: seq<SearchResult>)
    requires reply != "" && |results| > 0
    requires forall i :: 0 <= i < |ReplyLines(reply)| ==> !StartsWith(ReplyLines(reply)[i], Title.Name())
    ensures SelectBestResult(Some(reply), results) == Some(Fallback(results[0]))
  {
  }
}
