/**
 * The field-block parser of scripts/generate_xml.py (`parse_control_from_lines`):
 * starting at a `### SBS-…` heading it reads one control's lines, splitting them
 * into bold-labelled fields, and stops at the next control heading.
 */
module FieldParser {
  import opened Wrappers
  import opened Text

  /** The dictionary keys a control's text fields are stored under. */
  datatype Field = Statement | Description | Risk | AuditProcedure | Remediation | DefaultValue

  /** A bold label that, at column 0, opens a field. */
  datatype Label = Label(marker: string, field: Field)

  /**
   * The labels in the order the source tests them. `**Rationale:**` is the
   * legacy spelling of `**Risk:**` and writes the same field.
   */
  const Labels: seq<Label> := [
    Label("**Control Statement:**", Statement),
    Label("**Description:**", Description),
    Label("**Risk:**", Risk),
    Label("**Rationale:**", Risk),
    Label("**Audit Procedure:**", AuditProcedure),
    Label("**Remediation:**", Remediation),
    Label("**Default Value:**", DefaultValue)
  ]

  /** Every label starts with `**` and has more to it. */
  lemma LabelsAreBold()
    ensures forall j :: 0 <= j < |Labels| ==> |Labels[j].marker| > 2 && StartsWith(Labels[j].marker, "**")
  {
  }

  /** The first of `labels` whose marker `line` starts with. */
  function FindLabelIn(line: string, labels: seq<Label>): Option<Label>
    decreases |labels|
  {
    if |labels| == 0 then None
    else if StartsWith(line, labels[0].marker) then Some(labels[0])
    else FindLabelIn(line, labels[1..])
  }

  lemma {:induction false} FindLabelInSpec(line: string, labels: seq<Label>)
    ensures var r := FindLabelIn(line, labels);
            && (r.Some? ==> exists j :: 0 <= j < |labels| && r.value == labels[j] && StartsWith(line, labels[j].marker)
                              && forall i :: 0 <= i < j ==> !StartsWith(line, labels[i].marker))
            && (r.None? ==> forall j :: 0 <= j < |labels| ==> !StartsWith(line, labels[j].marker))
    decreases |labels|
  {
    if |labels| > 0 && !StartsWith(line, labels[0].marker) {
      var rest := labels[1..];
      FindLabelInSpec(line, rest);
      var r := FindLabelIn(line, rest);
      if r.Some? {
        var j :| 0 <= j < |rest| && r.value == rest[j] && StartsWith(line, rest[j].marker)
                 && forall i :: 0 <= i < j ==> !StartsWith(line, rest[i].marker);
        assert forall i :: 0 < i < j + 1 ==> labels[i] == rest[i - 1];
        assert labels[j + 1] == rest[j];
      } else {
        assert forall i :: 0 < i < |labels| ==> labels[i] == rest[i - 1];
      }
    }
  }

  /** The label a line starts with, tested in the source's `elif` order. */
  function FindLabel(line: string): Option<Label> {
    FindLabelIn(line, Labels)
  }

  /**
   * The label found is the first in `elif` order that the line starts with,
   * and no label is found exactly when the line starts with none of them.
   */
  lemma FindLabelSpec(line: string)
    ensures var r := FindLabel(line);
            && (r.Some? ==> exists j :: 0 <= j < |Labels| && r.value == Labels[j] && StartsWith(line, Labels[j].marker)
                              && forall i :: 0 <= i < j ==> !StartsWith(line, Labels[i].marker))
            && (r.None? ==> forall j :: 0 <= j < |Labels| ==> !StartsWith(line, Labels[j].marker))
  {
    FindLabelInSpec(line, Labels);
  }

  /** A line that carries a label starts with `**`. */
  lemma FindLabelBold(line: string)
    requires FindLabel(line).Some?
    ensures StartsWith(line, "**")
  {
    FindLabelSpec(line);
    LabelsAreBold();
    var j :| 0 <= j < |Labels| && FindLabel(line).value == Labels[j] && StartsWith(line, Labels[j].marker);
    assert line[..2] == line[..|Labels[j].marker|][..2];
  }

  /** Two markers always differ in one of their third to fifth characters. */
  lemma LabelsDistinguishable()
    ensures forall i, j :: 0 <= i < |Labels| && 0 <= j < |Labels| && i != j ==>
              |Labels[i].marker| > 4 && |Labels[j].marker| > 4 &&
              (Labels[i].marker[2] != Labels[j].marker[2] || Labels[i].marker[3] != Labels[j].marker[3] ||
               Labels[i].marker[4] != Labels[j].marker[4])
  {
  }

  /** A line cannot start with two different markers. */
  lemma SameMarker(line: string, i: nat, j: nat)
    requires i < |Labels| && j < |Labels|
    requires StartsWith(line, Labels[i].marker) && StartsWith(line, Labels[j].marker)
    ensures i == j
  {
    LabelsDistinguishable();
    LabelsAreBold();
    var a := Labels[i].marker;
    var b := Labels[j].marker;
    assert line[2] == a[2] && line[3] == a[3] && line[4] == a[4];
    assert line[2] == b[2] && line[3] == b[3] && line[4] == b[4];
  }

  /**
   * Whatever the `elif` order, a line that starts with a label's marker gets
   * exactly that label: no earlier test can catch it first.
   */
  lemma MarkerSelectsLabel(line: string, j: nat)
    requires j < |Labels| && StartsWith(line, Labels[j].marker)
    ensures FindLabel(line) == Some(Labels[j])
  {
    FindLabelSpec(line);
    assert FindLabel(line).Some?;
    var j' :| 0 <= j' < |Labels| && FindLabel(line).value == Labels[j'] && StartsWith(line, Labels[j'].marker);
    SameMarker(line, j', j);
  }

  /** `**Rationale:**` is another name for the risk field. */
  lemma RationaleIsRisk(line: string)
    requires StartsWith(line, "**Rationale:**")
    ensures FindLabel(line) == Some(Label("**Rationale:**", Risk))
  {
    MarkerSelectsLabel(line, 3);
  }

  /** The text a label line seeds its field with: the line without the label, stripped. */
  function Seed(line: string, lab: Label): string
  {
    Trim(RemoveAll(line, lab.marker))
  }

  // ---------------------------------------------------------------------------
  // The control heading: `re.match(r'### (SBS-[A-Z]+-\d+):\s*(.+)', line)`.
  // ---------------------------------------------------------------------------

  const ControlMarker := "### SBS-"

  datatype Header = Header(id: string, title: string)

  predicate IsUpper(c: char) {
    'A' <= c <= 'Z'
  }

  predicate AllUpper(s: string) {
    forall i :: 0 <= i < |s| ==> IsUpper(s[i])
  }

  predicate AllDigits(s: string) {
    forall i :: 0 <= i < |s| ==> IsDigit(s[i])
  }

  /** An identifier of the shape `SBS-<A-Z>+-<0-9>+`. */
  ghost predicate IsControlId(id: string) {
    exists k :: 5 <= k < |id| - 1 && id[..4] == "SBS-" && id[k] == '-' && AllUpper(id[4..k]) && AllDigits(id[k + 1..])
  }

  /** Length of the longest prefix of upper-case ASCII letters (`[A-Z]+` is greedy). */
  function UpperPrefix(s: string): (n: nat)
    ensures n <= |s| && AllUpper(s[..n])
    ensures n < |s| ==> !IsUpper(s[n])
  {
    if |s| > 0 && IsUpper(s[0]) then
      var n := 1 + UpperPrefix(s[1..]);
      assert s[..n] == [s[0]] + s[1..][..n - 1];
      n
    else 0
  }

  /** Length of the longest prefix of ASCII digits (`\d+` is greedy). */
  function DigitPrefix(s: string): (n: nat)
    ensures n <= |s| && AllDigits(s[..n])
    ensures n < |s| ==> !IsDigit(s[n])
  {
    if |s| > 0 && IsDigit(s[0]) then
      var n := 1 + DigitPrefix(s[1..]);
      assert s[..n] == [s[0]] + s[1..][..n - 1];
      n
    else 0
  }

  /** `.` matches any character but a newline, so `.+` needs one such character. */
  predicate HasLineChar(s: string) {
    exists i :: 0 <= i < |s| && s[i] != '\n'
  }

  /** The longest prefix without a newline: what a greedy `.+` consumes. */
  function UpToNewline(s: string): (r: string)
    ensures StartsWith(s, r) && '\n' !in r
    ensures |r| < |s| ==> s[|r|] == '\n'
  {
    if |s| == 0 || s[0] == '\n' then "" else [s[0]] + UpToNewline(s[1..])
  }

  /**
   * The stripped second group of the heading pattern, given the text after the
   * colon. `\s*` takes all leading whitespace unless that leaves nothing for
   * `.+`, in which case it backs off and the group is whitespace only.
   */
  function TitleText(tail: string): (r: string)
    ensures IsTrimmed(r)
  {
    var m := LeadingSpaces(tail);
    if m < |tail| then Trim(UpToNewline(tail[m..])) else ""
  }

  /**
   * For a line as `readlines()` gives it (no newline but possibly a final
   * one), the title is the text after the colon, stripped.
   */
  lemma TitleIsTrimmedRest(tail: string)
    requires forall i :: 0 <= i < |tail| - 1 ==> tail[i] != '\n'
    ensures TitleText(tail) == Trim(tail)
  {
    var m := LeadingSpaces(tail);
    LeadingRunSpace(tail);
    TrimDropFront(tail, m);
    if m < |tail| {
      var rest := tail[m..];
      assert forall i :: 0 <= i < |rest| - 1 ==> rest[i] == tail[m + i];
      TrimUpToNewline(rest);
    } else {
      assert tail[m..] == [];
    }
  }

  /** Stripping what `.+` consumes gives the same as stripping the whole text, when only its last character can be a newline. */
  lemma TrimUpToNewline(s: string)
    requires forall i :: 0 <= i < |s| - 1 ==> s[i] != '\n'
    ensures Trim(UpToNewline(s)) == Trim(s)
  {
    UpToNewlineWhole(s);
    if UpToNewline(s) != s {
      TrimDropBack(s);
    }
  }

  /** In text whose only possible newline is its last character, `.+` runs to that newline or the end. */
  lemma UpToNewlineWhole(s: string)
    requires forall i :: 0 <= i < |s| - 1 ==> s[i] != '\n'
    ensures UpToNewline(s) == s || (|s| > 0 && s[|s| - 1] == '\n' && UpToNewline(s) == s[..|s| - 1])
  {
    var r := UpToNewline(s);
    assert r == s[..|r|];
    if |r| < |s| {
      assert s[|r|] == '\n';
      assert |r| == |s| - 1;
    } else {
      assert r == s;
    }
  }

  /** The title never spans more than one line. */
  lemma TitleSingleLine(tail: string)
    ensures '\n' !in TitleText(tail)
  {
    var m := LeadingSpaces(tail);
    if m < |tail| {
      var u := UpToNewline(tail[m..]);
      TrimSpec(u);
      var t := Trim(u);
      assert t == u[LeadingSpaces(u)..LeadingSpaces(u) + |t|];
    }
  }

  /**
   * The length of the id group `SBS-[A-Z]+-\d+` that starts at index 4 and is
   * followed by a colon, if there is one.
   */
  function IdLength(line: string): (r: Option<nat>)
    requires StartsWith(line, ControlMarker)
    ensures r.Some? ==> 4 + r.value < |line| && line[4 + r.value] == ':'
  {
    var rest := line[8..];
    var n := UpperPrefix(rest);
    if n == 0 || n == |rest| || rest[n] != '-' then None
    else
      var rest2 := rest[n + 1..];
      var d := DigitPrefix(rest2);
      if d == 0 || d == |rest2| || rest2[d] != ':' then None
      else Some(5 + n + d)
  }

  /** What `IdLength` measures has the shape of a control id. */
  lemma IdLengthSound(line: string)
    requires StartsWith(line, ControlMarker) && IdLength(line).Some?
    ensures IsControlId(line[4..4 + IdLength(line).value])
  {
    var rest := line[8..];
    var n := UpperPrefix(rest);
    var d := DigitPrefix(rest[n + 1..]);
    IdShape(line, n, d);
  }

  lemma IdShape(line: string, n: nat, d: nat)
    requires StartsWith(line, ControlMarker) && 0 < n && 0 < d && 9 + n + d <= |line|
    requires AllUpper(line[8..][..n]) && n < |line[8..]| && line[8..][n] == '-'
    requires AllDigits(line[8..][n + 1..][..d])
    ensures IsControlId(line[4..9 + n + d])
  {
    var id := line[4..9 + n + d];
    assert id[..4] == line[4..8] == "SBS-";
    assert id[4 + n] == line[8..][n] == '-';
    assert id[4..4 + n] == line[8..][..n] by {
      forall j | 0 <= j < n ensures id[4..4 + n][j] == line[8..][..n][j] {
        assert id[4 + j] == line[8 + j];
      }
    }
    assert id[5 + n..] == line[8..][n + 1..][..d] by {
      var digits := line[8..][n + 1..][..d];
      forall j | 0 <= j < d ensures id[5 + n..][j] == digits[j] {
        assert id[5 + n + j] == line[9 + n + j];
      }
    }
    assert IsControlId(id);
  }

  /** The heading matcher: the control id and its trimmed title, or no match. */
  function ParseHeader(line: string): (r: Option<Header>)
    ensures r.Some? ==> StartsWith(line, ControlMarker)
  {
    if !StartsWith(line, ControlMarker) then None
    else
      match IdLength(line)
      case None => None
      case Some(len) => HeaderAt(line, len)
  }

  /** The rest of the match once the id group is known to span `len` characters. */
  function HeaderAt(line: string, len: nat): Option<Header>
    requires 4 + len < |line|
  {
    var tail := line[len + 5..];
    if !HasLineChar(tail) then None
    else Some(Header(line[4..4 + len], TitleText(tail)))
  }

  /**
   * A match is a line `### <id>:<tail>` whose id has the shape
   * `SBS-<A-Z>+-<0-9>+` and whose tail holds a character other than a
   * newline; the title is the tail's first line, stripped.
   */
  lemma ParseHeaderSound(line: string)
    requires ParseHeader(line).Some?
    ensures var h := ParseHeader(line).value;
            && IsControlId(h.id) && |h.id| + 5 <= |line|
            && line == "### " + h.id + ":" + line[|h.id| + 5..]
            && HasLineChar(line[|h.id| + 5..])
            && h.title == TitleText(line[|h.id| + 5..])
  {
    var len := IdLength(line).value;
    var id := line[4..4 + len];
    var tail := line[len + 5..];
    HeaderParts(line, len);
    HeaderTail(line, id, tail);
  }

  /** `[A-Z]+` stops exactly where the upper-case run stops. */
  lemma {:induction false} UpperPrefixExact(s: string, n: nat)
    requires n < |s| && AllUpper(s[..n]) && !IsUpper(s[n])
    ensures UpperPrefix(s) == n
    decreases n
  {
    if n > 0 {
      assert IsUpper(s[..n][0]);
      assert s[1..][..n - 1] == s[..n][1..];
      UpperPrefixExact(s[1..], n - 1);
    }
  }

  /** `\d+` stops exactly where the digit run stops. */
  lemma {:induction false} DigitPrefixExact(s: string, n: nat)
    requires n < |s| && AllDigits(s[..n]) && !IsDigit(s[n])
    ensures DigitPrefix(s) == n
    decreases n
  {
    if n > 0 {
      assert IsDigit(s[..n][0]);
      assert s[1..][..n - 1] == s[..n][1..];
      DigitPrefixExact(s[1..], n - 1);
    }
  }

  /** Where the pieces of `### <id>:<tail>` sit in the line. */
  lemma HeadingLayout(id: string, tail: string)
    requires |id| >= 4
    ensures var line := "### " + id + ":" + tail;
            && |line| == |id| + 5 + |tail| && line[..4] == "### "
            && line[4..4 + |id|] == id && line[4 + |id|] == ':' && line[|id| + 5..] == tail
            && line[4..8] == id[..4]
  {
  }

  /** `IdLength` once the letter run `n` and the digit run `d` after the marker are known. */
  lemma IdLengthAt(line: string, n: nat, d: nat)
    requires StartsWith(line, ControlMarker)
    requires 0 < n < |line| - 8 && UpperPrefix(line[8..]) == n && line[8 + n] == '-'
    requires 0 < d < |line| - 9 - n && DigitPrefix(line[9 + n..]) == d && line[9 + n + d] == ':'
    ensures IdLength(line) == Some(5 + n + d)
  {
    assert line[8..][n] == line[8 + n];
    assert line[8..][n + 1..] == line[9 + n..];
  }

  /** The heading starts with the control marker. */
  lemma HeadingMarker(id: string, tail: string)
    requires |id| >= 4 && id[..4] == "SBS-"
    ensures StartsWith("### " + id + ":" + tail, ControlMarker)
  {
    var line := "### " + id + ":" + tail;
    HeadingLayout(id, tail);
    assert line[..8] == line[..4] + line[4..8];
  }

  /** `[A-Z]+` after the marker covers the letters of the id and stops at its `-`. */
  lemma HeadingUpperRun(id: string, tail: string, k: nat)
    requires 5 <= k < |id| - 1 && id[k] == '-' && AllUpper(id[4..k])
    ensures var line := "### " + id + ":" + tail;
            8 + (k - 4) < |line| && UpperPrefix(line[8..]) == k - 4 && line[8 + (k - 4)] == '-'
  {
    var line := "### " + id + ":" + tail;
    HeadingLayout(id, tail);
    var rest := line[8..];
    var n := k - 4;
    forall i | 0 <= i < n ensures rest[..n][i] == id[4..k][i] {
      assert rest[..n][i] == line[4..4 + |id|][4 + i];
    }
    assert rest[..n] == id[4..k];
    assert rest[n] == line[4..4 + |id|][k];
    UpperPrefixExact(rest, n);
  }

  /** `\d+` after the `-` covers the digits of the id and stops at the `:`. */
  lemma HeadingDigitRun(id: string, tail: string, k: nat)
    requires 5 <= k < |id| - 1 && AllDigits(id[k + 1..])
    ensures var line := "### " + id + ":" + tail;
            var d := |id| - k - 1;
            5 + k + d < |line| && DigitPrefix(line[5 + k..]) == d && line[5 + k + d] == ':'
  {
    var line := "### " + id + ":" + tail;
    HeadingLayout(id, tail);
    var rest := line[5 + k..];
    var d := |id| - k - 1;
    forall i | 0 <= i < d ensures rest[..d][i] == id[k + 1..][i] {
      assert rest[..d][i] == line[4..4 + |id|][k + 1 + i];
    }
    assert rest[..d] == id[k + 1..];
    assert rest[d] == line[4 + |id|];
    DigitPrefixExact(rest, d);
  }

  /** The id group of a heading line spans exactly the id. */
  lemma IdLengthOfHeading(id: string, tail: string, k: nat)
    requires 5 <= k < |id| - 1 && id[..4] == "SBS-" && id[k] == '-' && AllUpper(id[4..k]) && AllDigits(id[k + 1..])
    ensures StartsWith("### " + id + ":" + tail, ControlMarker)
    ensures IdLength("### " + id + ":" + tail) == Some(|id|)
  {
    var line := "### " + id + ":" + tail;
    HeadingMarker(id, tail);
    HeadingUpperRun(id, tail, k);
    HeadingDigitRun(id, tail, k);
    IdLengthAt(line, k - 4, |id| - k - 1);
  }

  /** The heading matcher's answer once the id group and the tail are known. */
  lemma ParseHeaderWith(line: string, len: nat, id: string, tail: string)
    requires StartsWith(line, ControlMarker) && IdLength(line) == Some(len)
    requires 4 + len < |line| && line[4..4 + len] == id && line[len + 5..] == tail && HasLineChar(tail)
    ensures ParseHeader(line) == Some(Header(id, TitleText(tail)))
  {
    assert ParseHeader(line) == HeaderAt(line, len);
  }

  /**
   * Every line `### <id>:<tail>` with an id of the shape `SBS-<A-Z>+-<0-9>+`
   * and a tail holding a character other than a newline is a heading, with
   * that id and the tail's title.
   */
  lemma HeaderComplete(id: string, tail: string)
    requires IsControlId(id) && HasLineChar(tail)
    ensures ParseHeader("### " + id + ":" + tail) == Some(Header(id, TitleText(tail)))
  {
    var k :| 5 <= k < |id| - 1 && id[..4] == "SBS-" && id[k] == '-' && AllUpper(id[4..k]) && AllDigits(id[k + 1..]);
    var line := "### " + id + ":" + tail;
    IdLengthOfHeading(id, tail, k);
    HeadingLayout(id, tail);
    ParseHeaderWith(line, |id|, id, tail);
  }

  /**
   * A heading line as `readlines()` gives it parses to its id and to the
   * text after the colon, stripped.
   */
  lemma HeadingTitle(id: string, tail: string)
    requires IsControlId(id) && HasLineChar(tail)
    requires forall i :: 0 <= i < |tail| - 1 ==> tail[i] != '\n'
    ensures ParseHeader("### " + id + ":" + tail) == Some(Header(id, Trim(tail)))
  {
    HeaderComplete(id, tail);
    TitleIsTrimmedRest(tail);
  }

  lemma HeaderParts(line: string, len: nat)
    requires ParseHeader(line).Some? && IdLength(line) == Some(len)
    ensures 4 + len < |line|
    ensures ParseHeader(line) == Some(Header(line[4..4 + len], TitleText(line[len + 5..])))
    ensures IsControlId(line[4..4 + len]) && HasLineChar(line[len + 5..])
  {
    HeaderValue(line, len);
    IdLengthSound(line);
  }

  lemma HeaderValue(line: string, len: nat)
    requires ParseHeader(line).Some? && IdLength(line) == Some(len)
    ensures 4 + len < |line| && HasLineChar(line[len + 5..])
    ensures ParseHeader(line) == Some(Header(line[4..4 + len], TitleText(line[len + 5..])))
  {
    assert StartsWith(line, ControlMarker);
  }

  lemma HeaderTail(line: string, id: string, tail: string)
    requires StartsWith(line, ControlMarker) && 5 + |id| <= |line|
    requires id == line[4..4 + |id|] && line[4 + |id|] == ':' && tail == line[|id| + 5..]
    ensures line[|id| + 5..] == tail
    ensures line == "### " + id + ":" + tail
  {
    assert line[..4] == ControlMarker[..4] == "### ";
    assert line == line[..4] + id + [line[4 + |id|]] + tail;
  }



  // ---------------------------------------------------------------------------
  // The scan.
  // ---------------------------------------------------------------------------

  /** What the parser returns: the heading (id and title together) and the field dictionary. */
  datatype ParsedControl = ParsedControl(header: Option<Header>, fields: map<Field, string>)

  /**
   * The loop state: the dictionary built so far, the open field
   * (`current_field`) and its accumulated lines (`current_content`).
   */
  datatype Scan = Scan(header: Option<Header>, fields: map<Field, string>, current: Option<Field>, content: seq<string>)

  const Initial := Scan(None, map[], None, [])

  /** The dictionary once the open field, if any, is written back (newline-joined, stripped). */
  function Flush(s: Scan): map<Field, string> {
    if s.current.Some? && |s.content| > 0 then s.fields[s.current.value := Trim(Join(s.content, "\n"))]
    else s.fields
  }

  /** One iteration of the loop body on a line that does not end the scan. */
  function Step(line: string, atStart: bool, s: Scan): Scan {
    if atStart && StartsWith(line, ControlMarker) then ReadHeader(line, s)
    else
      match FindLabel(line)
      case Some(l) => OpenField(line, l, s)
      case None => ReadContent(line, s)
  }

  /** The heading line: id and title are recorded when the pattern matches. */
  function ReadHeader(line: string, s: Scan): Scan {
    match ParseHeader(line)
    case Some(h) => s.(header := Some(h))
    case None => s
  }

  /** A label line: the open field is written back and the labelled one opened. */
  function OpenField(line: string, l: Label, s: Scan): Scan
  {
    Scan(s.header, Flush(s), Some(l.field), [Seed(line, l)])
  }

  /** Any other line: kept for the open field unless it is blank. */
  function ReadContent(line: string, s: Scan): Scan {
    if s.current.Some? && Trim(line) != "" then s.(content := s.content + [line]) else s
  }

  /** A label line, which is never a control heading, opens its field. */
  lemma StepOnLabel(line: string, atStart: bool, s: Scan)
    requires FindLabel(line).Some?
    ensures Step(line, atStart, s) == OpenField(line, FindLabel(line).value, s)
  {
    LabelNotHeading(line);
  }

  /** A line that carries a label does not start with the heading marker. */
  lemma LabelNotHeading(line: string)
    requires FindLabel(line).Some?
    ensures !StartsWith(line, ControlMarker)
  {
    FindLabelBold(line);
    assert line[0] == '*';
  }

  /** Any other line changes the dictionary and the open field not at all, and its lines at most by itself. */
  lemma StepOnOther(line: string, atStart: bool, s: Scan)
    requires FindLabel(line).None?
    requires atStart ==> s.current.None?
    ensures var s' := Step(line, atStart, s);
            && s'.fields == s.fields && s'.current == s.current
            && s'.content == (if s.current.Some? && Trim(line) != "" then s.content + [line] else s.content)
  {
  }

  /** Only the first line can set the heading, and it sets it to the match, if any. */
  lemma StepHeader(line: string, atStart: bool, s: Scan)
    requires atStart ==> s.header.None?
    ensures Step(line, atStart, s).header == if atStart then ParseHeader(line) else s.header
  {
    if atStart && !StartsWith(line, ControlMarker) && FindLabel(line).Some? {
      LabelNotHeading(line);
    }
  }

  /** The loop state once lines `start` to `i - 1` have been read. */
  function StateAt(lines: seq<string>, start: nat, i: nat): Scan
    requires start <= i <= |lines|
    decreases i
  {
    if i == start then Initial
    else Step(lines[i - 1], i - 1 == start, StateAt(lines, start, i - 1))
  }

  /** The state after line `prev` is one step on from the state before it. */
  lemma StateAtStep(lines: seq<string>, start: nat, prev: nat, i: nat)
    requires start <= prev && prev == i - 1 && i <= |lines|
    ensures StateAt(lines, start, i) == Step(lines[prev], prev == start, StateAt(lines, start, prev))
  {
  }

  /** Whether the loop breaks at line `i`: a control heading other than the first line. */
  predicate EndsBlock(lines: seq<string>, start: nat, i: nat)
    requires i < |lines|
  {
    i != start && StartsWith(lines[i], ControlMarker)
  }

  /** Where the scan that has reached line `j` stops: the first later break or the end of input. */
  function StopIndex(lines: seq<string>, start: nat, j: nat): (n: nat)
    ensures j >= |lines| ==> n == j
    ensures j < |lines| ==> j <= n <= |lines|
    ensures forall k :: j <= k < n && k < |lines| ==> !EndsBlock(lines, start, k)
    ensures n < |lines| ==> EndsBlock(lines, start, n)
    decreases |lines| - j
  {
    if j >= |lines| || EndsBlock(lines, start, j) then j else StopIndex(lines, start, j + 1)
  }

  /** `parse_control_from_lines(lines, start_idx)` as a function: the control and where scanning stopped. */
  function ParseControl(lines: seq<string>, start: nat): (r: (ParsedControl, nat))
    ensures r.1 == StopIndex(lines, start, start)
    ensures start < |lines| ==> start < r.1 <= |lines|
    ensures start >= |lines| ==> r == (ParsedControl(None, map[]), start)
  {
    var n := StopIndex(lines, start, start);
    var s := if start <= |lines| then StateAt(lines, start, n) else Initial;
    (ParsedControl(s.header, Flush(s)), n)
  }

  /**
   * The body of the source's loop for a line that does not end the block:
   * record the heading, or open a field, or keep a content line.
   */
  method ReadLine(line: string, atStart: bool, header: Option<Header>, fields: map<Field, string>,
                  current: Option<Field>, content: seq<string>)
    returns (header': Option<Header>, fields': map<Field, string>, current': Option<Field>, content': seq<string>)
    ensures Scan(header', fields', current', content') == Step(line, atStart, Scan(header, fields, current, content))
  {
    header', fields', current', content' := header, fields, current, content;
    if atStart && StartsWith(line, ControlMarker) {
      var h := ParseHeader(line);
      if h.Some? {
        header' := h;
      }
    } else {
      var found := FindLabel(line);
      if found.Some? {
        if current.Some? && |content| > 0 {
          fields' := fields[current.value := Trim(Join(content, "\n"))];
        }
        current' := Some(found.value.field);
        content' := [Seed(line, found.value)];
      } else if current.Some? && Trim(line) != "" {
        content' := content + [line];
      }
    }
  }

  /** `parse_control_from_lines`: the loop of the source, proved to compute `ParseControl`. */
  method ParseControlFromLines(lines: seq<string>, start: nat) returns (control: ParsedControl, next: nat)
    ensures (control, next) == ParseControl(lines, start)
  {
    var header: Option<Header> := None;
    var fields: map<Field, string> := map[];
    var current: Option<Field> := None;
    var content: seq<string> := [];
    if start > |lines| {
      return ParsedControl(header, fields), start;
    }
    var i := start;
    while i < |lines|
      invariant start <= i <= |lines|
      invariant StopIndex(lines, start, i) == StopIndex(lines, start, start)
      invariant Scan(header, fields, current, content) == StateAt(lines, start, i)
      decreases |lines| - i
    {
      var line := lines[i];
      if StartsWith(line, ControlMarker) && i != start {
        break;
      }
      ghost var before := Scan(header, fields, current, content);
      header, fields, current, content := ReadLine(line, i == start, header, fields, current, content);
      assert StateAt(lines, start, i + 1) == Step(line, i == start, before);
      i := i + 1;
    }
    ghost var final := Scan(header, fields, current, content);
    assert i == StopIndex(lines, start, i) == StopIndex(lines, start, start);
    if current.Some? && |content| > 0 {
      fields := fields[current.value := Trim(Join(content, "\n"))];
    }
    assert fields == Flush(final);
    control := ParsedControl(header, fields);
    next := i;
  }
}
