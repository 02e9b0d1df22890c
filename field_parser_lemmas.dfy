/**
 * What `parse_control_from_lines` computes, stated without its loop: the
 * heading comes from the first line only, and each field holds the segment
 * of its last label — the text after the label and the non-blank lines up
 * to the next label or the end of the block, joined by newlines and stripped.
 *
 * The segment functions read the labels through `found`, the label each line
 * starts with (`LabelsOf(lines)`), so that reasoning about where segments
 * begin and end never has to look at the label markers themselves.
 */
module FieldParserLemmas {
  import opened Wrappers
  import opened Text
  import opened FieldParser

  /** The label each line starts with, if any, line by line. */
  function LabelsOf(lines: seq<string>): (found: seq<Option<Label>>)
    ensures |found| == |lines|
    decreases |lines|
  {
    if |lines| == 0 then [] else LabelsOf(lines[..|lines| - 1]) + [FindLabel(lines[|lines| - 1])]
  }

  lemma {:induction false} LabelOfLine(lines: seq<string>, k: nat)
    requires k < |lines|
    ensures LabelsOf(lines)[k] == FindLabel(lines[k])
    decreases |lines|
  {
    if k < |lines| - 1 {
      LabelOfLine(lines[..|lines| - 1], k);
      assert lines[..|lines| - 1][k] == lines[k];
    }
  }

  /** Line `k` starts with a label that writes field `f`. */
  predicate LabelsField(found: seq<Option<Label>>, k: nat, f: Field)
    requires k < |found|
  {
    found[k].Some? && found[k].value.field == f
  }

  /** The last label line in `[lo, hi)`. */
  function LastLabel(found: seq<Option<Label>>, lo: nat, hi: nat): (r: Option<nat>)
    requires lo <= hi <= |found|
    ensures r.Some? ==> lo <= r.value < hi && found[r.value].Some?
    decreases hi
  {
    if hi == lo then None
    else if found[hi - 1].Some? then Some(hi - 1)
    else LastLabel(found, lo, hi - 1)
  }

  /** The last line in `[lo, hi)` whose label writes `f`. */
  function LastLabelFor(found: seq<Option<Label>>, lo: nat, hi: nat, f: Field): (r: Option<nat>)
    requires lo <= hi <= |found|
    ensures r.Some? ==> lo <= r.value < hi && LabelsField(found, r.value, f)
    decreases hi
  {
    if hi == lo then None
    else if LabelsField(found, hi - 1, f) then Some(hi - 1)
    else LastLabelFor(found, lo, hi - 1, f)
  }

  /** The first label line in `[j, hi)`, or `hi`: where a segment opened before `j` ends. */
  function NextLabel(found: seq<Option<Label>>, j: nat, hi: nat): (r: nat)
    requires j <= hi <= |found|
    ensures j <= r <= hi
    ensures r < hi ==> found[r].Some?
    decreases hi - j
  {
    if j == hi then hi
    else if found[j].Some? then j
    else NextLabel(found, j + 1, hi)
  }

  /** No label line in `[lo, hi)` comes after the one `LastLabel` finds. */
  lemma {:induction false} LastLabelIsLast(found: seq<Option<Label>>, lo: nat, hi: nat)
    requires lo <= hi <= |found|
    ensures forall j :: lo <= j < hi && found[j].Some? ==>
              LastLabel(found, lo, hi).Some? && j <= LastLabel(found, lo, hi).value
    decreases hi
  {
    if hi > lo && found[hi - 1].None? {
      LastLabelIsLast(found, lo, hi - 1);
    }
  }

  /** No line in `[lo, hi)` labelled for `f` comes after the one `LastLabelFor` finds. */
  lemma {:induction false} LastLabelForIsLast(found: seq<Option<Label>>, lo: nat, hi: nat, f: Field)
    requires lo <= hi <= |found|
    ensures forall j :: lo <= j < hi && LabelsField(found, j, f) ==>
              LastLabelFor(found, lo, hi, f).Some? && j <= LastLabelFor(found, lo, hi, f).value
    decreases hi
  {
    if hi > lo && !LabelsField(found, hi - 1, f) {
      LastLabelForIsLast(found, lo, hi - 1, f);
    }
  }

  /** No label line in `[j, hi)` comes before the one `NextLabel` finds. */
  lemma {:induction false} NextLabelIsFirst(found: seq<Option<Label>>, j: nat, hi: nat)
    requires j <= hi <= |found|
    ensures forall m :: j <= m < hi && found[m].Some? ==> NextLabel(found, j, hi) <= m
    decreases hi - j
  {
    if j < hi && found[j].None? {
      NextLabelIsFirst(found, j + 1, hi);
    }
  }

  /** A segment is extended by one line: the next label is found where it was, or later. */
  lemma {:induction false} NextLabelExtend(found: seq<Option<Label>>, j: nat, hi: nat)
    requires j <= hi < |found|
    ensures NextLabel(found, j, hi + 1) ==
            if NextLabel(found, j, hi) < hi then NextLabel(found, j, hi)
            else if found[hi].Some? then hi
            else hi + 1
    decreases hi - j
  {
    if j < hi && found[j].None? {
      NextLabelExtend(found, j + 1, hi);
    }
  }

  /** The last label of all, if it writes `f`, is also the last label for `f`. */
  lemma LastLabelIsLastFor(found: seq<Option<Label>>, lo: nat, hi: nat, k: nat)
    requires lo <= hi <= |found| && LastLabel(found, lo, hi) == Some(k)
    ensures LastLabelFor(found, lo, hi, found[k].value.field) == Some(k)
  {
    var f := found[k].value.field;
    LastLabelForIsLast(found, lo, hi, f);
    LastLabelIsLast(found, lo, hi);
    assert LabelsField(found, k, f);
  }

  /** A line labelled for `f` with none after it is the one `LastLabelFor` finds. */
  lemma LastLabelForAt(found: seq<Option<Label>>, lo: nat, hi: nat, f: Field, k: nat)
    requires lo <= k < hi <= |found| && LabelsField(found, k, f)
    requires forall j :: k < j < hi ==> !LabelsField(found, j, f)
    ensures LastLabelFor(found, lo, hi, f) == Some(k)
  {
    LastLabelForIsLast(found, lo, hi, f);
  }

  /** A label line `e` with none between `j` and it is the one `NextLabel` finds. */
  lemma {:induction false} NextLabelAt(found: seq<Option<Label>>, j: nat, hi: nat, e: nat)
    requires j <= e <= hi <= |found|
    requires forall m :: j <= m < e ==> found[m].None?
    requires e < hi ==> found[e].Some?
    ensures NextLabel(found, j, hi) == e
    decreases e - j
  {
    if j < e {
      NextLabelAt(found, j + 1, hi, e);
    }
  }

  // ---------------------------------------------------------------------------
  // The text of a segment.
  // ---------------------------------------------------------------------------

  /** The lines of `[lo, hi)` that are not blank, in order. */
  function NonBlank(lines: seq<string>, lo: nat, hi: nat): (r: seq<string>)
    requires lo <= hi <= |lines|
    ensures |r| <= hi - lo
    decreases hi
  {
    if hi == lo then []
    else NonBlank(lines, lo, hi - 1) + (if Trim(lines[hi - 1]) != "" then [lines[hi - 1]] else [])
  }

  /** The lines `NonBlank` keeps are exactly the non-blank ones. */
  lemma {:induction false} NonBlankLines(lines: seq<string>, lo: nat, hi: nat)
    requires lo <= hi <= |lines|
    ensures forall x :: x in NonBlank(lines, lo, hi) ==> Trim(x) != ""
    ensures forall j :: lo <= j < hi && Trim(lines[j]) != "" ==> lines[j] in NonBlank(lines, lo, hi)
    decreases hi
  {
    if hi > lo {
      NonBlankLines(lines, lo, hi - 1);
    }
  }

  /**
   * `NonBlank` keeps the source order: the kept lines of `[lo, m)` come
   * before those of `[m, hi)`, and one line is kept alone exactly when it
   * is not blank.
   */
  lemma {:induction false} NonBlankOrder(lines: seq<string>, lo: nat, m: nat, hi: nat)
    requires lo <= m <= hi <= |lines|
    ensures NonBlank(lines, lo, hi) == NonBlank(lines, lo, m) + NonBlank(lines, m, hi)
    ensures m < hi ==> NonBlank(lines, m, m + 1) == if Trim(lines[m]) != "" then [lines[m]] else []
    decreases hi
  {
    if hi == m {
      assert NonBlank(lines, m, m) == [];
      assert NonBlank(lines, lo, m) + [] == NonBlank(lines, lo, m);
    } else {
      var prev := hi - 1;
      NonBlankOrder(lines, lo, m, prev);
      NonBlankStep(lines, lo, m, prev, hi);
      NonBlankSingle(lines, m);
    }
  }

  /** One more line after a split range. */
  lemma NonBlankStep(lines: seq<string>, lo: nat, m: nat, prev: nat, hi: nat)
    requires lo <= m <= prev && prev == hi - 1 && hi <= |lines|
    requires NonBlank(lines, lo, prev) == NonBlank(lines, lo, m) + NonBlank(lines, m, prev)
    ensures NonBlank(lines, lo, hi) == NonBlank(lines, lo, m) + NonBlank(lines, m, hi)
  {
    var tail := if Trim(lines[prev]) != "" then [lines[prev]] else [];
    assert NonBlank(lines, lo, hi) == NonBlank(lines, lo, prev) + tail;
    assert NonBlank(lines, m, hi) == NonBlank(lines, m, prev) + tail;
    ConcatAssoc(NonBlank(lines, lo, m), NonBlank(lines, m, prev), tail);
  }

  /** A single line is kept exactly when it is not blank. */
  lemma NonBlankSingle(lines: seq<string>, m: nat)
    requires m < |lines|
    ensures NonBlank(lines, m, m + 1) == if Trim(lines[m]) != "" then [lines[m]] else []
  {
    assert NonBlank(lines, m, m) == [];
  }

  /** The label's own text followed by the segment's non-blank lines. */
  function SegmentLines(lines: seq<string>, found: seq<Option<Label>>, k: nat, e: nat): seq<string>
    requires |found| == |lines| && k < e <= |lines| && found[k].Some?
  {
    [Seed(lines[k], found[k].value)] + NonBlank(lines, k + 1, e)
  }

  /** The stored text of the segment opened by label line `k` and ending before `e`. */
  function SegmentText(lines: seq<string>, found: seq<Option<Label>>, k: nat, e: nat): (r: string)
    requires |found| == |lines| && k < e <= |lines| && found[k].Some?
    ensures IsTrimmed(r)
  {
    Trim(Join(SegmentLines(lines, found, k, e), "\n"))
  }

  /**
   * Where the segment field `f` holds after lines `[lo, hi)` lies: the last
   * label line for `f` and the line where that segment ends.
   */
  function FieldSpan(found: seq<Option<Label>>, lo: nat, hi: nat, f: Field): (r: Option<(nat, nat)>)
    requires lo <= hi <= |found|
    ensures r.Some? ==> lo <= r.value.0 < r.value.1 <= hi && found[r.value.0].Some?
  {
    match LastLabelFor(found, lo, hi, f)
    case None => None
    case Some(k) => Some((k, NextLabel(found, k + 1, hi)))
  }

  /** The stored text of a segment, if there is one. */
  function SpanText(lines: seq<string>, found: seq<Option<Label>>, span: Option<(nat, nat)>): (r: Option<string>)
    requires |found| == |lines|
    requires span.Some? ==> span.value.0 < span.value.1 <= |lines| && found[span.value.0].Some?
    ensures r.Some? ==> IsTrimmed(r.value)
  {
    match span
    case None => None
    case Some((k, e)) => Some(SegmentText(lines, found, k, e))
  }

  /** The text field `f` holds once lines `[lo, hi)` have been read, if any. */
  function FieldText(lines: seq<string>, found: seq<Option<Label>>, lo: nat, hi: nat, f: Field): Option<string>
    requires |found| == |lines| && lo <= hi <= |lines|
  {
    SpanText(lines, found, FieldSpan(found, lo, hi, f))
  }

  /** The text of a field whose last label line and segment end are known. */
  lemma SpanOf(lines: seq<string>, found: seq<Option<Label>>, lo: nat, hi: nat, f: Field, k: nat, e: nat)
    requires |found| == |lines| && lo <= hi <= |lines|
    requires LastLabelFor(found, lo, hi, f) == Some(k) && NextLabel(found, k + 1, hi) == e
    ensures k < e <= |lines| && found[k].Some?
    ensures FieldText(lines, found, lo, hi, f) == Some(SegmentText(lines, found, k, e))
  {
  }

  /** A segment's text, with the label that opens it named. */
  lemma SegmentWith(lines: seq<string>, found: seq<Option<Label>>, k: nat, e: nat, l: Label)
    requires |found| == |lines| && k < e <= |lines| && found[k] == Some(l)
    ensures SegmentText(lines, found, k, e) == Trim(Join([Seed(lines[k], l)] + NonBlank(lines, k + 1, e), "\n"))
  {
  }

  function Lookup(m: map<Field, string>, f: Field): Option<string> {
    if f in m then Some(m[f]) else None
  }

  // ---------------------------------------------------------------------------
  // The loop invariant.
  // ---------------------------------------------------------------------------

  /** The heading is set only by the first line. */
  predicate HeaderScanned(lines: seq<string>, start: nat, i: nat, s: Scan)
    requires start <= i <= |lines|
  {
    s.header == if i > start then ParseHeader(lines[start]) else None
  }

  /**
   * The open field is the last label's, its lines are that label's segment
   * so far, and the dictionary once flushed holds `FieldText` for every field.
   */
  predicate FieldsScanned(lines: seq<string>, found: seq<Option<Label>>, start: nat, i: nat, s: Scan)
    requires |found| == |lines| && start <= i <= |lines|
  {
    && (match LastLabel(found, start, i)
        case None => s.current.None?
        case Some(k) => s.current == Some(found[k].value.field) && s.content == SegmentLines(lines, found, k, i))
    && forall f :: Lookup(Flush(s), f) == FieldText(lines, found, start, i, f)
  }

  /** Both halves of the invariant of `ParseControlFromLines`. */
  predicate Invariant(lines: seq<string>, start: nat, i: nat, s: Scan)
    requires start <= i <= |lines|
  {
    HeaderScanned(lines, start, i, s) && FieldsScanned(lines, LabelsOf(lines), start, i, s)
  }

  /** A label line for `g` opens a one-line segment for `g`. */
  lemma SpanOpened(found: seq<Option<Label>>, start: nat, i: nat)
    requires start <= i < |found| && found[i].Some?
    ensures FieldSpan(found, start, i + 1, found[i].value.field) == Some((i, i + 1))
  {
    assert LastLabelFor(found, start, i + 1, found[i].value.field) == Some(i);
  }

  /** A label line for another field leaves the segment of `f` where it was. */
  lemma SpanKeptAtLabel(found: seq<Option<Label>>, start: nat, i: nat, f: Field)
    requires start <= i < |found| && found[i].Some? && found[i].value.field != f
    ensures FieldSpan(found, start, i + 1, f) == FieldSpan(found, start, i, f)
  {
    assert LastLabelFor(found, start, i + 1, f) == LastLabelFor(found, start, i, f);
    if LastLabelFor(found, start, i, f).Some? {
      NextLabelExtend(found, LastLabelFor(found, start, i, f).value + 1, i);
    }
  }

  /** Field `f` is not the one whose segment is open after lines `[lo, hi)`. */
  predicate NotOpen(found: seq<Option<Label>>, lo: nat, hi: nat, f: Field)
    requires lo <= hi <= |found|
  {
    match LastLabel(found, lo, hi)
    case None => true
    case Some(k) => found[k].value.field != f
  }

  /** A line that is not a label leaves the segment of every field but the open one where it was. */
  lemma SpanKept(found: seq<Option<Label>>, start: nat, i: nat, f: Field)
    requires start <= i < |found| && found[i].None? && NotOpen(found, start, i, f)
    ensures FieldSpan(found, start, i + 1, f) == FieldSpan(found, start, i, f)
  {
    assert LastLabelFor(found, start, i + 1, f) == LastLabelFor(found, start, i, f);
    if LastLabelFor(found, start, i, f).Some? {
      ClosedSegmentKept(found, start, i, f, LastLabelFor(found, start, i, f).value);
    }
  }

  /** A segment for a field that is not open already ended before line `i`. */
  lemma ClosedSegmentKept(found: seq<Option<Label>>, start: nat, i: nat, f: Field, k': nat)
    requires start <= i < |found| && NotOpen(found, start, i, f)
    requires LastLabelFor(found, start, i, f) == Some(k')
    ensures NextLabel(found, k' + 1, i + 1) == NextLabel(found, k' + 1, i)
  {
    LastLabelIsLast(found, start, i);
    var k := LastLabel(found, start, i).value;
    assert k' < k;
    NextLabelIsFirst(found, k' + 1, i);
    NextLabelExtend(found, k' + 1, i);
  }

  /** A line that is not a label extends the open field's segment by itself. */
  lemma SpanExtended(found: seq<Option<Label>>, start: nat, i: nat, k: nat)
    requires start <= i < |found| && found[i].None?
    requires LastLabel(found, start, i) == Some(k)
    ensures FieldSpan(found, start, i + 1, found[k].value.field) == Some((k, i + 1))
  {
    LastLabelIsLastFor(found, start, i, k);
    assert LastLabelFor(found, start, i + 1, found[k].value.field) == Some(k);
    NextLabelExtend(found, k + 1, i);
  }

  /** Opening a field at a label line stores the segment of that line alone. */
  lemma OpenedText(lines: seq<string>, found: seq<Option<Label>>, i: nat, s: Scan, s': Scan)
    requires |found| == |lines| && i < |lines| && found[i].Some?
    requires s' == OpenField(lines[i], found[i].value, s)
    ensures s'.current == Some(found[i].value.field) && s'.content == SegmentLines(lines, found, i, i + 1)
    ensures Flush(s') == Flush(s)[found[i].value.field := SegmentText(lines, found, i, i + 1)]
  {
    assert NonBlank(lines, i + 1, i + 1) == [];
  }

  /** Reading a line that is not a label into the open segment `k` keeps its text in step. */
  lemma ExtendedText(lines: seq<string>, found: seq<Option<Label>>, i: nat, k: nat, s: Scan, s': Scan)
    requires |found| == |lines| && k < i < |lines| && found[k].Some?
    requires s.current == Some(found[k].value.field) && s.content == SegmentLines(lines, found, k, i)
    requires && s'.fields == s.fields && s'.current == s.current
             && s'.content == (if Trim(lines[i]) != "" then s.content + [lines[i]] else s.content)
    ensures s'.content == SegmentLines(lines, found, k, i + 1)
    ensures Flush(s') == Flush(s)[found[k].value.field := SegmentText(lines, found, k, i + 1)]
  {
    assert NonBlank(lines, k + 1, i + 1) ==
           NonBlank(lines, k + 1, i) + (if Trim(lines[i]) != "" then [lines[i]] else []);
  }

  lemma OpenStep(lines: seq<string>, found: seq<Option<Label>>, start: nat, i: nat, next: nat, s: Scan, s': Scan)
    requires |found| == |lines| && start <= i < |lines| && next == i + 1 && found[i].Some?
    requires FieldsScanned(lines, found, start, i, s)
    requires s' == OpenField(lines[i], found[i].value, s)
    ensures FieldsScanned(lines, found, start, next, s')
  {
    var g := found[i].value.field;
    assert LastLabel(found, start, i + 1) == Some(i);
    OpenedText(lines, found, i, s, s');
    forall f
      ensures Lookup(Flush(s'), f) == FieldText(lines, found, start, i + 1, f)
    {
      if f == g {
        SpanOpened(found, start, i);
        assert Lookup(Flush(s'), f) == Some(SegmentText(lines, found, i, i + 1));
      } else {
        SpanKeptAtLabel(found, start, i, f);
        assert Lookup(Flush(s'), f) == Lookup(Flush(s), f) == FieldText(lines, found, start, i, f);
      }
    }
  }

  /** A line that is not a label, read while no field is open, changes nothing that is stored. */
  lemma ClosedContentStep(lines: seq<string>, found: seq<Option<Label>>, start: nat, i: nat, s: Scan, s': Scan)
    requires |found| == |lines| && start <= i < |lines| && found[i].None?
    requires FieldsScanned(lines, found, start, i, s) && LastLabel(found, start, i).None?
    requires s'.fields == s.fields && s'.current == s.current
    ensures FieldsScanned(lines, found, start, i + 1, s')
  {
    assert LastLabel(found, start, i + 1).None?;
    forall f
      ensures Lookup(Flush(s'), f) == FieldText(lines, found, start, i + 1, f)
    {
      SpanKept(found, start, i, f);
      assert Lookup(Flush(s'), f) == Lookup(Flush(s), f) == FieldText(lines, found, start, i, f);
    }
  }

  /** A line that is not a label, read while a field is open, extends that field alone. */
  lemma OpenContentStep(lines: seq<string>, found: seq<Option<Label>>, start: nat, i: nat, k: nat, s: Scan, s': Scan)
    requires |found| == |lines| && start <= i < |lines| && found[i].None?
    requires FieldsScanned(lines, found, start, i, s) && LastLabel(found, start, i) == Some(k)
    requires s'.current == s.current && s'.content == SegmentLines(lines, found, k, i + 1)
    requires Flush(s') == Flush(s)[found[k].value.field := SegmentText(lines, found, k, i + 1)]
    ensures FieldsScanned(lines, found, start, i + 1, s')
  {
    var g := found[k].value.field;
    assert LastLabel(found, start, i + 1) == Some(k);
    forall f
      ensures Lookup(Flush(s'), f) == FieldText(lines, found, start, i + 1, f)
    {
      if f == g {
        SpanExtended(found, start, i, k);
        assert FieldText(lines, found, start, i + 1, f) == Some(SegmentText(lines, found, k, i + 1));
      } else {
        SpanKept(found, start, i, f);
        assert FieldText(lines, found, start, i + 1, f) == FieldText(lines, found, start, i, f);
        assert Lookup(Flush(s'), f) == Lookup(Flush(s), f);
      }
    }
  }

  lemma ContentStep(lines: seq<string>, found: seq<Option<Label>>, start: nat, i: nat, next: nat, s: Scan, s': Scan)
    requires |found| == |lines| && start <= i < |lines| && next == i + 1 && found[i].None?
    requires FieldsScanned(lines, found, start, i, s)
    requires && s'.fields == s.fields && s'.current == s.current
             && s'.content == (if s.current.Some? && Trim(lines[i]) != "" then s.content + [lines[i]] else s.content)
    ensures FieldsScanned(lines, found, start, next, s')
  {
    match LastLabel(found, start, i)
    case None => ClosedContentStep(lines, found, start, i, s, s');
    case Some(k) =>
      ExtendedText(lines, found, i, k, s, s');
      OpenContentStep(lines, found, start, i, k, s, s');
  }

  /** Reading line `prev` keeps both halves of the invariant. */
  lemma ScanStep(lines: seq<string>, start: nat, prev: nat, i: nat, s: Scan, s': Scan)
    requires start <= prev && i == prev + 1 && i <= |lines| && Invariant(lines, start, prev, s)
    requires s' == Step(lines[prev], prev == start, s)
    ensures Invariant(lines, start, i, s')
  {
    var found := LabelsOf(lines);
    LabelOfLine(lines, prev);
    StepHeader(lines[prev], prev == start, s);
    if found[prev].Some? {
      StepOnLabel(lines[prev], prev == start, s);
      OpenStep(lines, found, start, prev, i, s, s');
    } else {
      StepOnOther(lines[prev], prev == start, s);
      ContentStep(lines, found, start, prev, i, s, s');
    }
  }

  lemma {:induction false} Scanned(lines: seq<string>, start: nat, i: nat)
    requires start <= i <= |lines|
    ensures Invariant(lines, start, i, StateAt(lines, start, i))
    decreases i
  {
    if i > start {
      var prev := i - 1;
      Scanned(lines, start, prev);
      StateAtStep(lines, start, prev, i);
      ScanStep(lines, start, prev, i, StateAt(lines, start, prev), StateAt(lines, start, i));
    }
  }

  // ---------------------------------------------------------------------------
  // What the parser returns.
  // ---------------------------------------------------------------------------

  /**
   * The id and title come from the block's first line and from nowhere else;
   * a first line that is not a well-formed heading leaves both unset.
   */
  lemma HeaderFromFirstLine(lines: seq<string>, start: nat)
    requires start < |lines|
    ensures ParseControl(lines, start).0.header == ParseHeader(lines[start])
  {
    Scanned(lines, start, StopIndex(lines, start, start));
  }

  /**
   * Every field holds the text of the last segment labelled for it within
   * the block `[start, next)`.
   */
  lemma FieldsFromSegments(lines: seq<string>, start: nat)
    requires start < |lines|
    ensures var (c, next) := ParseControl(lines, start);
            forall f :: Lookup(c.fields, f) == FieldText(lines, LabelsOf(lines), start, next, f)
  {
    Scanned(lines, start, StopIndex(lines, start, start));
  }

  /** A field is present exactly when a line of the block starts with one of its labels. */
  lemma FieldPresence(lines: seq<string>, start: nat, f: Field)
    requires start < |lines|
    ensures var (c, next) := ParseControl(lines, start);
            f in c.fields <==>
            exists k :: start <= k < next && FindLabel(lines[k]).Some? && FindLabel(lines[k]).value.field == f
  {
    FieldsFromSegments(lines, start);
    var (c, next) := ParseControl(lines, start);
    var found := LabelsOf(lines);
    assert Lookup(c.fields, f) == FieldText(lines, found, start, next, f);
    LastLabelForIsLast(found, start, next, f);
    if f in c.fields {
      var k := LastLabelFor(found, start, next, f).value;
      LabelOfLine(lines, k);
    }
    forall k | start <= k < next && FindLabel(lines[k]).Some? && FindLabel(lines[k]).value.field == f
      ensures f in c.fields
    {
      LabelOfLine(lines, k);
      assert LabelsField(found, k, f);
    }
  }

  /** Line `k` starts with a label that writes field `f`. */
  predicate LabelledFor(lines: seq<string>, k: nat, f: Field)
    requires k < |lines|
  {
    FindLabel(lines[k]).Some? && FindLabel(lines[k]).value.field == f
  }

  /**
   * The value of a field, written out: when line `k` is the block's last line
   * labelled for `f` and line `e` is the next label line after it (or the end
   * of the block), the field holds the text after the label on line `k` and
   * the non-blank lines strictly between `k` and `e`, newline-joined and
   * stripped. An earlier label for the same field is overwritten.
   */
  lemma FieldValue(lines: seq<string>, start: nat, f: Field, k: nat, e: nat)
    requires start < |lines|
    requires start <= k < e <= ParseControl(lines, start).1
    requires LabelledFor(lines, k, f)
    requires forall j :: k < j < ParseControl(lines, start).1 ==> !LabelledFor(lines, j, f)
    requires forall j :: k < j < e ==> FindLabel(lines[j]).None?
    requires e < ParseControl(lines, start).1 ==> FindLabel(lines[e]).Some?
    ensures f in ParseControl(lines, start).0.fields
    ensures ParseControl(lines, start).0.fields[f] ==
            Trim(Join([Seed(lines[k], FindLabel(lines[k]).value)] + NonBlank(lines, k + 1, e), "\n"))
  {
    var next := ParseControl(lines, start).1;
    var found := LabelsOf(lines);
    LabelOfLine(lines, k);
    forall j | k < j < next ensures !LabelsField(found, j, f) {
      LabelOfLine(lines, j);
      assert !LabelledFor(lines, j, f);
    }
    forall j | k < j < e ensures found[j].None? {
      LabelOfLine(lines, j);
    }
    if e < next {
      LabelOfLine(lines, e);
    }
    FieldsFromSegments(lines, start);
    SegmentValue(lines, found, start, next, ParseControl(lines, start).0.fields, f, k, e);
    SegmentWith(lines, found, k, e, FindLabel(lines[k]).value);
  }

  /** `FieldValue` for a dictionary known segment by segment, with the labels read through `found`. */
  lemma SegmentValue(lines: seq<string>, found: seq<Option<Label>>, start: nat, next: nat,
                     fields: map<Field, string>, f: Field, k: nat, e: nat)
    requires |found| == |lines| && start <= k < e <= next <= |lines|
    requires forall g :: Lookup(fields, g) == FieldText(lines, found, start, next, g)
    requires LabelsField(found, k, f)
    requires forall j :: k < j < next ==> !LabelsField(found, j, f)
    requires forall j :: k < j < e ==> found[j].None?
    requires e < next ==> found[e].Some?
    ensures f in fields && fields[f] == SegmentText(lines, found, k, e)
  {
    assert Lookup(fields, f) == FieldText(lines, found, start, next, f);
    LastLabelForAt(found, start, next, f, k);
    NextLabelAt(found, k + 1, next, e);
    SpanOf(lines, found, start, next, f, k, e);
  }

  /**
   * The legacy `**Rationale:**` label writes the risk field: a block whose
   * last risk-writing line is a Rationale line stores that line's segment as
   * the risk text, whatever `**Risk:**` lines came before it.
   */
  lemma RationaleOverwritesRisk(lines: seq<string>, start: nat, k: nat, e: nat)
    requires start < |lines|
    requires start <= k < e <= ParseControl(lines, start).1
    requires StartsWith(lines[k], "**Rationale:**")
    requires forall j :: k < j < ParseControl(lines, start).1 ==> !LabelledFor(lines, j, Risk)
    requires forall j :: k < j < e ==> FindLabel(lines[j]).None?
    requires e < ParseControl(lines, start).1 ==> FindLabel(lines[e]).Some?
    ensures Risk in ParseControl(lines, start).0.fields
    ensures ParseControl(lines, start).0.fields[Risk] ==
            Trim(Join([Trim(RemoveAll(lines[k], "**Rationale:**"))] + NonBlank(lines, k + 1, e), "\n"))
  {
    RationaleIsRisk(lines[k]);
    FieldValue(lines, start, Risk, k, e);
  }
}
