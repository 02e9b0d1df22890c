/**
 * `parse_markdown_file` over a document already split into lines: the
 * category context is tracked from `## ` headings (the description is the
 * line two below the heading when that line is not blank), each control
 * block is handed to `parse_control_from_lines`, and only blocks whose
 * heading yields an id are kept, tagged with the context in force.
 *
 * The source compares stripped lines against the markers, while the block
 * parser stops only at a raw `### SBS-` line. The main theorem,
 * `ExtractShape`, says what that adds up to: after the first block, every
 * line the extractor looks at again is a raw control heading, so all the
 * controls of a document share one category context.
 */
module ControlExtractor {
  import opened Wrappers
  import opened Text
  import opened FieldParser
  import FieldParserLemmas

  /** A control as the extractor returns it: the parsed block and its category context. */
  datatype Control = Control(id: string, title: string, fields: map<Field, string>,
                             category: Option<string>, categoryDescription: Option<string>)

  /** `category` and `category_description`: the context in force while scanning. */
  datatype Context = Context(category: Option<string>, description: Option<string>)

  const NoContext := Context(None, None)

  /** A stripped line that names a category: `## ` but not `###`. */
  predicate IsCategoryLine(line: string) {
    StartsWith(line, "## ") && !StartsWith(line, "###")
  }

  /** The category named by a stripped heading line: every `##` removed, then stripped. */
  function CategoryName(line: string): (r: string)
    ensures IsTrimmed(r)
  {
    Trim(RemoveAll(line, "##"))
  }

  /** Whether the look-ahead two lines below line `i` supplies a description. */
  predicate HasDescription(lines: seq<string>, i: nat) {
    i + 2 < |lines| && Trim(lines[i + 2]) != ""
  }

  /**
   * The context after the category heading on line `i`: the category is
   * replaced, the description only when the look-ahead line supplies one.
   */
  function EnterCategory(lines: seq<string>, i: nat, ctx: Context): (r: Context)
    requires i < |lines|
    ensures r.category == Some(CategoryName(Trim(lines[i])))
    ensures HasDescription(lines, i) ==> r.description == Some(Trim(lines[i + 2]))
    ensures !HasDescription(lines, i) ==> r.description == ctx.description
  {
    Context(Some(CategoryName(Trim(lines[i]))),
            if HasDescription(lines, i) then Some(Trim(lines[i + 2])) else ctx.description)
  }

  /** Whether a parsed block yields a control: its id is set and not empty. */
  predicate HasId(pc: ParsedControl) {
    pc.header.Some? && pc.header.value.id != ""
  }

  /** A parsed block becomes a control, tagged with `ctx`, when its id is set and not empty. */
  function Record(pc: ParsedControl, ctx: Context): (r: Option<Control>)
    ensures r.Some? <==> HasId(pc)
    ensures r.Some? ==> r.value == Control(pc.header.value.id, pc.header.value.title, pc.fields,
                                           ctx.category, ctx.description)
  {
    if pc.header.Some? && pc.header.value.id != "" then
      Some(Control(pc.header.value.id, pc.header.value.title, pc.fields, ctx.category, ctx.description))
    else None
  }

  /** `rest` with the value held by `o`, if any, in front. */
  function Prepend<T>(o: Option<T>, rest: seq<T>): (r: seq<T>)
    ensures o.None? ==> r == rest
    ensures o.Some? ==> r == [o.value] + rest
  {
    match o
    case None => rest
    case Some(x) => [x] + rest
  }

  /** A table of block parses: entry `i` is what scanning a block from line `i` returns. */
  type Blocks = seq<(ParsedControl, nat)>

  /** Every entry of the table ends beyond its own line and within the document. */
  predicate Advances(lines: seq<string>, blocks: Blocks) {
    |blocks| == |lines| && forall i :: 0 <= i < |blocks| ==> i < blocks[i].1 <= |lines|
  }

  /** `parse_control_from_lines` started at each line of the document. */
  function BlocksOf(lines: seq<string>): (blocks: Blocks)
    ensures Advances(lines, blocks)
  {
    seq(|lines|, i requires 0 <= i < |lines| => ParseControl(lines, i))
  }

  /** What the loop of `parse_markdown_file` appends from line `i` on, in context `ctx`. */
  function ExtractFrom(lines: seq<string>, blocks: Blocks, i: nat, ctx: Context): seq<Control>
    requires Advances(lines, blocks) && i <= |lines|
    decreases |lines| - i
  {
    if i == |lines| then []
    else
      var line := Trim(lines[i]);
      if IsCategoryLine(line) then ExtractFrom(lines, blocks, i + 1, EnterCategory(lines, i, ctx))
      else if StartsWith(line, ControlMarker) then
        Prepend(Record(blocks[i].0, ctx), ExtractFrom(lines, blocks, blocks[i].1, ctx))
      else ExtractFrom(lines, blocks, i + 1, ctx)
  }

  /** `parse_markdown_file` on the lines of a file. */
  function Extract(lines: seq<string>): seq<Control> {
    ExtractFrom(lines, BlocksOf(lines), 0, NoContext)
  }

  /** A category heading changes the context and nothing else. */
  lemma ExtractAtCategory(lines: seq<string>, blocks: Blocks, i: nat, ctx: Context)
    requires Advances(lines, blocks) && i < |lines| && IsCategoryLine(Trim(lines[i]))
    ensures ExtractFrom(lines, blocks, i, ctx) == ExtractFrom(lines, blocks, i + 1, EnterCategory(lines, i, ctx))
  {
  }

  /** A control block contributes its control, if any, and the scan resumes where the block ended. */
  lemma ExtractAtBlock(lines: seq<string>, blocks: Blocks, i: nat, ctx: Context, pc: ParsedControl, next: nat)
    requires Advances(lines, blocks) && i < |lines| && blocks[i] == (pc, next)
    requires !IsCategoryLine(Trim(lines[i])) && StartsWith(Trim(lines[i]), ControlMarker)
    ensures next <= |lines|
    ensures ExtractFrom(lines, blocks, i, ctx) == Prepend(Record(pc, ctx), ExtractFrom(lines, blocks, next, ctx))
  {
  }

  /** Any other line is passed over. */
  lemma ExtractAtOther(lines: seq<string>, blocks: Blocks, i: nat, ctx: Context)
    requires Advances(lines, blocks) && i < |lines|
    requires !IsCategoryLine(Trim(lines[i])) && !StartsWith(Trim(lines[i]), ControlMarker)
    ensures ExtractFrom(lines, blocks, i, ctx) == ExtractFrom(lines, blocks, i + 1, ctx)
  {
  }

  /** `blocks` records, for every line, what the block parser returns when started there. */
  predicate Tabulates(lines: seq<string>, blocks: Blocks)
    requires |blocks| == |lines|
  {
    forall j {:trigger ParseControl(lines, j)} :: 0 <= j < |lines| ==> blocks[j] == ParseControl(lines, j)
  }

  /** The call to `parse_control_from_lines` at line `i`: its answer is entry `i` of the table. */
  method ReadBlock(lines: seq<string>, ghost blocks: Blocks, i: nat) returns (control: ParsedControl, next: nat)
    requires Advances(lines, blocks) && Tabulates(lines, blocks) && i < |lines|
    ensures (control, next) == blocks[i]
  {
    control, next := ParseControlFromLines(lines, i);
  }

  /** `parse_markdown_file`: the loop of the source, proved to compute `Extract`. */
  method ParseMarkdownLines(lines: seq<string>) returns (controls: seq<Control>)
    ensures controls == Extract(lines)
  {
    controls := ExtractLines(lines, BlocksOf(lines));
  }

  /** The loop of `parse_markdown_file`, proved against any table that agrees with the block parser. */
  method ExtractLines(lines: seq<string>, ghost blocks: Blocks) returns (controls: seq<Control>)
    requires Advances(lines, blocks) && Tabulates(lines, blocks)
    ensures controls == ExtractFrom(lines, blocks, 0, NoContext)
  {
    controls := [];
    var category: Option<string> := None;
    var description: Option<string> := None;
    var i := 0;
    while i < |lines|
      invariant i <= |lines|
      invariant controls + ExtractFrom(lines, blocks, i, Context(category, description)) ==
                ExtractFrom(lines, blocks, 0, NoContext)
      decreases |lines| - i
    {
      var line := Trim(lines[i]);
      if StartsWith(line, "## ") && !StartsWith(line, "###") {
        ExtractAtCategory(lines, blocks, i, Context(category, description));
        ghost var entered := EnterCategory(lines, i, Context(category, description));
        category := Some(Trim(RemoveAll(line, "##")));
        if i + 2 < |lines| && Trim(lines[i + 2]) != "" {
          description := Some(Trim(lines[i + 2]));
        }
        assert Context(category, description) == entered;
      } else if StartsWith(line, ControlMarker) {
        var control, next := ReadBlock(lines, blocks, i);
        ExtractAtBlock(lines, blocks, i, Context(category, description), control, next);
        ghost var rest := ExtractFrom(lines, blocks, next, Context(category, description));
        if control.header.Some? && control.header.value.id != "" {
          var c := Control(control.header.value.id, control.header.value.title, control.fields,
                           category, description);
          assert controls + ([c] + rest) == (controls + [c]) + rest;
          controls := controls + [c];
        }
        i := next;
        continue;
      } else {
        ExtractAtOther(lines, blocks, i, Context(category, description));
      }
      i := i + 1;
    }
  }

  // ---------------------------------------------------------------------------
  // The shape of the output, stated without the loop.
  // ---------------------------------------------------------------------------

  /** The first line from `i` on whose stripped text starts with the heading marker, or the end. */
  function FirstBlock(lines: seq<string>, i: nat): (r: nat)
    requires i <= |lines|
    ensures i <= r <= |lines|
    ensures r < |lines| ==> StartsWith(Trim(lines[r]), ControlMarker)
    decreases |lines| - i
  {
    if i == |lines| || StartsWith(Trim(lines[i]), ControlMarker) then i else FirstBlock(lines, i + 1)
  }

  /** The context in force at line `j` when scanning from `i` in context `ctx` meets no control. */
  function ContextAt(lines: seq<string>, i: nat, j: nat, ctx: Context): Context
    requires i <= j <= |lines|
    decreases j - i
  {
    if i == j then ctx
    else ContextAt(lines, i + 1, j, if IsCategoryLine(Trim(lines[i])) then EnterCategory(lines, i, ctx) else ctx)
  }

  /** The lines from `j` on that start, unstripped, with the heading marker. */
  function HeadingsFrom(lines: seq<string>, j: nat): (r: seq<nat>)
    requires j <= |lines|
    ensures forall m :: 0 <= m < |r| ==> j <= r[m] < |lines| && StartsWith(lines[r[m]], ControlMarker)
    decreases |lines| - j
  {
    if j == |lines| then []
    else (if StartsWith(lines[j], ControlMarker) then [j] else []) + HeadingsFrom(lines, j + 1)
  }

  /** Every entry of the table stops where the block parser stops. */
  predicate StopsAtHeadings(lines: seq<string>, blocks: Blocks)
    requires |blocks| == |lines|
  {
    forall b :: 0 <= b < |blocks| ==> blocks[b].1 == StopIndex(lines, b, b)
  }

  lemma BlocksStop(lines: seq<string>)
    ensures StopsAtHeadings(lines, BlocksOf(lines))
  {
    forall b | 0 <= b < |lines| ensures BlocksOf(lines)[b].1 == StopIndex(lines, b, b) {
      assert BlocksOf(lines)[b] == ParseControl(lines, b);
    }
  }

  /** The controls the blocks starting at `bs` yield, each tagged with `ctx`. */
  function RecordsAt(blocks: Blocks, bs: seq<nat>, ctx: Context): seq<Control>
    requires forall m :: 0 <= m < |bs| ==> bs[m] < |blocks|
  {
    if |bs| == 0 then [] else Prepend(Record(blocks[bs[0]].0, ctx), RecordsAt(blocks, bs[1..], ctx))
  }

  /** The extractor passes over lines before the first block, only tracking the context. */
  lemma {:induction false} SkipToBlock(lines: seq<string>, blocks: Blocks, i: nat, ctx: Context)
    requires Advances(lines, blocks) && i <= |lines|
    ensures ExtractFrom(lines, blocks, i, ctx) ==
            ExtractFrom(lines, blocks, FirstBlock(lines, i), ContextAt(lines, i, FirstBlock(lines, i), ctx))
    decreases |lines| - i
  {
    if i < |lines| && !StartsWith(Trim(lines[i]), ControlMarker) {
      var ctx' := if IsCategoryLine(Trim(lines[i])) then EnterCategory(lines, i, ctx) else ctx;
      assert ExtractFrom(lines, blocks, i, ctx) == ExtractFrom(lines, blocks, i + 1, ctx');
      SkipToBlock(lines, blocks, i + 1, ctx');
    }
  }

  /** A raw control heading is also one once stripped. */
  lemma HeadingStripped(line: string)
    requires StartsWith(line, ControlMarker)
    ensures StartsWith(Trim(line), ControlMarker) && !IsCategoryLine(Trim(line))
  {
    StartsWithTrim(line, ControlMarker);
    assert Trim(line)[2] == ControlMarker[2];
  }

  /** No raw heading in `[j, n)`: the headings from `j` are those from `n`. */
  lemma {:induction false} HeadingsSkip(lines: seq<string>, j: nat, n: nat)
    requires j <= n <= |lines|
    requires forall k :: j <= k < n ==> !StartsWith(lines[k], ControlMarker)
    ensures HeadingsFrom(lines, j) == HeadingsFrom(lines, n)
    decreases n - j
  {
    if j < n {
      HeadingsSkip(lines, j + 1, n);
    }
  }

  /** One block: its control, if any, then the rest from where the block parser stopped. */
  lemma BlockStep(lines: seq<string>, blocks: Blocks, b: nat, ctx: Context)
    requires Advances(lines, blocks) && StopsAtHeadings(lines, blocks)
    requires b < |lines| && StartsWith(Trim(lines[b]), ControlMarker)
    ensures var n := blocks[b].1;
            && ExtractFrom(lines, blocks, b, ctx) == Prepend(Record(blocks[b].0, ctx), ExtractFrom(lines, blocks, n, ctx))
            && HeadingsFrom(lines, b + 1) == HeadingsFrom(lines, n)
            && (n < |lines| ==> StartsWith(lines[n], ControlMarker))
  {
    var n := blocks[b].1;
    assert n == StopIndex(lines, b, b);
    assert Trim(lines[b])[2] == ControlMarker[2];
    forall k | b + 1 <= k < n ensures !StartsWith(lines[k], ControlMarker) {
      assert !EndsBlock(lines, b, k);
    }
    HeadingsSkip(lines, b + 1, n);
  }

  /** From a block start on, the output is the controls of that block and of every later raw heading. */
  lemma {:induction false} FromBlock(lines: seq<string>, blocks: Blocks, b: nat, ctx: Context)
    requires Advances(lines, blocks) && StopsAtHeadings(lines, blocks)
    requires b < |lines| && StartsWith(Trim(lines[b]), ControlMarker)
    ensures ExtractFrom(lines, blocks, b, ctx) == RecordsAt(blocks, [b] + HeadingsFrom(lines, b + 1), ctx)
    decreases |lines| - b
  {
    var n := blocks[b].1;
    BlockStep(lines, blocks, b, ctx);
    var here := Record(blocks[b].0, ctx);
    var bs := [b] + HeadingsFrom(lines, n);
    assert bs[0] == b && bs[1..] == HeadingsFrom(lines, n);
    if n == |lines| {
      assert RecordsAt(blocks, bs, ctx) == Prepend(here, RecordsAt(blocks, [], ctx));
    } else {
      HeadingStripped(lines[n]);
      FromBlock(lines, blocks, n, ctx);
      assert HeadingsFrom(lines, n) == [n] + HeadingsFrom(lines, n + 1);
    }
  }

  /**
   * What `parse_markdown_file` returns: the controls of the first block (the
   * first line whose stripped text starts with `### SBS-`) and of every later
   * line starting with `### SBS-`, in document order, keeping those with an
   * id, all tagged with the context in force when the first block is reached.
   */
  lemma ExtractShape(lines: seq<string>)
    ensures var b := FirstBlock(lines, 0);
            Extract(lines) ==
              if b == |lines| then []
              else RecordsAt(BlocksOf(lines), [b] + HeadingsFrom(lines, b + 1), ContextAt(lines, 0, b, NoContext))
  {
    var blocks := BlocksOf(lines);
    var b := FirstBlock(lines, 0);
    SkipToBlock(lines, blocks, 0, NoContext);
    if b < |lines| {
      BlocksStop(lines);
      FromBlock(lines, blocks, b, ContextAt(lines, 0, b, NoContext));
    }
  }

  // ---------------------------------------------------------------------------
  // The category context, stated without the scan.
  // ---------------------------------------------------------------------------

  /** With no category heading in `[i, j)`, the category is kept. */
  lemma {:induction false} CategoryKept(lines: seq<string>, i: nat, j: nat, ctx: Context)
    requires i <= j <= |lines|
    requires forall m :: i <= m < j ==> !IsCategoryLine(Trim(lines[m]))
    ensures ContextAt(lines, i, j, ctx) == ctx
    decreases j - i
  {
    if i < j {
      CategoryKept(lines, i + 1, j, ctx);
    }
  }

  /** With no category heading in `[i, j)` whose look-ahead supplies a description, the description is kept. */
  lemma {:induction false} DescriptionKept(lines: seq<string>, i: nat, j: nat, ctx: Context)
    requires i <= j <= |lines|
    requires forall m :: i <= m < j && IsCategoryLine(Trim(lines[m])) ==> !HasDescription(lines, m)
    ensures ContextAt(lines, i, j, ctx).description == ctx.description
    decreases j - i
  {
    if i < j {
      var ctx' := if IsCategoryLine(Trim(lines[i])) then EnterCategory(lines, i, ctx) else ctx;
      assert ctx'.description == ctx.description;
      DescriptionKept(lines, i + 1, j, ctx');
    }
  }

  /** The category in force at `j` is named by the last category heading before `j`. */
  lemma {:induction false} CategoryFromLast(lines: seq<string>, i: nat, j: nat, k: nat, ctx: Context)
    requires i <= k < j <= |lines| && IsCategoryLine(Trim(lines[k]))
    requires forall m :: k < m < j ==> !IsCategoryLine(Trim(lines[m]))
    ensures ContextAt(lines, i, j, ctx).category == Some(CategoryName(Trim(lines[k])))
    decreases k - i
  {
    if i == k {
      CategoryKept(lines, k + 1, j, EnterCategory(lines, k, ctx));
    } else {
      CategoryFromLast(lines, i + 1, j, k, if IsCategoryLine(Trim(lines[i])) then EnterCategory(lines, i, ctx) else ctx);
    }
  }

  /**
   * The description in force at `j` is the look-ahead line of the last
   * category heading before `j` that had one; headings with a blank or
   * missing look-ahead line leave it as it was.
   */
  lemma {:induction false} DescriptionFromLast(lines: seq<string>, i: nat, j: nat, k: nat, ctx: Context)
    requires i <= k < j <= |lines| && IsCategoryLine(Trim(lines[k])) && HasDescription(lines, k)
    requires forall m :: k < m < j && IsCategoryLine(Trim(lines[m])) ==> !HasDescription(lines, m)
    ensures ContextAt(lines, i, j, ctx).description == Some(Trim(lines[k + 2]))
    decreases k - i
  {
    if i == k {
      DescriptionKept(lines, k + 1, j, EnterCategory(lines, k, ctx));
    } else {
      DescriptionFromLast(lines, i + 1, j, k, if IsCategoryLine(Trim(lines[i])) then EnterCategory(lines, i, ctx) else ctx);
    }
  }

  // ---------------------------------------------------------------------------
  // Each control, traced back to its heading line.
  // ---------------------------------------------------------------------------

  predicate Increasing(s: seq<nat>) {
    forall m, n :: 0 <= m < n < |s| ==> s[m] < s[n]
  }

  lemma IncreasingCons(x: nat, s: seq<nat>)
    requires Increasing(s) && forall m :: 0 <= m < |s| ==> x < s[m]
    ensures Increasing([x] + s)
  {
    var r := [x] + s;
    forall m, n | 0 <= m < n < |r| ensures r[m] < r[n] {
      assert r[n] == s[n - 1];
    }
  }

  lemma {:induction false} HeadingsIncreasing(lines: seq<string>, j: nat)
    requires j <= |lines|
    ensures Increasing(HeadingsFrom(lines, j))
    decreases |lines| - j
  {
    if j < |lines| {
      HeadingsIncreasing(lines, j + 1);
    }
  }

  /** The entries of `bs` whose blocks yield a control, in the same order. */
  function Kept(blocks: Blocks, bs: seq<nat>): (r: seq<nat>)
    requires forall m :: 0 <= m < |bs| ==> bs[m] < |blocks|
    ensures forall p :: 0 <= p < |r| ==> r[p] < |blocks|
  {
    if |bs| == 0 then []
    else (if HasId(blocks[bs[0]].0) then [bs[0]] else []) + Kept(blocks, bs[1..])
  }

  lemma {:induction false} KeptAbove(blocks: Blocks, bs: seq<nat>, lo: nat)
    requires forall m :: 0 <= m < |bs| ==> lo <= bs[m] < |blocks|
    ensures forall p :: 0 <= p < |Kept(blocks, bs)| ==> lo <= Kept(blocks, bs)[p]
  {
    if |bs| > 0 {
      KeptAbove(blocks, bs[1..], lo);
    }
  }

  lemma {:induction false} KeptIncreasing(blocks: Blocks, bs: seq<nat>)
    requires forall m :: 0 <= m < |bs| ==> bs[m] < |blocks|
    requires Increasing(bs)
    ensures Increasing(Kept(blocks, bs))
  {
    if |bs| > 0 {
      var rest := Kept(blocks, bs[1..]);
      KeptIncreasing(blocks, bs[1..]);
      KeptAbove(blocks, bs[1..], bs[0] + 1);
      assert Kept(blocks, bs) == (if HasId(blocks[bs[0]].0) then [bs[0]] else []) + rest;
    }
  }

  /** The blocks visited yield the controls returned, one for one. */
  lemma {:induction false} RecordsAtKept(blocks: Blocks, bs: seq<nat>, ctx: Context)
    requires forall m :: 0 <= m < |bs| ==> bs[m] < |blocks|
    ensures var ks := Kept(blocks, bs);
            var rs := RecordsAt(blocks, bs, ctx);
            && |rs| == |ks|
            && forall p :: 0 <= p < |ks| ==> Record(blocks[ks[p]].0, ctx) == Some(rs[p])
  {
    if |bs| > 0 {
      var ks' := Kept(blocks, bs[1..]);
      var rs' := RecordsAt(blocks, bs[1..], ctx);
      RecordsAtKept(blocks, bs[1..], ctx);
      var here := Record(blocks[bs[0]].0, ctx);
      if here.Some? {
        var ks := [bs[0]] + ks';
        var rs := [here.value] + rs';
        assert Kept(blocks, bs) == ks && RecordsAt(blocks, bs, ctx) == rs;
        forall p | 0 < p < |ks| ensures Record(blocks[ks[p]].0, ctx) == Some(rs[p]) {
          assert ks[p] == ks'[p - 1] && rs[p] == rs'[p - 1];
        }
      } else {
        assert Kept(blocks, bs) == ks' && RecordsAt(blocks, bs, ctx) == rs';
      }
    }
  }

  /** The heading lines the controls of a document come from. */
  function ControlLines(lines: seq<string>): (r: seq<nat>)
    ensures forall p :: 0 <= p < |r| ==> r[p] < |lines|
  {
    var b := FirstBlock(lines, 0);
    if b == |lines| then [] else Kept(BlocksOf(lines), [b] + HeadingsFrom(lines, b + 1))
  }

  /** A control recorded from the block at line `h` carries that line's header and that block's fields. */
  lemma ControlAt(lines: seq<string>, h: nat, ctx: Context, c: Control)
    requires h < |lines| && Record(BlocksOf(lines)[h].0, ctx) == Some(c)
    ensures StartsWith(Trim(lines[h]), ControlMarker)
    ensures ParseHeader(lines[h]) == Some(Header(c.id, c.title)) && IsControlId(c.id)
    ensures c.fields == ParseControl(lines, h).0.fields
    ensures c.category == ctx.category && c.categoryDescription == ctx.description
  {
    assert BlocksOf(lines)[h] == ParseControl(lines, h);
    FieldParserLemmas.HeaderFromFirstLine(lines, h);
    ParseHeaderSound(lines[h]);
    HeadingStripped(lines[h]);
  }

  /** The heading lines of the controls are in document order. */
  lemma ControlLinesIncreasing(lines: seq<string>)
    ensures Increasing(ControlLines(lines))
  {
    var b := FirstBlock(lines, 0);
    if b < |lines| {
      var bs := [b] + HeadingsFrom(lines, b + 1);
      HeadingsIncreasing(lines, b + 1);
      IncreasingCons(b, HeadingsFrom(lines, b + 1));
      KeptIncreasing(BlocksOf(lines), bs);
      assert ControlLines(lines) == Kept(BlocksOf(lines), bs);
    }
  }

  /** The controls returned are the records of the blocks at those heading lines, in the first block's context. */
  lemma ExtractRecords(lines: seq<string>)
    ensures var cs := Extract(lines);
            var ks := ControlLines(lines);
            var ctx := ContextAt(lines, 0, FirstBlock(lines, 0), NoContext);
            && |cs| == |ks|
            && forall p :: 0 <= p < |ks| ==> Record(BlocksOf(lines)[ks[p]].0, ctx) == Some(cs[p])
  {
    var b := FirstBlock(lines, 0);
    ExtractShape(lines);
    if b < |lines| {
      RecordsAtKept(BlocksOf(lines), [b] + HeadingsFrom(lines, b + 1), ContextAt(lines, 0, b, NoContext));
    }
  }

  /**
   * The controls `parse_markdown_file` returns come from heading lines in
   * document order, one each. Each control's id and title are what the
   * heading pattern reads from that line, so the id is a well-formed control
   * id; its fields are what the block parser collects from there; and its
   * category and description are the context in force when the first block
   * of the document is reached.
   */
  lemma ExtractedControls(lines: seq<string>)
    ensures var cs := Extract(lines);
            var ks := ControlLines(lines);
            var ctx := ContextAt(lines, 0, FirstBlock(lines, 0), NoContext);
            && |cs| == |ks| && Increasing(ks)
            && forall p :: 0 <= p < |cs| ==>
                 && StartsWith(Trim(lines[ks[p]]), ControlMarker)
                 && ParseHeader(lines[ks[p]]) == Some(Header(cs[p].id, cs[p].title))
                 && IsControlId(cs[p].id)
                 && cs[p].fields == ParseControl(lines, ks[p]).0.fields
                 && cs[p].category == ctx.category
                 && cs[p].categoryDescription == ctx.description
  {
    var cs := Extract(lines);
    var ks := ControlLines(lines);
    var ctx := ContextAt(lines, 0, FirstBlock(lines, 0), NoContext);
    ControlLinesIncreasing(lines);
    ExtractRecords(lines);
    forall p | 0 <= p < |cs|
      ensures && StartsWith(Trim(lines[ks[p]]), ControlMarker)
              && ParseHeader(lines[ks[p]]) == Some(Header(cs[p].id, cs[p].title))
              && IsControlId(cs[p].id)
              && cs[p].fields == ParseControl(lines, ks[p]).0.fields
              && cs[p].category == ctx.category
              && cs[p].categoryDescription == ctx.description
    {
      ControlAt(lines, ks[p], ctx, cs[p]);
    }
  }
}
