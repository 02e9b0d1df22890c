# Security Benchmark for Salesforce: XML generator, modelled in Dafny

`scripts/generate_xml.py` turns the benchmark's Markdown control documents
into one XML document. This project models its core and proves what that
core promises. The core has five parts:

- **Field-block parser** (`parse_control_from_lines`, module `FieldParser`).
  - It scans from a `### SBS-…` heading up to the next raw `### SBS-` line or the end.
  - It parses the heading into an id and a title.
  - It collects the text after each bold field label.
  - The legacy `**Rationale:**` label fills `risk`.
  - The method `ParseControlFromLines` is the source's `while` loop. It is proved equal to the specification function `ParseControl`.
  - Module `FieldParserLemmas` relates the result to the lines: the header, which fields exist, and each field's text.
- **Control extractor** (`parse_markdown_file`, module `ControlExtractor`).
  - It works over a given sequence of lines.
  - It tracks the current `## ` category and its look-ahead description.
  - It delegates each control block to the parser and keeps only the records that have an id.
  - The method `ParseMarkdownLines` is the source's loop. It is proved equal to `Extract`.
- **Metadata validator** (`validate_metadata`, module `Metadata`).
  - It applies the five rejection rules in the source's order.
  - Each `ValueError` is a `ValidationError` value.
- **Badge stripper** (`strip_badge_markup`, module `Badges`).
  - It removes every opening `<Badge…>` tag.
  - It collapses whitespace runs and strips the ends.
- **Assembler** (`generate_xml`, module `Assembler`).
  - It groups controls by category in first-seen order.
  - It builds an abstract element tree: the root, a metadata header, and the category and control elements in their fixed child order.
  - It either returns the tree or the error that metadata loading or validation raises.
  - `GroupByCategory`, `EmitCategory` and `GenerateXml` are the source's loops, each proved against a specification function.

Two modules support the rest:

- `Text` holds the string operations Python supplies: `strip`, `startswith`, `replace`, `join`, `str(int)`.
- `Wrappers` holds `Option`, `Result` and `Outcome`.

The model keeps the source's behaviour where it is surprising:

- The parser stops only at a raw `### SBS-` line. A `## ` category heading after the first control is therefore absorbed into the block before it, and the extractor never sees it. Every extracted control carries the context in force at the first control heading. `ExtractShape` and `ExtractedControls` state this.
- A blank or missing look-ahead line keeps the previous category description.
- A category's description comes from its first control only, and only when that description is non-empty. This is the code's behaviour; a first-non-empty-in-the-group rule would differ.
- A label line always opens its field. The field is then saved even when its text is empty.

## Model

| member | source | states |
|---|---|---|
| FieldParser.FindLabelSpec | scripts/generate_xml.py:34-76 | the label chosen for a line is the first, in the source's `elif` order, whose marker starts the line; there is none exactly when no marker starts it |
| FieldParser.MarkerSelectsLabel | scripts/generate_xml.py:34-76 | a line starting with a label's marker selects that label (no marker is a prefix of another) |
| FieldParser.RationaleIsRisk | scripts/generate_xml.py:53-58 | a line starting with `**Rationale:**` opens the `risk` field |
| FieldParser.TitleText | scripts/generate_xml.py:32 | the title is stripped |
| FieldParser.TitleIsTrimmedRest | scripts/generate_xml.py:29-32 | for a tail whose only possible newline is its last character, as `readlines()` gives it, the title is the whole text after the colon, stripped |
| FieldParser.TitleSingleLine | scripts/generate_xml.py:29-32 | the title never crosses a line break (the regex `.` stops at `\n`) |
| FieldParser.IdLengthSound | scripts/generate_xml.py:29 | a measured id is `SBS-`, upper-case letters, `-`, digits, followed by `:` |
| FieldParser.ParseHeaderSound | scripts/generate_xml.py:28-32 | a parsed header comes from a line `### <id>:<tail>` with a well-formed id, a tail holding a non-newline character, and the title taken from that tail |
| FieldParser.HeaderComplete | scripts/generate_xml.py:28-32 | conversely, every line `### <id>:<tail>` with a well-formed id and such a tail parses to exactly that id and title |
| FieldParser.HeadingTitle | scripts/generate_xml.py:28-32 | a heading line `### <id>:<tail>` as `readlines()` gives it, with a well-formed id and a tail holding a character other than a newline, parses to that id and the tail stripped |
| FieldParser.StepOnLabel | scripts/generate_xml.py:35-76 | a label line is never taken for the heading, even as the block's first line: it writes back the open field (when it has lines) and opens the labelled field, seeded with the line minus its marker, stripped |
| FieldParser.StepOnOther | scripts/generate_xml.py:78-80 | a non-label line is appended to the open field only when it is not blank; otherwise nothing changes |
| FieldParser.StepHeader | scripts/generate_xml.py:27-32 | only the block's first line can set the id and title, and it sets them to that line's match, leaving them unset when it does not match |
| FieldParser.StopIndex | scripts/generate_xml.py:19-25 | the scan stops at the first raw `### SBS-` line after the start, or at the end of the lines |
| FieldParser.ParseControl | scripts/generate_xml.py:13-88 | the returned index is that stop point, strictly after the start when the start is inside the lines; a start at or past the end gives an empty record |
| FieldParser.ReadLine | scripts/generate_xml.py:21-82 | one pass of the loop body performs one scan step |
| FieldParser.ParseControlFromLines | scripts/generate_xml.py:13-88 | the loop returns exactly the record and stop index of the specification |
| FieldParserLemmas.NonBlankLines | scripts/generate_xml.py:79-80 | a kept continuation line is never blank, and every non-blank line of the range is kept (membership both ways) |
| FieldParserLemmas.NonBlankOrder | scripts/generate_xml.py:79-80 | the kept lines keep the source order: those of `[lo, m)` come before those of `[m, hi)`, and a single line is kept exactly when it is not blank |
| FieldParserLemmas.HeaderFromFirstLine | scripts/generate_xml.py:28-32 | the record's id and title are those parsed from the start line, and absent when it does not parse |
| FieldParserLemmas.FieldsFromSegments | scripts/generate_xml.py:34-86 | every field's value is the text of the segment opened by its last label line in the block |
| FieldParserLemmas.FieldPresence | scripts/generate_xml.py:34-86 | a field is present exactly when some line of the block is labelled for it, even when its text is empty |
| FieldParserLemmas.FieldValue | scripts/generate_xml.py:34-86 | a field holds the stripped join, by newlines, of its last label line's seed and the non-blank lines up to the next label line or the block's end |
| FieldParserLemmas.RationaleOverwritesRisk | scripts/generate_xml.py:47-58 | when the last `risk` label line is a `**Rationale:**` line, `risk` holds that line's seed, with every `**Rationale:**` removed, plus its continuation lines, replacing any earlier `**Risk:**` text |
| ControlExtractor.CategoryName | scripts/generate_xml.py:105 | the category name is stripped |
| ControlExtractor.ExtractAtCategory | scripts/generate_xml.py:104-108 | a category line changes the context and emits nothing |
| ControlExtractor.ExtractAtBlock | scripts/generate_xml.py:111-118 | a control heading emits its record, when it has an id, and resumes at the block's stop index |
| ControlExtractor.ExtractAtOther | scripts/generate_xml.py:120 | any other line is skipped |
| ControlExtractor.ReadBlock | scripts/generate_xml.py:112 | the call of the parser at a line returns that line's block |
| ControlExtractor.ExtractLines | scripts/generate_xml.py:95-122 | the loop returns the controls of the specification |
| ControlExtractor.ParseMarkdownLines | scripts/generate_xml.py:90-122 | the extractor returns exactly `Extract(lines)` |
| ControlExtractor.BlocksStop | scripts/generate_xml.py:19-25 | every block ends at the next raw control heading or at the end |
| ControlExtractor.HeadingStripped | scripts/generate_xml.py:101-111 | a raw control heading is still one after stripping, and it is not a category line |
| ControlExtractor.ExtractShape | scripts/generate_xml.py:99-122 | the output is the records of the first control heading and of every later raw `### SBS-` line, all tagged with the context in force at the first heading |
| ControlExtractor.CategoryKept | scripts/generate_xml.py:99-108 | without a category line in between, the context does not change |
| ControlExtractor.DescriptionKept | scripts/generate_xml.py:107-108 | the description is kept across category lines with a blank or missing look-ahead line |
| ControlExtractor.CategoryFromLast | scripts/generate_xml.py:104-105 | the category in force is the name from the last category line |
| ControlExtractor.DescriptionFromLast | scripts/generate_xml.py:106-108 | the description in force is the look-ahead line of the last category line that has one |
| ControlExtractor.ControlLinesIncreasing | scripts/generate_xml.py:99-122 | the lines the controls come from strictly increase, so the output is in document order |
| ControlExtractor.ExtractRecords | scripts/generate_xml.py:111-118 | the output is, one for one, the records of those lines |
| ControlExtractor.ControlAt | scripts/generate_xml.py:111-116 | an extracted control comes from a control heading whose header parses to its id and title; its fields are that block's fields and it carries the context |
| ControlExtractor.ExtractedControls | scripts/generate_xml.py:90-122 | each output control comes from its own heading line, in increasing line order, with a well-formed id, the block's fields, and the category and description in force |
| Metadata.TaskCheckedLast | scripts/generate_xml.py:139-187 | the task rule is checked last: a document is rejected with `MissingTitleTemplate` exactly when its task has no `title_template` or an empty one and it breaks none of the four earlier rules |
| Metadata.ValidateMetadata | scripts/generate_xml.py:139-187 | an empty document passes; a document passes exactly when it breaks none of the five rules, and a failure names a rule it breaks, with the offending value |
| Metadata.ReportsFirstBrokenRule | scripts/generate_xml.py:144-178 | a bad risk level is reported first, then a scope outside the list, then an `entity_type` mismatch before any task problem |
| Metadata.AcceptedShape | scripts/generate_xml.py:139-187 | an accepted document has a listed risk level, a listed scope, `entity_type` exactly with scope `entity`, and a non-empty title template for a task |
| Badges.RemoveBadges | scripts/generate_xml.py:194 | removing tags never lengthens the text |
| Badges.NoBadgeUnchanged | scripts/generate_xml.py:194 | text without `<Badge` is unchanged, so a closing `</Badge>` survives |
| Badges.UnclosedUnchanged | scripts/generate_xml.py:194 | a `<Badge` with no `>` after it is not removed |
| Badges.TagRemoved | scripts/generate_xml.py:194 | a tag is cut from `<Badge` through its first `>`, and the text before it is kept |
| Badges.TagThenText | scripts/generate_xml.py:194 | a tag followed by text without `<Badge` leaves exactly that text |
| Badges.PrefixKept | scripts/generate_xml.py:194 | text without `<Badge` in front of a `<Badge` is kept as it is, and removal goes on from that `<Badge` |
| Badges.UnclosedAfterText | scripts/generate_xml.py:194 | a `<Badge` never closed by a `>` is kept, whatever text without `<Badge` comes before it, even one holding a `>` |
| Badges.CollapseSpace | scripts/generate_xml.py:196 | collapsing whitespace runs gives single-spaced text, is empty exactly when the input is, and begins with whitespace exactly when the input does |
| Badges.CollapseConcat | scripts/generate_xml.py:196 | text that ends in a non-whitespace character is collapsed apart from what follows it |
| Badges.CollapseRun | scripts/generate_xml.py:196 | a whitespace run after a non-whitespace character (or the start) and before one (or the end) becomes exactly one space, and the text on each side is collapsed on its own |
| Badges.CollapseKeepsText | scripts/generate_xml.py:196 | collapsing keeps every non-whitespace character, in order |
| Badges.CollapseSingleSpaced | scripts/generate_xml.py:196 | single-spaced text is left as it is |
| Badges.TrimSingleSpaced | scripts/generate_xml.py:196 | stripping keeps text single-spaced |
| Badges.TrimKeepsText | scripts/generate_xml.py:196 | stripping drops only whitespace |
| Badges.StripBadgeMarkup | scripts/generate_xml.py:189-197 | empty text is returned unchanged; any result is stripped and single-spaced |
| Badges.StripKeepsText | scripts/generate_xml.py:189-197 | apart from the tags, no non-whitespace character is lost or reordered |
| Badges.StripCleanUnchanged | scripts/generate_xml.py:189-197 | text that is stripped, single-spaced and free of `<Badge` comes back unchanged |
| Assembler.RemediationScopeFound | scripts/generate_xml.py:264-272 | the `remediation_scope` block holds a `scope` leaf and then an `entity_type` leaf, each exactly when its key is present and carrying the document's value |
| Assembler.TaskFound | scripts/generate_xml.py:275-280 | the `task` block holds a `title_template` leaf exactly when its key is present, carrying the document's value |
| Assembler.MetadataElementsFound | scripts/generate_xml.py:259-280 | a valid document adds `risk_level`, `remediation_scope` and `task`, in that order, each exactly when its key is present; `risk_level` carries the document's value and the two blocks are those of the document's `remediation` and `task` |
| Assembler.MetadataFor | scripts/generate_xml.py:251-257 | a control's metadata fails exactly when its file cannot be loaded or does not validate, and the error names the control's id |
| Assembler.MetadataForResult | scripts/generate_xml.py:251-280 | a file that cannot be loaded gives `LoadError`; a document that fails validation gives `InvalidMetadata` with a rule the document breaks; a success adds the validated document's children, and none without a directory, a file or a non-empty document |
| Assembler.ControlElement | scripts/generate_xml.py:236-282 | building a control fails exactly when its metadata fails, with an error naming that control |
| Assembler.ControlChildOrder | scripts/generate_xml.py:237-282 | a control element carries its id and children in the order title, statement, description, risk, audit_procedure, remediation, then the metadata children, then default_value; the six fixed children carry the title and the field texts (the risk text stripped of badge markup), the children between them and default_value are exactly the metadata part, and default_value carries its field's text |
| Assembler.MetadataEmitted | scripts/generate_xml.py:251-280 | in a control element, `risk_level`, `remediation_scope` and `task` are found exactly for the keys of a validated document, with that document's values, and never without one |
| Assembler.EntityTypeEmitted | scripts/generate_xml.py:264-272 | a valid document with `remediation.entity_type` makes the control succeed and puts that value in the `entity_type` leaf of its `remediation_scope` block, beside a `scope` leaf that is `entity` when present |
| Assembler.NoMetadataSevenChildren | scripts/generate_xml.py:237-282 | without a metadata directory every control succeeds with exactly the six fixed children and default_value |
| Assembler.Collect | scripts/generate_xml.py:229-282 | a sequence of steps succeeds exactly when every step does, with their values in order |
| Assembler.CollectFirstError | scripts/generate_xml.py:254-257 | a failure is the error of the first failing step, and every step before it succeeded |
| Assembler.FirstSeen | scripts/generate_xml.py:219-224 | the category keys are distinct |
| Assembler.SeenKeys | scripts/generate_xml.py:219-224 | a key is a category exactly when some control carries it |
| Assembler.Members | scripts/generate_xml.py:219-224 | a group holds only controls of its category |
| Assembler.MembersFrom | scripts/generate_xml.py:219-224 | a group holds only input controls |
| Assembler.GroupByCategory | scripts/generate_xml.py:218-224 | the loop builds the keys in first-seen order and maps each key to exactly its members, in input order |
| Assembler.FirstSeenOrder | scripts/generate_xml.py:219-224 | of any two keys, the earlier appears in the input before the later does |
| Assembler.GroupsPartition | scripts/generate_xml.py:219-224 | the group sizes add up to the number of controls |
| Assembler.InOwnGroup | scripts/generate_xml.py:220-224 | every control is in the group of its category |
| Assembler.OwnKeySeen | scripts/generate_xml.py:220-223 | every control's category is a key |
| Assembler.KeyHasMembers | scripts/generate_xml.py:222-224 | every group is non-empty |
| Assembler.EmitCategory | scripts/generate_xml.py:229-282 | the loop over one group builds that group's category element or fails with the first error |
| Assembler.CategoryShape | scripts/generate_xml.py:229-237 | a category element holds its name, then a description exactly when its first control has a non-empty one, carrying that description's text, then one control element per member, in order |
| Assembler.GenerateXml | scripts/generate_xml.py:206-284 | the generator returns the specified tree or error |
| Assembler.TotalControls | scripts/generate_xml.py:208-216 | the root carries the version and namespace; its metadata holds a `title` leaf with the title constant, a `version` leaf with the version, and a decimal `total_controls` equal to the number of controls |
| Assembler.CategoryLayout | scripts/generate_xml.py:227-235 | there is one category element per key, in first-seen order, each built from its non-empty group |
| Assembler.GenerateFails | scripts/generate_xml.py:206-284 | generation fails exactly when some control's metadata cannot be loaded or does not validate |
| Assembler.CategoryFirstError | scripts/generate_xml.py:236-257 | a failing category reports the error of its first control whose metadata fails, and every control before it is clean |
| Assembler.CategoryClean | scripts/generate_xml.py:236-257 | an emitted category has no control whose metadata fails |
| Assembler.GenerateFirstError | scripts/generate_xml.py:229-257 | the error generation raises is that of the first failing control in emission order: groups in first-seen order, each group's controls in input order |
| Text.Trim | scripts/generate_xml.py:32 | `str.strip()`: the result has no whitespace at either end |
| Text.TrimSpec | scripts/generate_xml.py:32 | `str.strip()` drops exactly the leading and trailing whitespace |
| Text.TrimDropFront | scripts/generate_xml.py:32 | stripping is unchanged by first dropping any whitespace prefix |
| Text.TrimDropBack | scripts/generate_xml.py:32 | stripping is unchanged by first dropping a final whitespace character, such as the `\n` `readlines()` leaves |
| Text.NatToString | scripts/generate_xml.py:216 | `str(n)` is the decimal digits of `n`, with no leading zero |

## Left out

- Reading files: `open`/`readlines` at scripts/generate_xml.py:92-93 and the YAML loading at :124-137. The lines come in as a `seq<string>`, and the metadata directory as a `MetadataStore`. In the store, `None` means no metadata directory and a missing key means no file. `Loaded(None)` is an empty or null document, and `Unreadable` is a file whose loading raises.
- YAML values are strings only. A non-string scalar, a document that is not a mapping, or a `remediation`/`task` value that is not a mapping is not modelled. An empty mapping counts as an empty document, so it is `Loaded(None)` as well.
- Error messages and the `ERROR:` print at :136 are not modelled. A `ValueError` is the `ValidationError` value that names the broken rule and the offending value. A load failure is `LoadError(id)`.
- XML serialisation, pretty-printing (`minidom`), `main` and command-line handling are not modelled. The output is the abstract element tree the source builds; an element whose text is `None` or empty carries the empty text.
- The `'Uncategorized'` default at :221 is not modelled. The extractor always sets the `category` key, so that default cannot apply to its output. `category` is an `Option<string>`, so a control with no category has no name text, as in the source. `None` and an empty name stay distinct group keys.
- Whitespace is the ASCII set (space, tab, newline, vertical tab, form feed, carriage return). Python's `str.strip()` and `\s` also treat the control characters `\x1c`-`\x1f` and the other Unicode spaces (such as `\x85`, `\xa0` and `\u2028`) as whitespace.
- Strings are sequences of characters. No encoding or Unicode normalisation is modelled.
- `str.replace(label, '')` is modelled as removing every non-overlapping occurrence, left to right.
- Python's `\d` in the header regex at :29 matches every Unicode decimal digit; the model's digits are `0`-`9` only. So `### SBS-AUTH-٣: t` has an id in the source and none in the model.
- Lines are taken as `readlines()` returns them, each with its trailing `\n` (the last line may lack one). The model keeps them so: the heading's title stops at the newline, and a continuation line keeps its `\n` inside the field's text, where the join by newlines adds another; only the joined text's ends are stripped.
- The header regex at :29 is modelled by hand: `SBS-`, upper-case letters, `-`, digits, `:`, optional whitespace, then at least one character before a newline. Its backtracking is stated by `ParseHeaderSound` and `HeaderComplete`.
