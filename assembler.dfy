/**
 * `generate_xml`: the controls are grouped by category, in the order each
 * category is first seen, and emitted as an element tree. Metadata is
 * given as the documents of a metadata directory by control id; a document
 * that cannot be loaded or fails `validate_metadata` stops generation.
 * Serialisation of the tree to text is not part of this model.
 */
module Assembler {
  import opened Wrappers
  import opened Text
  import opened FieldParser
  import opened ControlExtractor
  import opened Metadata
  import opened Badges

  const Namespace := "https://securitybenchmark.dev/sbs/v1"
  const BenchmarkTitle := "Security Benchmark for Salesforce"

  /** An element of the output tree; empty text stands for an element without text. */
  datatype Element = Element(tag: string, attributes: seq<(string, string)>, text: string, children: seq<Element>)

  /** `create_xml_element(parent, tag, text)`: text is set only when it is not empty. */
  function Leaf(tag: string, text: string): Element {
    Element(tag, [], text, [])
  }

  /** The text of an optional value: `None` sets no text. */
  function OptText(o: Option<string>): string {
    if o.Some? then o.value else ""
  }

  function Tags(es: seq<Element>): (r: seq<string>)
    ensures |r| == |es| && forall i :: 0 <= i < |es| ==> r[i] == es[i].tag
  {
    seq(|es|, i requires 0 <= i < |es| => es[i].tag)
  }

  /** `find(tag)`: the first of `es` with that tag. */
  function Find(es: seq<Element>, tag: string): (r: Option<Element>)
    ensures r.Some? ==> r.value in es && r.value.tag == tag
    ensures r.None? <==> forall i :: 0 <= i < |es| ==> es[i].tag != tag
  {
    if |es| == 0 then None
    else if es[0].tag == tag then Some(es[0])
    else Find(es[1..], tag)
  }

  /** The leaf an optional value gives, looked up by its tag. */
  function OptLeaf(tag: string, o: Option<string>): Option<Element> {
    if o.Some? then Some(Leaf(tag, o.value)) else None
  }

  /** Looking up in a concatenation: the first part is searched first. */
  lemma {:induction false} FindAppend(x: seq<Element>, y: seq<Element>, tag: string)
    ensures Find(x + y, tag) == if Find(x, tag).Some? then Find(x, tag) else Find(y, tag)
    decreases |x|
  {
    if |x| == 0 {
      assert x + y == y;
    } else {
      assert (x + y)[1..] == x[1..] + y;
      FindAppend(x[1..], y, tag);
    }
  }

  /** Looking up in an optional single element. */
  lemma FindOptional(present: bool, e: Element, tag: string)
    ensures Find(if present then [e] else [], tag) == if present && e.tag == tag then Some(e) else None
  {
    if present {
      assert [e][1..] == [];
    }
  }

  // ---------------------------------------------------------------------------
  // Metadata documents.
  // ---------------------------------------------------------------------------

  /** A file `<id>.yaml`: a loaded document (`None` when empty or null) or one that fails to load. */
  datatype MetadataFile = Loaded(document: Option<ControlMetadata>) | Unreadable

  /** `metadata_dir`: not given, or its files by control id. */
  type MetadataStore = Option<map<string, MetadataFile>>

  /** The exceptions that stop generation. */
  datatype GenerateError = LoadError(id: string) | InvalidMetadata(id: string, error: ValidationError)

  /** The document of control `id` that the generator uses: present, non-empty and valid. */
  function ValidatedMetadata(store: MetadataStore, id: string): Option<ControlMetadata> {
    if store.Some? && id in store.value && store.value[id].Loaded? && store.value[id].document.Some?
       && ValidateMetadata(store.value[id].document).Pass?
    then store.value[id].document
    else None
  }

  /** Whether the metadata of control `id` stops generation. */
  predicate MetadataError(store: MetadataStore, id: string) {
    store.Some? && id in store.value &&
    (store.value[id].Unreadable? ||
     (store.value[id].document.Some? && ValidateMetadata(store.value[id].document).Fail?))
  }

  /** The `remediation_scope` block: a `scope` leaf and an `entity_type` leaf, each when its key is present. */
  function RemediationScopeElement(d: RemediationData): Element {
    Element("remediation_scope", [], "",
            (if d.scope.Some? then [Leaf("scope", d.scope.value)] else []) +
            (if d.entityType.Some? then [Leaf("entity_type", d.entityType.value)] else []))
  }

  /** The `remediation_scope` block holds `scope` then `entity_type`, each exactly when its key is present, with its value. */
  lemma RemediationScopeFound(d: RemediationData)
    ensures var e := RemediationScopeElement(d);
            && e.tag == "remediation_scope" && e.attributes == [] && e.text == ""
            && Tags(e.children) == (if d.scope.Some? then ["scope"] else []) + (if d.entityType.Some? then ["entity_type"] else [])
            && Find(e.children, "scope") == OptLeaf("scope", d.scope)
            && Find(e.children, "entity_type") == OptLeaf("entity_type", d.entityType)
  {
    var sc := if d.scope.Some? then [Leaf("scope", d.scope.value)] else [];
    var et := if d.entityType.Some? then [Leaf("entity_type", d.entityType.value)] else [];
    FindAppend(sc, et, "scope");
    FindAppend(sc, et, "entity_type");
    FindOptional(d.scope.Some?, Leaf("scope", OptText(d.scope)), "scope");
    FindOptional(d.scope.Some?, Leaf("scope", OptText(d.scope)), "entity_type");
    FindOptional(d.entityType.Some?, Leaf("entity_type", OptText(d.entityType)), "scope");
    FindOptional(d.entityType.Some?, Leaf("entity_type", OptText(d.entityType)), "entity_type");
    assert Tags(sc + et) == Tags(sc) + Tags(et);
  }

  /** The `task` block: a `title_template` leaf when its key is present. */
  function TaskElement(t: TaskData): Element {
    Element("task", [], "", if t.titleTemplate.Some? then [Leaf("title_template", t.titleTemplate.value)] else [])
  }

  /** The `task` block holds `title_template` exactly when its key is present, with its value. */
  lemma TaskFound(t: TaskData)
    ensures var e := TaskElement(t);
            && e.tag == "task" && e.attributes == [] && e.text == ""
            && Tags(e.children) == (if t.titleTemplate.Some? then ["title_template"] else [])
            && Find(e.children, "title_template") == OptLeaf("title_template", t.titleTemplate)
  {
    FindOptional(t.titleTemplate.Some?, Leaf("title_template", OptText(t.titleTemplate)), "title_template");
  }

  /** The children a valid document adds: `risk_level`, `remediation_scope`, `task`, each when its key is present. */
  function MetadataElements(m: ControlMetadata): seq<Element> {
    (if m.riskLevel.Some? then [Leaf("risk_level", m.riskLevel.value)] else []) +
    (if m.remediation.Some? then [RemediationScopeElement(m.remediation.value)] else []) +
    (if m.task.Some? then [TaskElement(m.task.value)] else [])
  }

  /** A valid document's children come in the order of `MetadataTags`, each found with its value exactly when its key is present. */
  lemma MetadataElementsFound(m: ControlMetadata)
    ensures var r := MetadataElements(m);
            && Tags(r) == MetadataTags(Some(m))
            && Find(r, "risk_level") == OptLeaf("risk_level", m.riskLevel)
            && Find(r, "remediation_scope") == (if m.remediation.Some? then Some(RemediationScopeElement(m.remediation.value)) else None)
            && Find(r, "task") == (if m.task.Some? then Some(TaskElement(m.task.value)) else None)
  {
    var rl := if m.riskLevel.Some? then [Leaf("risk_level", m.riskLevel.value)] else [];
    var rs := if m.remediation.Some? then [RemediationScopeElement(m.remediation.value)] else [];
    var tk := if m.task.Some? then [TaskElement(m.task.value)] else [];
    assert Tags(rl) == if m.riskLevel.Some? then ["risk_level"] else [];
    assert Tags(rs) == if m.remediation.Some? then ["remediation_scope"] else [];
    assert Tags(tk) == if m.task.Some? then ["task"] else [];
    assert Tags(rl + rs + tk) == Tags(rl) + Tags(rs) + Tags(tk);
    MetadataFind(m, rl, rs, tk, "risk_level");
    MetadataFind(m, rl, rs, tk, "remediation_scope");
    MetadataFind(m, rl, rs, tk, "task");
  }

  /** Looking up one tag among the three optional blocks, whose tags differ. */
  lemma MetadataFind(m: ControlMetadata, rl: seq<Element>, rs: seq<Element>, tk: seq<Element>, tag: string)
    requires rl == if m.riskLevel.Some? then [Leaf("risk_level", m.riskLevel.value)] else []
    requires rs == if m.remediation.Some? then [RemediationScopeElement(m.remediation.value)] else []
    requires tk == if m.task.Some? then [TaskElement(m.task.value)] else []
    ensures tag == "risk_level" ==> Find(rl + rs + tk, tag) == OptLeaf("risk_level", m.riskLevel)
    ensures tag == "remediation_scope" ==>
              Find(rl + rs + tk, tag) == if m.remediation.Some? then Some(RemediationScopeElement(m.remediation.value)) else None
    ensures tag == "task" ==> Find(rl + rs + tk, tag) == if m.task.Some? then Some(TaskElement(m.task.value)) else None
  {
    FindAppend(rl + rs, tk, tag);
    FindAppend(rl, rs, tag);
    FindOptional(m.riskLevel.Some?, Leaf("risk_level", OptText(m.riskLevel)), tag);
    if m.remediation.Some? {
      FindOptional(true, RemediationScopeElement(m.remediation.value), tag);
    }
    if m.task.Some? {
      FindOptional(true, TaskElement(m.task.value), tag);
    }
  }

  /** The tags of the bracketed children, in order, for the document in use (none without one). */
  function MetadataTags(md: Option<ControlMetadata>): seq<string> {
    if md.None? then []
    else
      (if md.value.riskLevel.Some? then ["risk_level"] else []) +
      (if md.value.remediation.Some? then ["remediation_scope"] else []) +
      (if md.value.task.Some? then ["task"] else [])
  }

  /**
   * The metadata part of a control: nothing without a metadata directory,
   * a file or a non-empty document; a load error or a failed validation
   * stops generation; a valid document adds its children.
   */
  function MetadataFor(store: MetadataStore, id: string): (r: Result<seq<Element>, GenerateError>)
    ensures r.Failure? <==> MetadataError(store, id)
    ensures r.Failure? ==> r.error.id == id
  {
    if store.None? || id !in store.value then Success([])
    else
      match store.value[id]
      case Unreadable => Failure(LoadError(id))
      case Loaded(None) => Success([])
      case Loaded(Some(m)) =>
        match ValidateMetadata(Some(m))
        case Fail(e) => Failure(InvalidMetadata(id, e))
        case Pass => Success(MetadataElements(m))
  }

  /**
   * Which error a control's metadata raises, and what it adds otherwise: a
   * file that cannot be loaded gives `LoadError`, a document that fails
   * validation gives `InvalidMetadata` with a rule it breaks; a success adds
   * the children of the validated document, in the order of `MetadataTags`.
   */
  lemma MetadataForResult(store: MetadataStore, id: string)
    ensures var r := MetadataFor(store, id);
            && (r.Failure? ==> store.Some? && id in store.value)
            && (r.Failure? && store.value[id].Unreadable? ==> r.error == LoadError(id))
            && (r.Failure? && store.value[id].Loaded? ==>
                  store.value[id].document.Some? && r.error.InvalidMetadata? &&
                  Breaks(store.value[id].document.value, r.error.error))
            && (r.Success? ==> Tags(r.value) == MetadataTags(ValidatedMetadata(store, id)))
            && (r.Success? ==> r.value == if ValidatedMetadata(store, id).Some? then MetadataElements(ValidatedMetadata(store, id).value) else [])
  {
    if ValidatedMetadata(store, id).Some? {
      MetadataElementsFound(ValidatedMetadata(store, id).value);
    }
  }

  // ---------------------------------------------------------------------------
  // One control.
  // ---------------------------------------------------------------------------

  /** `control.get(key, '')` for a field. */
  function FieldOf(c: Control, f: Field): string {
    if f in c.fields then c.fields[f] else ""
  }

  const FixedTags: seq<string> := ["title", "statement", "description", "risk", "audit_procedure", "remediation"]

  /** The `control` element, or the error its metadata raises. */
  function ControlElement(c: Control, store: MetadataStore): (r: Result<Element, GenerateError>)
    ensures r.Failure? <==> MetadataError(store, c.id)
    ensures r.Failure? ==> r.error.id == c.id
  {
    match MetadataFor(store, c.id)
    case Failure(e) => Failure(e)
    case Success(extra) =>
      Success(Element("control", [("id", c.id)], "", ControlChildren(c, extra)))
  }

  /** The texts of the six fixed children: the title, the fields, and the risk stripped of badge markup. */
  function FixedTexts(c: Control): seq<string> {
    [c.title, FieldOf(c, Statement), FieldOf(c, Description), StripBadgeMarkup(FieldOf(c, Risk)),
     FieldOf(c, AuditProcedure), FieldOf(c, Remediation)]
  }

  /** One leaf per tag, with the text at the same position. */
  function Leaves(tags: seq<string>, texts: seq<string>): (r: seq<Element>)
    requires |tags| == |texts|
    ensures |r| == |tags| && forall k :: 0 <= k < |r| ==> r[k] == Leaf(tags[k], texts[k])
  {
    seq(|tags|, k requires 0 <= k < |tags| => Leaf(tags[k], texts[k]))
  }

  /** The children of a control element around its metadata part `extra`. */
  function ControlChildren(c: Control, extra: seq<Element>): seq<Element> {
    Leaves(FixedTags, FixedTexts(c)) + extra + [Leaf("default_value", FieldOf(c, DefaultValue))]
  }

  /** The six fixed leaves, then the metadata part, then `default_value`. */
  lemma Splice(texts: seq<string>, extra: seq<Element>, dv: string)
    requires |texts| == |FixedTags|
    ensures var es := Leaves(FixedTags, texts) + extra + [Leaf("default_value", dv)];
            && Tags(es) == FixedTags + Tags(extra) + ["default_value"]
            && (forall k :: 0 <= k < |FixedTags| ==> es[k] == Leaf(FixedTags[k], texts[k]))
            && es[|FixedTags|..|es| - 1] == extra
            && es[|es| - 1] == Leaf("default_value", dv)
  {
    var fixed := Leaves(FixedTags, texts);
    var es := fixed + extra + [Leaf("default_value", dv)];
    assert es[|FixedTags|..|es| - 1] == extra;
    assert Tags(fixed) == FixedTags;
    assert Tags(es) == Tags(fixed) + Tags(extra) + Tags([Leaf("default_value", dv)]);
  }

  /** The children of a control: its fixed texts in order, the metadata part, its default value last. */
  lemma ChildrenLayout(c: Control, extra: seq<Element>)
    ensures var es := ControlChildren(c, extra);
            && Tags(es) == FixedTags + Tags(extra) + ["default_value"]
            && (forall k :: 0 <= k < 6 ==> es[k].text == FixedTexts(c)[k])
            && es[6..|es| - 1] == extra
            && es[|es| - 1].text == FieldOf(c, DefaultValue)
  {
    Splice(FixedTexts(c), extra, FieldOf(c, DefaultValue));
  }

  /**
   * The children of a control element come in the fixed order and carry the
   * control's title and field texts (`FixedTexts`: the risk text stripped of
   * badge markup); the metadata children, exactly those `MetadataFor` gives,
   * sit between `remediation` and `default_value`, and exist only for a
   * document that exists and passed validation.
   */
  lemma ControlChildOrder(c: Control, store: MetadataStore)
    requires ControlElement(c, store).Success?
    ensures var e := ControlElement(c, store).value;
            && e.tag == "control" && e.attributes == [("id", c.id)]
            && Tags(e.children) == FixedTags + MetadataTags(ValidatedMetadata(store, c.id)) + ["default_value"]
            && (forall k :: 0 <= k < 6 ==> e.children[k].text == FixedTexts(c)[k])
            && e.children[6..|e.children| - 1] == MetadataFor(store, c.id).value
            && e.children[|e.children| - 1].text == FieldOf(c, DefaultValue)
  {
    MetadataForResult(store, c.id);
    ChildrenLayout(c, MetadataFor(store, c.id).value);
  }

  // ---------------------------------------------------------------------------
  // Stopping at the first error.
  // ---------------------------------------------------------------------------

  /** The values of `rs` in order, or the first error among them. */
  function Collect<T>(rs: seq<Result<T, GenerateError>>): (r: Result<seq<T>, GenerateError>)
    ensures r.Success? <==> forall p :: 0 <= p < |rs| ==> rs[p].Success?
    ensures r.Success? ==> |r.value| == |rs| && forall p :: 0 <= p < |rs| ==> rs[p] == Success(r.value[p])
  {
    if |rs| == 0 then Success([])
    else
      match Collect(rs[..|rs| - 1])
      case Failure(e) => Failure(e)
      case Success(vs) =>
        match rs[|rs| - 1]
        case Failure(e) => Failure(e)
        case Success(v) => Success(vs + [v])
  }

  /** The error reported is that of the first failing entry. */
  lemma {:induction false} CollectFirstError<T>(rs: seq<Result<T, GenerateError>>)
    requires Collect(rs).Failure?
    ensures exists p :: 0 <= p < |rs| && rs[p] == Failure(Collect(rs).error) &&
                        forall q :: 0 <= q < p ==> rs[q].Success?
  {
    var init := rs[..|rs| - 1];
    var last := |rs| - 1;
    if Collect(init).Failure? {
      assert Collect(rs) == Collect(init);
      CollectFirstError(init);
      var p :| 0 <= p < |init| && init[p] == Failure(Collect(init).error) &&
                forall q :: 0 <= q < p ==> init[q].Success?;
      assert rs[p] == init[p];
      forall q | 0 <= q < p ensures rs[q].Success? {
        assert rs[q] == init[q];
      }
    } else {
      assert Collect(rs) == Failure(rs[last].error);
      forall q | 0 <= q < last ensures rs[q].Success? {
        assert rs[q] == init[q];
      }
      assert rs[last] == Failure(Collect(rs).error);
    }
  }

  /** Once a prefix fails, so does every extension, with the same error. */
  lemma {:induction false} CollectStops<T>(rs: seq<Result<T, GenerateError>>, j: nat)
    requires j <= |rs| && Collect(rs[..j]).Failure?
    ensures Collect(rs) == Collect(rs[..j])
    decreases |rs| - j
  {
    if j < |rs| {
      assert rs[..j + 1][..j] == rs[..j];
      CollectStops(rs, j + 1);
    } else {
      assert rs[..j] == rs;
    }
  }

  /** One more entry after a successful prefix. */
  lemma CollectStep<T>(rs: seq<Result<T, GenerateError>>, j: nat, vs: seq<T>)
    requires j < |rs| && Collect(rs[..j]) == Success(vs)
    ensures rs[j].Failure? ==> Collect(rs[..j + 1]) == Failure(rs[j].error)
    ensures rs[j].Success? ==> Collect(rs[..j + 1]) == Success(vs + [rs[j].value])
  {
    assert rs[..j + 1][..j] == rs[..j];
  }

  // ---------------------------------------------------------------------------
  // Grouping.
  // ---------------------------------------------------------------------------

  /** The distinct categories of `controls`, each where it is first seen. */
  function FirstSeen(controls: seq<Control>): (keys: seq<Option<string>>)
    ensures forall m, n :: 0 <= m < n < |keys| ==> keys[m] != keys[n]
  {
    if |controls| == 0 then []
    else
      var keys := FirstSeen(controls[..|controls| - 1]);
      var k := controls[|controls| - 1].category;
      if k in keys then keys else keys + [k]
  }

  /** The keys are exactly the categories that occur. */
  lemma {:induction false} SeenKeys(controls: seq<Control>)
    ensures forall k :: k in FirstSeen(controls) <==> exists i :: 0 <= i < |controls| && controls[i].category == k
  {
    if |controls| > 0 {
      var init := controls[..|controls| - 1];
      SeenKeys(init);
      assert forall i :: 0 <= i < |init| ==> init[i] == controls[i];
    }
  }

  /** The controls of category `k`, in input order. */
  function Members(controls: seq<Control>, k: Option<string>): (r: seq<Control>)
    ensures forall j :: 0 <= j < |r| ==> r[j].category == k
  {
    if |controls| == 0 then []
    else
      var last := controls[|controls| - 1];
      Members(controls[..|controls| - 1], k) + (if last.category == k then [last] else [])
  }

  /** A group holds only controls of the input. */
  lemma {:induction false} MembersFrom(controls: seq<Control>, k: Option<string>)
    ensures forall j :: 0 <= j < |Members(controls, k)| ==> Members(controls, k)[j] in controls
  {
    if |controls| > 0 {
      var init := controls[..|controls| - 1];
      MembersFrom(init, k);
      forall j | 0 <= j < |Members(init, k)| ensures Members(init, k)[j] in controls {
        var i :| 0 <= i < |init| && init[i] == Members(init, k)[j];
        assert controls[i] == init[i];
      }
    }
  }

  /** One more control: its category is added at the end unless it was seen already. */
  lemma FirstSeenStep(controls: seq<Control>, i: nat)
    requires i < |controls|
    ensures var keys := FirstSeen(controls[..i]);
            FirstSeen(controls[..i + 1]) ==
              if controls[i].category in keys then keys else keys + [controls[i].category]
  {
    assert controls[..i + 1][..i] == controls[..i];
  }

  /** One more control: it joins the end of its own group and no other. */
  lemma MembersStep(controls: seq<Control>, i: nat, k: Option<string>)
    requires i < |controls|
    ensures Members(controls[..i + 1], k) ==
              Members(controls[..i], k) + (if controls[i].category == k then [controls[i]] else [])
  {
    assert controls[..i + 1][..i] == controls[..i];
  }

  /**
   * The loop of `generate_xml` that fills the `categories` dict: the keys in
   * insertion order, and the list each key holds.
   */
  method GroupByCategory(controls: seq<Control>) returns (keys: seq<Option<string>>, groups: map<Option<string>, seq<Control>>)
    ensures keys == FirstSeen(controls)
    ensures forall k :: k in groups <==> k in keys
    ensures forall k :: k in groups ==> groups[k] == Members(controls, k)
  {
    keys := [];
    groups := map[];
    var i := 0;
    while i < |controls|
      invariant i <= |controls|
      invariant keys == FirstSeen(controls[..i])
      invariant forall k :: k in groups <==> k in keys
      invariant forall k :: k in groups ==> groups[k] == Members(controls[..i], k)
    {
      FirstSeenStep(controls, i);
      forall k ensures Members(controls[..i + 1], k) ==
                         Members(controls[..i], k) + (if controls[i].category == k then [controls[i]] else []) {
        MembersStep(controls, i, k);
      }
      var cat := controls[i].category;
      if cat !in groups {
        SeenKeys(controls[..i]);
        MembersAbsent(controls[..i], cat);
        keys := keys + [cat];
        groups := groups[cat := []];
      }
      groups := groups[cat := groups[cat] + [controls[i]]];
      i := i + 1;
    }
    assert controls[..i] == controls;
  }

  /** Whether `k1` occurs before the first occurrence of `k2`. */
  predicate SeenBefore(controls: seq<Control>, k1: Option<string>, k2: Option<string>) {
    exists i :: 0 <= i < |controls| && controls[i].category == k1 &&
                forall j :: 0 <= j <= i ==> controls[j].category != k2
  }

  /** The groups come in the order their categories are first seen. */
  lemma {:induction false} FirstSeenOrder(controls: seq<Control>)
    ensures forall m, n :: 0 <= m < n < |FirstSeen(controls)| ==>
              SeenBefore(controls, FirstSeen(controls)[m], FirstSeen(controls)[n])
    decreases |controls|
  {
    if |controls| > 0 {
      var init := controls[..|controls| - 1];
      var old_keys := FirstSeen(init);
      var keys := FirstSeen(controls);
      FirstSeenOrder(init);
      SeenKeys(init);
      forall m, n | 0 <= m < n < |keys| ensures SeenBefore(controls, keys[m], keys[n]) {
        if n < |old_keys| {
          assert SeenBefore(init, old_keys[m], old_keys[n]);
          var i :| 0 <= i < |init| && init[i].category == old_keys[m] &&
                   forall j :: 0 <= j <= i ==> init[j].category != old_keys[n];
          assert controls[i] == init[i];
        } else {
          assert keys[m] in old_keys;
          var i :| 0 <= i < |init| && init[i].category == keys[m];
          assert keys[n] !in old_keys;
          assert controls[i] == init[i];
          forall j | 0 <= j <= i ensures controls[j].category != keys[n] {
            assert controls[j] == init[j];
          }
        }
      }
    }
  }

  /** Sizes of the groups of `keys`. */
  function GroupSizes(controls: seq<Control>, keys: seq<Option<string>>): nat {
    if |keys| == 0 then 0 else |Members(controls, keys[0])| + GroupSizes(controls, keys[1..])
  }

  lemma {:induction false} MembersAbsent(controls: seq<Control>, k: Option<string>)
    requires forall i :: 0 <= i < |controls| ==> controls[i].category != k
    ensures Members(controls, k) == []
  {
    if |controls| > 0 {
      var init := controls[..|controls| - 1];
      assert forall i :: 0 <= i < |init| ==> init[i] == controls[i];
      MembersAbsent(init, k);
    }
  }

  /** Adding one control to the input adds one to the group of its category and changes no other. */
  lemma {:induction false} GroupSizesStep(controls: seq<Control>, keys: seq<Option<string>>)
    requires |controls| > 0
    requires forall m, n :: 0 <= m < n < |keys| ==> keys[m] != keys[n]
    ensures GroupSizes(controls, keys) ==
            GroupSizes(controls[..|controls| - 1], keys) + (if controls[|controls| - 1].category in keys then 1 else 0)
  {
    if |keys| > 0 {
      GroupSizesStep(controls, keys[1..]);
      assert keys[1..] + [] == keys[1..];
      if controls[|controls| - 1].category == keys[0] {
        assert controls[|controls| - 1].category !in keys[1..];
      }
    }
  }

  lemma {:induction false} GroupSizesAppend(controls: seq<Control>, keys: seq<Option<string>>, k: Option<string>)
    ensures GroupSizes(controls, keys + [k]) == GroupSizes(controls, keys) + |Members(controls, k)|
  {
    if |keys| > 0 {
      assert (keys + [k])[1..] == keys[1..] + [k];
      GroupSizesAppend(controls, keys[1..], k);
    }
  }

  /** The groups hold every control exactly once: their sizes add up to the number of controls. */
  lemma {:induction false} GroupsPartition(controls: seq<Control>)
    ensures GroupSizes(controls, FirstSeen(controls)) == |controls|
  {
    if |controls| > 0 {
      var init := controls[..|controls| - 1];
      var keys := FirstSeen(init);
      var k := controls[|controls| - 1].category;
      GroupsPartition(init);
      if k in keys {
        GroupSizesStep(controls, keys);
      } else {
        GroupSizesStep(controls, keys);
        GroupSizesAppend(controls, keys, k);
        SeenKeys(init);
        MembersAbsent(init, k);
      }
    }
  }

  /** Every control is in the group of its category. */
  lemma {:induction false} InOwnGroup(controls: seq<Control>, i: nat)
    requires i < |controls|
    ensures controls[i] in Members(controls, controls[i].category)
  {
    var init := controls[..|controls| - 1];
    if i < |controls| - 1 {
      assert init[i] == controls[i];
      InOwnGroup(init, i);
    }
  }

  /** Every control's category is among the keys. */
  lemma {:induction false} OwnKeySeen(controls: seq<Control>, i: nat)
    requires i < |controls|
    ensures controls[i].category in FirstSeen(controls)
  {
    var init := controls[..|controls| - 1];
    if i < |controls| - 1 {
      assert init[i] == controls[i];
      OwnKeySeen(init, i);
    }
  }

  /** Every key has a non-empty group. */
  lemma {:induction false} KeyHasMembers(controls: seq<Control>, k: Option<string>)
    requires k in FirstSeen(controls)
    ensures |Members(controls, k)| > 0
  {
    var init := controls[..|controls| - 1];
    if k in FirstSeen(init) {
      KeyHasMembers(init, k);
    }
  }

  // ---------------------------------------------------------------------------
  // Categories and the document.
  // ---------------------------------------------------------------------------

  /** The `description` of a category: from its first control, and only when that one is not empty. */
  function CategoryDescription(members: seq<Control>): (r: seq<Element>)
    ensures |r| <= 1
    ensures r != [] <==> |members| > 0 && members[0].categoryDescription.Some? && members[0].categoryDescription.value != ""
    ensures r != [] ==> r[0] == Leaf("description", members[0].categoryDescription.value)
  {
    if |members| > 0 && members[0].categoryDescription.Some? && members[0].categoryDescription.value != "" then
      [Leaf("description", members[0].categoryDescription.value)]
    else []
  }

  function ControlResults(members: seq<Control>, store: MetadataStore): seq<Result<Element, GenerateError>> {
    seq(|members|, p requires 0 <= p < |members| => ControlElement(members[p], store))
  }

  /** The `category` element of the group `k`. */
  function CategoryElement(k: Option<string>, members: seq<Control>, store: MetadataStore): Result<Element, GenerateError> {
    match Collect(ControlResults(members, store))
    case Failure(e) => Failure(e)
    case Success(es) => Success(Element("category", [], "", [Leaf("name", OptText(k))] + CategoryDescription(members) + es))
  }

  function CategoryResults(keys: seq<Option<string>>, controls: seq<Control>, store: MetadataStore): seq<Result<Element, GenerateError>> {
    seq(|keys|, m requires 0 <= m < |keys| => CategoryElement(keys[m], Members(controls, keys[m]), store))
  }

  /** The tree `generate_xml` returns, or the error it raises. */
  function Generate(controls: seq<Control>, version: string, store: MetadataStore): Result<Element, GenerateError> {
    match Collect(CategoryResults(FirstSeen(controls), controls, store))
    case Failure(e) => Failure(e)
    case Success(cats) =>
      Success(Element("sbs_benchmark", [("version", version), ("xmlns", Namespace)], "",
                      [Element("metadata", [], "", [Leaf("title", BenchmarkTitle), Leaf("version", version),
                                                   Leaf("total_controls", NatToString(|controls|))]),
                       Element("controls", [], "", cats)]))
  }

  /** The loop over one category's controls. */
  method EmitCategory(k: Option<string>, members: seq<Control>, store: MetadataStore) returns (r: Result<Element, GenerateError>)
    ensures r == CategoryElement(k, members, store)
  {
    ghost var rs := ControlResults(members, store);
    var elems: seq<Element> := [];
    var p := 0;
    while p < |members|
      invariant p <= |members|
      invariant Collect(rs[..p]) == Success(elems)
    {
      var e := ControlElement(members[p], store);
      CollectStep(rs, p, elems);
      if e.Failure? {
        CollectStops(rs, p + 1);
        return Failure(e.error);
      }
      elems := elems + [e.value];
      p := p + 1;
    }
    assert rs[..p] == rs;
    r := Success(Element("category", [], "", [Leaf("name", OptText(k))] + CategoryDescription(members) + elems));
  }

  /** `generate_xml(controls, version, metadata_dir)`: the tree, or the first error raised. */
  method GenerateXml(controls: seq<Control>, version: string, store: MetadataStore) returns (r: Result<Element, GenerateError>)
    ensures r == Generate(controls, version, store)
  {
    var keys, groups := GroupByCategory(controls);
    ghost var rs := CategoryResults(keys, controls, store);
    var cats: seq<Element> := [];
    var j := 0;
    while j < |keys|
      invariant j <= |keys|
      invariant Collect(rs[..j]) == Success(cats)
    {
      var cat := EmitCategory(keys[j], groups[keys[j]], store);
      CollectStep(rs, j, cats);
      if cat.Failure? {
        CollectStops(rs, j + 1);
        return Failure(cat.error);
      }
      cats := cats + [cat.value];
      j := j + 1;
    }
    assert rs[..j] == rs;
    r := Success(Element("sbs_benchmark", [("version", version), ("xmlns", Namespace)], "",
                         [Element("metadata", [], "", [Leaf("title", BenchmarkTitle), Leaf("version", version),
                                                      Leaf("total_controls", NatToString(|controls|))]),
                          Element("controls", [], "", cats)]));
  }

  // ---------------------------------------------------------------------------
  // What the tree says.
  // ---------------------------------------------------------------------------

  /** The root carries the version and namespace; `total_controls` spells the number of controls. */
  lemma TotalControls(controls: seq<Control>, version: string, store: MetadataStore)
    requires Generate(controls, version, store).Success?
    ensures var root := Generate(controls, version, store).value;
            && root.tag == "sbs_benchmark" && root.attributes == [("version", version), ("xmlns", Namespace)]
            && Tags(root.children) == ["metadata", "controls"]
            && Tags(root.children[0].children) == ["title", "version", "total_controls"]
            && root.children[0].children[0] == Leaf("title", BenchmarkTitle)
            && root.children[0].children[1] == Leaf("version", version)
            && DecimalValue(root.children[0].children[2].text) == |controls|
  {
  }

  /**
   * A `category` element: its name, the description of its first control
   * when that is not empty, then the elements of its controls in order.
   */
  lemma CategoryShape(k: Option<string>, members: seq<Control>, store: MetadataStore)
    requires |members| > 0 && CategoryElement(k, members, store).Success?
    ensures var cat := CategoryElement(k, members, store).value;
            var d := CategoryDescription(members);
            && cat.tag == "category"
            && cat.children[0] == Leaf("name", OptText(k))
            && (cat.children[1].tag == "description" <==>
                  members[0].categoryDescription.Some? && members[0].categoryDescription.value != "")
            && (d != [] ==> cat.children[1] == Leaf("description", members[0].categoryDescription.value))
            && |cat.children| == 1 + |d| + |members|
            && forall p :: 0 <= p < |members| ==> ControlElement(members[p], store) == Success(cat.children[1 + |d| + p])
  {
    var rs := ControlResults(members, store);
    var es := Collect(rs).value;
    var d := CategoryDescription(members);
    forall p | 0 <= p < |members| ensures ControlElement(members[p], store) == Success(es[p]) {
      assert rs[p] == ControlElement(members[p], store);
    }
    ControlTag(members[0], store);
    CategorySplice(CategoryElement(k, members, store).value, Leaf("name", OptText(k)), d, es,
                   members[0].categoryDescription.Some? && members[0].categoryDescription.value != "",
                   OptText(members[0].categoryDescription));
  }

  /** A control's element is tagged `control`. */
  lemma ControlTag(c: Control, store: MetadataStore)
    requires ControlElement(c, store).Success?
    ensures ControlElement(c, store).value.tag == "control"
  {
  }

  /**
   * The children of a `category` element: the name, the description when
   * there is one, then the control elements, which are not descriptions.
   */
  lemma CategorySplice(cat: Element, name: Element, d: seq<Element>, es: seq<Element>, hasDescription: bool, text: string)
    requires cat.children == [name] + d + es
    requires |d| <= 1 && (d != [] <==> hasDescription) && (d != [] ==> d[0] == Leaf("description", text))
    requires |es| > 0 && es[0].tag == "control"
    ensures |cat.children| == 1 + |d| + |es| && cat.children[0] == name
    ensures cat.children[1].tag == "description" <==> hasDescription
    ensures hasDescription ==> cat.children[1] == Leaf("description", text)
    ensures forall p :: 0 <= p < |es| ==> cat.children[1 + |d| + p] == es[p]
  {
  }

  /**
   * One `category` element per distinct category, in first-seen order,
   * built from the group of that category.
   */
  lemma CategoryLayout(controls: seq<Control>, version: string, store: MetadataStore)
    requires Generate(controls, version, store).Success?
    ensures var keys := FirstSeen(controls);
            var cats := Generate(controls, version, store).value.children[1].children;
            && |cats| == |keys|
            && forall m :: 0 <= m < |keys| ==>
                 && |Members(controls, keys[m])| > 0
                 && CategoryElement(keys[m], Members(controls, keys[m]), store) == Success(cats[m])
  {
    var keys := FirstSeen(controls);
    var rs := CategoryResults(keys, controls, store);
    forall m | 0 <= m < |keys| ensures |Members(controls, keys[m])| > 0 {
      KeyHasMembers(controls, keys[m]);
    }
    forall m | 0 <= m < |keys| ensures rs[m] == CategoryElement(keys[m], Members(controls, keys[m]), store) {
    }
  }

  /** Generation fails exactly when some control's metadata fails to load or to validate. */
  lemma GenerateFails(controls: seq<Control>, version: string, store: MetadataStore)
    ensures Generate(controls, version, store).Failure? <==>
            exists i :: 0 <= i < |controls| && MetadataError(store, controls[i].id)
  {
    var keys := FirstSeen(controls);
    var rs := CategoryResults(keys, controls, store);
    if exists i :: 0 <= i < |controls| && MetadataError(store, controls[i].id) {
      var i :| 0 <= i < |controls| && MetadataError(store, controls[i].id);
      var k := controls[i].category;
      OwnKeySeen(controls, i);
      var m :| 0 <= m < |keys| && keys[m] == k;
      var members := Members(controls, k);
      InOwnGroup(controls, i);
      var p :| 0 <= p < |members| && members[p] == controls[i];
      assert ControlResults(members, store)[p].Failure?;
      assert rs[m].Failure?;
    } else {
      forall m | 0 <= m < |keys| ensures rs[m].Success? {
        var members := Members(controls, keys[m]);
        MembersFrom(controls, keys[m]);
        forall p | 0 <= p < |members| ensures ControlResults(members, store)[p].Success? {
          var i :| 0 <= i < |controls| && controls[i] == members[p];
          assert !MetadataError(store, controls[i].id);
        }
      }
    }
  }

  /**
   * The first control in emission order whose metadata stops generation:
   * member `p` of the group of the `m`-th key, with no failing member before
   * it in that group and none in an earlier group.
   */
  predicate FirstFailing(controls: seq<Control>, store: MetadataStore, m: nat, p: nat) {
    var keys := FirstSeen(controls);
    && m < |keys| && p < |Members(controls, keys[m])|
    && MetadataError(store, Members(controls, keys[m])[p].id)
    && (forall q :: 0 <= q < p ==> !MetadataError(store, Members(controls, keys[m])[q].id))
    && (forall n, q :: 0 <= n < m && 0 <= q < |Members(controls, keys[n])| ==>
          !MetadataError(store, Members(controls, keys[n])[q].id))
  }

  /** A category stops at its first control whose metadata fails, with that control's error. */
  lemma CategoryFirstError(k: Option<string>, members: seq<Control>, store: MetadataStore)
    requires CategoryElement(k, members, store).Failure?
    ensures exists p :: 0 <= p < |members| && MetadataError(store, members[p].id) &&
                        CategoryElement(k, members, store).error == MetadataFor(store, members[p].id).error &&
                        forall q :: 0 <= q < p ==> !MetadataError(store, members[q].id)
  {
    var rs := ControlResults(members, store);
    CollectFirstError(rs);
    var p :| 0 <= p < |rs| && rs[p] == Failure(Collect(rs).error) && forall q :: 0 <= q < p ==> rs[q].Success?;
    assert rs[p] == ControlElement(members[p], store);
    forall q | 0 <= q < p ensures !MetadataError(store, members[q].id) {
      assert rs[q] == ControlElement(members[q], store);
    }
  }

  /** A category that is emitted has no control whose metadata fails. */
  lemma CategoryClean(k: Option<string>, members: seq<Control>, store: MetadataStore)
    requires CategoryElement(k, members, store).Success?
    ensures forall q :: 0 <= q < |members| ==> !MetadataError(store, members[q].id)
  {
    forall q | 0 <= q < |members| ensures !MetadataError(store, members[q].id) {
      assert ControlResults(members, store)[q] == ControlElement(members[q], store);
    }
  }

  /**
   * The error generation raises is the load or validation error of the
   * first failing control in emission order: groups in first-seen order,
   * each group's controls in input order.
   */
  lemma GenerateFirstError(controls: seq<Control>, version: string, store: MetadataStore)
    requires Generate(controls, version, store).Failure?
    ensures exists m: nat, p: nat :: FirstFailing(controls, store, m, p) &&
              Generate(controls, version, store).error == MetadataFor(store, Members(controls, FirstSeen(controls)[m])[p].id).error
  {
    var keys := FirstSeen(controls);
    var rs := CategoryResults(keys, controls, store);
    CollectFirstError(rs);
    var m :| 0 <= m < |rs| && rs[m] == Failure(Collect(rs).error) && forall n :: 0 <= n < m ==> rs[n].Success?;
    var members := Members(controls, keys[m]);
    assert rs[m] == CategoryElement(keys[m], members, store);
    CategoryFirstError(keys[m], members, store);
    var p :| 0 <= p < |members| && MetadataError(store, members[p].id) &&
             CategoryElement(keys[m], members, store).error == MetadataFor(store, members[p].id).error &&
             forall q :: 0 <= q < p ==> !MetadataError(store, members[q].id);
    forall n | 0 <= n < m ensures forall q :: 0 <= q < |Members(controls, keys[n])| ==> !MetadataError(store, Members(controls, keys[n])[q].id) {
      assert rs[n] == CategoryElement(keys[n], Members(controls, keys[n]), store);
      CategoryClean(keys[n], Members(controls, keys[n]), store);
    }
    assert FirstFailing(controls, store, m, p);
  }

  /** A tag outside the fixed ones is looked up in the metadata part. */
  lemma FindPastFixed(texts: seq<string>, extra: seq<Element>, dv: string, tag: string)
    requires |texts| == |FixedTags| && tag !in FixedTags && tag != "default_value"
    ensures Find(Leaves(FixedTags, texts) + extra + [Leaf("default_value", dv)], tag) == Find(extra, tag)
  {
    var fixed := Leaves(FixedTags, texts);
    FindAppend(fixed + extra, [Leaf("default_value", dv)], tag);
    FindAppend(fixed, extra, tag);
    assert forall k :: 0 <= k < |fixed| ==> fixed[k].tag == FixedTags[k];
    FindOptional(true, Leaf("default_value", dv), tag);
  }

  /**
   * What a control element says about its metadata: `risk_level`,
   * `remediation_scope` and `task` are found exactly for the keys of a
   * document in use, with the document's values, and never without one.
   */
  lemma MetadataEmitted(c: Control, store: MetadataStore)
    requires ControlElement(c, store).Success?
    ensures var e := ControlElement(c, store).value;
            var md := ValidatedMetadata(store, c.id);
            && Find(e.children, "risk_level") == (if md.Some? then OptLeaf("risk_level", md.value.riskLevel) else None)
            && Find(e.children, "remediation_scope") ==
                 (if md.Some? && md.value.remediation.Some? then Some(RemediationScopeElement(md.value.remediation.value)) else None)
            && Find(e.children, "task") ==
                 (if md.Some? && md.value.task.Some? then Some(TaskElement(md.value.task.value)) else None)
  {
    MetadataForResult(store, c.id);
    MetadataPart(FixedTexts(c), MetadataFor(store, c.id).value, FieldOf(c, DefaultValue), ValidatedMetadata(store, c.id));
  }

  /** Children built around the metadata part of `md` find its blocks exactly as that part does. */
  lemma MetadataPart(texts: seq<string>, extra: seq<Element>, dv: string, md: Option<ControlMetadata>)
    requires |texts| == |FixedTags|
    requires extra == if md.Some? then MetadataElements(md.value) else []
    ensures var cs := Leaves(FixedTags, texts) + extra + [Leaf("default_value", dv)];
            && Find(cs, "risk_level") == (if md.Some? then OptLeaf("risk_level", md.value.riskLevel) else None)
            && Find(cs, "remediation_scope") ==
                 (if md.Some? && md.value.remediation.Some? then Some(RemediationScopeElement(md.value.remediation.value)) else None)
            && Find(cs, "task") ==
                 (if md.Some? && md.value.task.Some? then Some(TaskElement(md.value.task.value)) else None)
  {
    FindPastFixed(texts, extra, dv, "risk_level");
    FindPastFixed(texts, extra, dv, "remediation_scope");
    FindPastFixed(texts, extra, dv, "task");
    if md.Some? {
      MetadataElementsFound(md.value);
    }
  }

  /**
   * A valid document with `remediation.entity_type` puts that value in an
   * `entity_type` leaf of the control's `remediation_scope` block; validation
   * has made sure that a scope beside it is `entity`.
   */
  lemma EntityTypeEmitted(c: Control, store: MetadataStore)
    requires ValidatedMetadata(store, c.id).Some? && EntityTypeOf(ValidatedMetadata(store, c.id).value).Some?
    ensures ControlElement(c, store).Success?
    ensures var m := ValidatedMetadata(store, c.id).value;
            var scope := RemediationScopeElement(m.remediation.value);
            && Find(ControlElement(c, store).value.children, "remediation_scope") == Some(scope)
            && Find(scope.children, "entity_type") == Some(Leaf("entity_type", EntityTypeOf(m).value))
            && (ScopeOf(m).Some? ==> Find(scope.children, "scope") == Some(Leaf("scope", "entity")))
  {
    var m := ValidatedMetadata(store, c.id).value;
    AcceptedShape(m);
    MetadataEmitted(c, store);
    RemediationScopeFound(m.remediation.value);
  }

  /** Without a metadata directory a control has exactly its seven fixed children, whatever its id. */
  lemma NoMetadataSevenChildren(c: Control)
    ensures ControlElement(c, None).Success?
    ensures Tags(ControlElement(c, None).value.children) == FixedTags + ["default_value"]
  {
    ChildrenLayout(c, []);
  }
}
