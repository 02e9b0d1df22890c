/**
 * `validate_metadata`: the rules a control's metadata document must satisfy
 * before the generator emits anything from it. A document is read as the
 * keys the generator looks at; values are strings.
 */
module Metadata {
  import opened Wrappers

  /** The `remediation` mapping: its `scope` and `entity_type` keys. */
  datatype RemediationData = RemediationData(scope: Option<string>, entityType: Option<string>)

  /** The `task` mapping: its `title_template` key. */
  datatype TaskData = TaskData(titleTemplate: Option<string>)

  /**
   * A metadata document that is a non-empty mapping, through the keys the
   * generator reads; an absent key is `None`. An empty or null document is
   * represented by the absence of a `ControlMetadata` altogether.
   */
  datatype ControlMetadata = ControlMetadata(riskLevel: Option<string>,
                                             remediation: Option<RemediationData>,
                                             task: Option<TaskData>)

  /** The `ValueError`s `validate_metadata` raises, by the rule broken. */
  datatype ValidationError =
    | InvalidRiskLevel(riskLevel: string)
    | InvalidScope(scope: string)
    | MissingEntityType
    | UnexpectedEntityType(scope: string)
    | MissingTitleTemplate

  const RiskLevels: seq<string> := ["Critical", "High", "Moderate"]
  const Scopes: seq<string> := ["org", "entity", "mechanism", "inventory"]

  /** `remediation.scope`, when both keys are present. */
  function ScopeOf(m: ControlMetadata): Option<string> {
    if m.remediation.Some? then m.remediation.value.scope else None
  }

  /** `remediation.entity_type`, when both keys are present. */
  function EntityTypeOf(m: ControlMetadata): Option<string> {
    if m.remediation.Some? then m.remediation.value.entityType else None
  }

  // The five ways a document is rejected, each stated on its own.

  predicate BadRiskLevel(m: ControlMetadata) {
    m.riskLevel.Some? && m.riskLevel.value !in RiskLevels
  }

  predicate BadScope(m: ControlMetadata) {
    ScopeOf(m).Some? && ScopeOf(m).value !in Scopes
  }

  predicate EntityWithoutType(m: ControlMetadata) {
    ScopeOf(m) == Some("entity") && EntityTypeOf(m).None?
  }

  /** An `entity_type` beside a scope other than `entity`; with no scope at all it is allowed. */
  predicate TypeWithoutEntity(m: ControlMetadata) {
    ScopeOf(m).Some? && ScopeOf(m).value != "entity" && EntityTypeOf(m).Some?
  }

  /** A `task` whose `title_template` is missing or empty. */
  predicate TaskWithoutTemplate(m: ControlMetadata) {
    m.task.Some? && (m.task.value.titleTemplate.None? || m.task.value.titleTemplate.value == "")
  }

  predicate Rejected(m: ControlMetadata) {
    BadRiskLevel(m) || BadScope(m) || EntityWithoutType(m) || TypeWithoutEntity(m) || TaskWithoutTemplate(m)
  }

  /** The error names a rule that the document breaks, with the offending value. */
  predicate Breaks(m: ControlMetadata, e: ValidationError) {
    match e
    case InvalidRiskLevel(v) => BadRiskLevel(m) && m.riskLevel == Some(v)
    case InvalidScope(v) => BadScope(m) && ScopeOf(m) == Some(v)
    case MissingEntityType => EntityWithoutType(m)
    case UnexpectedEntityType(v) => TypeWithoutEntity(m) && ScopeOf(m) == Some(v)
    case MissingTitleTemplate => TaskWithoutTemplate(m)
  }

  /**
   * `validate_metadata(control_id, metadata)`: an empty document passes; a
   * non-empty one passes exactly when it breaks none of the five rules, and
   * otherwise the first check that fails reports a rule the document breaks.
   */
  function ValidateMetadata(md: Option<ControlMetadata>): (r: Outcome<ValidationError>)
    ensures r.Pass? <==> md.None? || !Rejected(md.value)
    ensures r.Fail? ==> md.Some? && Breaks(md.value, r.error)
  {
    match md
    case None => Pass
    case Some(m) =>
      if m.riskLevel.Some? && m.riskLevel.value !in RiskLevels then
        Fail(InvalidRiskLevel(m.riskLevel.value))
      else if m.remediation.Some? && m.remediation.value.scope.Some? then
        var scope := m.remediation.value.scope.value;
        if scope !in Scopes then Fail(InvalidScope(scope))
        else if scope == "entity" && m.remediation.value.entityType.None? then Fail(MissingEntityType)
        else if scope != "entity" && m.remediation.value.entityType.Some? then Fail(UnexpectedEntityType(scope))
        else CheckTask(m)
      else CheckTask(m)
  }

  /** The last check of `validate_metadata`: a task needs a non-empty title template. */
  function CheckTask(m: ControlMetadata): (r: Outcome<ValidationError>)
    ensures r.Pass? <==> !TaskWithoutTemplate(m)
    ensures r.Fail? ==> r.error == MissingTitleTemplate
  {
    if m.task.Some? && (m.task.value.titleTemplate.None? || m.task.value.titleTemplate.value == "") then
      Fail(MissingTitleTemplate)
    else Pass
  }

  /**
   * The rules in the order the source checks them: a bad risk level is
   * reported before anything about the scope, and a scope outside the
   * allowed set before anything about `entity_type`.
   */
  lemma ReportsFirstBrokenRule(m: ControlMetadata)
    ensures BadRiskLevel(m) ==> ValidateMetadata(Some(m)) == Fail(InvalidRiskLevel(m.riskLevel.value))
    ensures !BadRiskLevel(m) && BadScope(m) ==> ValidateMetadata(Some(m)) == Fail(InvalidScope(ScopeOf(m).value))
    ensures !BadRiskLevel(m) && !BadScope(m) && (EntityWithoutType(m) || TypeWithoutEntity(m)) ==>
              ValidateMetadata(Some(m)).Fail? && ValidateMetadata(Some(m)).error != MissingTitleTemplate
  {
  }

  /**
   * The task rule is checked last: a document is rejected for its task
   * exactly when its task lacks a non-empty `title_template` and it breaks
   * none of the four earlier rules.
   */
  lemma TaskCheckedLast(m: ControlMetadata)
    ensures ValidateMetadata(Some(m)) == Fail(MissingTitleTemplate) <==>
              && m.task.Some? && (m.task.value.titleTemplate.None? || m.task.value.titleTemplate.value == "")
              && !BadRiskLevel(m) && !BadScope(m) && !EntityWithoutType(m) && !TypeWithoutEntity(m)
  {
  }

  /** An accepted document has a listed risk level, a listed scope, and `entity_type` exactly with scope `entity`. */
  lemma AcceptedShape(m: ControlMetadata)
    requires ValidateMetadata(Some(m)).Pass?
    ensures m.riskLevel.Some? ==> m.riskLevel.value in RiskLevels
    ensures ScopeOf(m).Some? ==> ScopeOf(m).value in Scopes && (EntityTypeOf(m).Some? <==> ScopeOf(m).value == "entity")
    ensures m.task.Some? ==> m.task.value.titleTemplate.Some? && m.task.value.titleTemplate.value != ""
  {
  }
}
