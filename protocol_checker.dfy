/** The protocol checker: scores a phase checklist, validates that an analysis dictionary
    has every required field filled, and summarises several phases in a report. */
module ProtocolChecker {
  import opened Values
  import opened Sequences
  import RequirementsParser

  /** A checklist item: a dictionary whose `completed` key, if present, says whether the
      step is done. */
  type ChecklistItem = map<string, Value>

  /** `item.get('completed', False)` is true: a missing flag counts as not done. */
  predicate IsCompleted(item: ChecklistItem) {
    "completed" in item && Truthy(item["completed"])
  }

  /** An item is done exactly when its `completed` value is present and none of Python's
      false values; without the key the default `False` applies. */
  lemma CompletedUnlessFalsy(item: ChecklistItem)
    ensures IsCompleted(item) <==> "completed" in item && item["completed"] !in FalsyValues()
    ensures "completed" !in item ==> !IsCompleted(item)
  {
    if "completed" in item {
      TruthyUnlessFalsy(item["completed"]);
    }
  }

  /** The number of completed items (`sum(1 for item in checklist if ...)`). */
  function CountCompleted(checklist: seq<ChecklistItem>): (n: nat)
    ensures n <= |checklist|
  {
    if checklist == [] then 0
    else CountCompleted(checklist[..|checklist| - 1]) + (if IsCompleted(checklist[|checklist| - 1]) then 1 else 0)
  }

  /** Every item is counted exactly when all are completed, and none exactly when no
      item is. */
  lemma {:induction false} CountCompletedExtremes(checklist: seq<ChecklistItem>)
    ensures CountCompleted(checklist) == |checklist| <==> forall i :: 0 <= i < |checklist| ==> IsCompleted(checklist[i])
    ensures CountCompleted(checklist) == 0 <==> forall i :: 0 <= i < |checklist| ==> !IsCompleted(checklist[i])
  {
    if checklist != [] {
      var init := checklist[..|checklist| - 1];
      CountCompletedExtremes(init);
      assert forall i :: 0 <= i < |init| ==> init[i] == checklist[i];
    }
  }

  /** Counting is additive over concatenation: it counts each item once. */
  lemma {:induction false} CountCompletedAppend(a: seq<ChecklistItem>, b: seq<ChecklistItem>)
    ensures CountCompleted(a + b) == CountCompleted(a) + CountCompleted(b)
  {
    if b == [] {
      assert a + b == a;
    } else {
      var init, last := b[..|b| - 1], b[|b| - 1];
      CountCompletedAppend(a, init);
      var ab := a + b;
      assert ab[..|ab| - 1] == a + init;
      assert ab[|ab| - 1] == last;
      assert CountCompleted(ab) == CountCompleted(a + init) + (if IsCompleted(last) then 1 else 0);
    }
  }

  /** `completed / total * 100` as an exact ratio, 0 when there is nothing to count. */
  function Percentage(completed: nat, total: nat): (p: real)
    ensures p == 0.0 <==> total == 0 || completed == 0
    ensures completed <= total ==> 0.0 <= p <= 100.0
    ensures completed <= total ==> (p == 100.0 <==> 0 < total && completed == total)
  {
    if total > 0 then
      RatioBounds(completed, total);
      completed as real / total as real * 100.0
    else 0.0
  }

  lemma RatioBounds(completed: nat, total: nat)
    requires 0 < total
    ensures completed as real / total as real * 100.0 == 0.0 <==> completed == 0
    ensures completed <= total ==> completed as real / total as real <= 1.0
    ensures completed <= total ==> (completed as real / total as real == 1.0 <==> completed == total)
  {
    var q := completed as real / total as real;
    assert q * total as real == completed as real;
  }

  datatype Status = Complete | Incomplete

  /** The dictionary check_phase_completion returns. */
  datatype PhaseStatus = PhaseStatus(phase: string, completed: nat, total: nat, percentage: real, status: Status)

  /** check_phase_completion: the number of completed items out of all items, their
      percentage (0 for an empty checklist) and whether every item is completed. */
  function CheckPhaseCompletion(phaseName: string, checklist: seq<ChecklistItem>): (r: PhaseStatus)
    ensures r.phase == phaseName && r.total == |checklist| && r.completed <= r.total
    ensures r.completed == CountCompleted(checklist)
    ensures r.percentage == Percentage(r.completed, r.total)
    ensures r.total > 0 ==> r.percentage == r.completed as real / r.total as real * 100.0
    ensures 0.0 <= r.percentage <= 100.0
    ensures r.percentage == 100.0 <==> checklist != [] && forall i :: 0 <= i < |checklist| ==> IsCompleted(checklist[i])
    ensures r.status == Complete <==> forall i :: 0 <= i < |checklist| ==> IsCompleted(checklist[i])
    ensures checklist == [] ==> r.status == Complete && r.percentage == 0.0
  {
    CountCompletedExtremes(checklist);
    var completed := CountCompleted(checklist);
    var total := |checklist|;
    PhaseStatus(phaseName, completed, total, Percentage(completed, total),
                if completed == total then Complete else Incomplete)
  }

  // ---------------------------------------------------------------------------
  // validate_requirements_analysis, validate_codebase_analysis

  /** The dictionary the two validators return. */
  datatype Validation = Validation(valid: bool, missingFields: seq<string>, completeness: real)

  const RequirementsFields: seq<string> := [
    "requirement_principal", "funcionalidades", "restricciones", "dependencias", "criterios_aceptacion"
  ]

  const CodebaseFields: seq<string> := [
    "estructura", "stack_tecnologico", "arquitectura", "patrones_convenciones", "codigo_relevante"
  ]

  /** `field not in analysis or not analysis[field]`. */
  predicate IsMissing(analysis: map<string, Value>, field: string) {
    field !in analysis || !Truthy(analysis[field])
  }

  /** A field is missing exactly when it is absent or holds one of Python's false
      values (`None`, `False`, a zero, an empty string, list or dict). */
  lemma MissingUnlessFilled(analysis: map<string, Value>, field: string)
    ensures IsMissing(analysis, field) <==> field !in analysis || analysis[field] in FalsyValues()
  {
    if field in analysis {
      TruthyUnlessFalsy(analysis[field]);
    }
  }

  function MissingIn(analysis: map<string, Value>): string -> bool {
    (field: string) => IsMissing(analysis, field)
  }

  /** The shared body of both validators, for a non-empty list of required fields. */
  function Validate(fields: seq<string>, analysis: map<string, Value>): (r: Validation)
    requires |fields| > 0
    ensures r.missingFields == Filter(fields, MissingIn(analysis))
    ensures forall f :: f in r.missingFields <==> f in fields && IsMissing(analysis, f)
    ensures r.valid <==> r.missingFields == []
    ensures r.valid <==> forall f :: f in fields ==> !IsMissing(analysis, f)
    ensures r.completeness == (|fields| - |r.missingFields|) as real / |fields| as real * 100.0
    ensures 0.0 <= r.completeness <= 100.0
    ensures r.completeness == 100.0 <==> r.valid
  {
    var missing := Filter(fields, MissingIn(analysis));
    MissingMembership(fields, analysis);
    CompletenessBounds(|fields|, |missing|);
    Validation(missing == [], missing, (|fields| - |missing|) as real / |fields| as real * 100.0)
  }

  /** A field is reported missing exactly when it is required and absent or empty. */
  lemma MissingMembership(fields: seq<string>, analysis: map<string, Value>)
    ensures forall f :: f in Filter(fields, MissingIn(analysis)) <==> f in fields && IsMissing(analysis, f)
    ensures Filter(fields, MissingIn(analysis)) == [] <==> forall f :: f in fields ==> !IsMissing(analysis, f)
  {
    var missing := Filter(fields, MissingIn(analysis));
    forall f ensures f in missing <==> f in fields && IsMissing(analysis, f) {
      FilterMembership(fields, MissingIn(analysis), f);
    }
    if missing != [] {
      assert missing[0] in missing;
    }
  }

  /** The share of required fields present lies in [0, 100] and is 100 exactly when
      nothing is missing. */
  lemma CompletenessBounds(required: nat, missing: nat)
    requires 0 < required && missing <= required
    ensures var c := (required - missing) as real / required as real * 100.0;
      0.0 <= c <= 100.0 && (c == 100.0 <==> missing == 0)
  {
    RatioBounds(required - missing, required);
  }

  /** validate_requirements_analysis: the missing or empty required fields, in the
      listed order, validity exactly when none is missing, and the share present. */
  function ValidateRequirementsAnalysis(analysis: map<string, Value>): (r: Validation)
    ensures r == Validate(RequirementsFields, analysis)
    ensures forall f :: f in r.missingFields <==> f in RequirementsFields && IsMissing(analysis, f)
    ensures r.valid <==> r.missingFields == []
    ensures r.valid <==> forall f :: f in RequirementsFields ==> !IsMissing(analysis, f)
    ensures r.completeness == (5 - |r.missingFields|) as real / 5.0 * 100.0
    ensures 0.0 <= r.completeness <= 100.0 && (r.completeness == 100.0 <==> r.valid)
  {
    Validate(RequirementsFields, analysis)
  }

  /** validate_codebase_analysis: the same check over the codebase analysis fields. */
  function ValidateCodebaseAnalysis(analysis: map<string, Value>): (r: Validation)
    ensures r == Validate(CodebaseFields, analysis)
    ensures forall f :: f in r.missingFields <==> f in CodebaseFields && IsMissing(analysis, f)
    ensures r.valid <==> r.missingFields == []
    ensures r.valid <==> forall f :: f in CodebaseFields ==> !IsMissing(analysis, f)
    ensures r.completeness == (5 - |r.missingFields|) as real / 5.0 * 100.0
    ensures 0.0 <= r.completeness <= 100.0 && (r.completeness == 100.0 <==> r.valid)
  {
    Validate(CodebaseFields, analysis)
  }

  /** The missing fields come in the order the required fields are listed: the k-th one
      is the field at the k-th position that is missing. */
  lemma {:induction false} MissingFieldsInOrder(fields: seq<string>, analysis: map<string, Value>)
    requires |fields| > 0
    ensures var missing := Validate(fields, analysis).missingFields;
      var idx := KeptIndices(fields, MissingIn(analysis));
      |missing| == |idx| && forall k :: 0 <= k < |idx| ==> missing[k] == fields[idx[k]]
  {
    FilterAtKeptIndices(fields, MissingIn(analysis));
  }

  /** Two different required positions whose fields are missing make at least two
      missing fields. */
  lemma TwoMissing(fields: seq<string>, analysis: map<string, Value>, i: nat, j: nat)
    requires i < j < |fields|
    requires IsMissing(analysis, fields[i]) && IsMissing(analysis, fields[j])
    ensures |Filter(fields, MissingIn(analysis))| >= 2
  {
    FilterAtKeptIndices(fields, MissingIn(analysis));
    var idx := KeptIndices(fields, MissingIn(analysis));
    assert MissingIn(analysis)(fields[i]) && MissingIn(analysis)(fields[j]);
    var k :| 0 <= k < |idx| && idx[k] == i;
    var l :| 0 <= l < |idx| && idx[l] == j;
    assert k != l;
  }

  /** In the dictionary of an analysis with at least one constraint category and no
      dependencies or acceptance criteria, the constraints are filled and the other two
      fields are empty. */
  lemma DictFields(a: RequirementsParser.Analysis)
    requires a.constraints != [] && a.dependencies == [] && a.acceptanceCriteria == []
    ensures var d := RequirementsParser.AsDict(a);
      !IsMissing(d, "restricciones") && IsMissing(d, "dependencias") && IsMissing(d, "criterios_aceptacion")
  {
    assert a.constraints[0].name in RequirementsParser.ConstraintsDict(a.constraints);
  }

  /** The analysis built by structure_requirements_analysis never validates: its
      dependencies and acceptance criteria are always empty, while its constraints
      dictionary always has its five keys. */
  lemma StructuredAnalysisIsIncomplete(message: string)
    ensures var v := ValidateRequirementsAnalysis(
              RequirementsParser.AsDict(RequirementsParser.StructureRequirementsAnalysis(message)));
      !v.valid && "dependencias" in v.missingFields && "criterios_aceptacion" in v.missingFields
      && "restricciones" !in v.missingFields && v.completeness <= 60.0
  {
    var a := RequirementsParser.StructureRequirementsAnalysis(message);
    assert |a.constraints| == 5;
    DictFields(a);
    TwoMissing(RequirementsFields, RequirementsParser.AsDict(a), 3, 4);
  }

  // ---------------------------------------------------------------------------
  // generate_protocol_report

  /** The lines of the report; number formatting is not modelled, so each line keeps the
      values it shows. */
  datatype ReportLine =
    | Rule(ch: char)                 // 80 copies of `ch`
    | Title                          // "REPORTE DE PROTOCOLO DE DESARROLLO"
    | Blank
    | PhaseRow(done: bool, phase: string, completed: nat, total: nat, percentage: real)
    | Overall(completed: nat, total: nat, percentage: real)

  function PhaseRowOf(p: PhaseStatus): ReportLine {
    PhaseRow(p.status == Complete, p.phase, p.completed, p.total, p.percentage)
  }

  function SumCompleted(phases: seq<PhaseStatus>): nat {
    if phases == [] then 0 else SumCompleted(phases[..|phases| - 1]) + phases[|phases| - 1].completed
  }

  function SumTotal(phases: seq<PhaseStatus>): nat {
    if phases == [] then 0 else SumTotal(phases[..|phases| - 1]) + phases[|phases| - 1].total
  }

  /** Both sums are additive over concatenated phase lists. */
  lemma {:induction false} SumsAppend(a: seq<PhaseStatus>, b: seq<PhaseStatus>)
    ensures SumCompleted(a + b) == SumCompleted(a) + SumCompleted(b)
    ensures SumTotal(a + b) == SumTotal(a) + SumTotal(b)
  {
    if b == [] {
      assert a + b == a;
    } else {
      var init := b[..|b| - 1];
      SumsAppend(a, init);
      var ab := a + b;
      assert ab[..|ab| - 1] == a + init;
      assert ab[|ab| - 1] == b[|b| - 1];
    }
  }

  /** Every phase reports no more completed items than it has. */
  predicate Consistent(phases: seq<PhaseStatus>) {
    forall i :: 0 <= i < |phases| ==> phases[i].completed <= phases[i].total
  }

  /** Summed over consistent phases, completed items never exceed all items, and they
      are all completed exactly when every phase has all its items completed. */
  lemma {:induction false} SumsConsistent(phases: seq<PhaseStatus>)
    requires Consistent(phases)
    ensures SumCompleted(phases) <= SumTotal(phases)
    ensures SumCompleted(phases) == SumTotal(phases)
        <==> forall i :: 0 <= i < |phases| ==> phases[i].completed == phases[i].total
  {
    if phases != [] {
      var init := phases[..|phases| - 1];
      assert forall i :: 0 <= i < |init| ==> init[i] == phases[i];
      SumsConsistent(init);
    }
  }

  /** The overall percentage of consistent phases lies in [0, 100] and is 100 exactly
      when there are items and every phase is fully completed. */
  lemma OverallPercentageBounds(phases: seq<PhaseStatus>)
    requires Consistent(phases)
    ensures var p := Percentage(SumCompleted(phases), SumTotal(phases));
      0.0 <= p <= 100.0
      && (p == 100.0 <==> SumTotal(phases) > 0 && forall i :: 0 <= i < |phases| ==> phases[i].completed == phases[i].total)
  {
    SumsConsistent(phases);
  }

  function Flatten(checklists: seq<seq<ChecklistItem>>): seq<ChecklistItem> {
    if checklists == [] then [] else Flatten(checklists[..|checklists| - 1]) + checklists[|checklists| - 1]
  }

  /** Report totals of phases scored by check_phase_completion are the counts over all
      their items together, so the overall percentage is that of the joined checklist. */
  lemma {:induction false} OverallOfScoredPhases(names: seq<string>, checklists: seq<seq<ChecklistItem>>, phases: seq<PhaseStatus>)
    requires |names| == |checklists| == |phases|
    requires forall i :: 0 <= i < |phases| ==> phases[i] == CheckPhaseCompletion(names[i], checklists[i])
    ensures SumCompleted(phases) == CountCompleted(Flatten(checklists))
    ensures SumTotal(phases) == |Flatten(checklists)|
    ensures Percentage(SumCompleted(phases), SumTotal(phases))
         == CheckPhaseCompletion("", Flatten(checklists)).percentage
  {
    if phases != [] {
      var n := |phases| - 1;
      OverallOfScoredPhases(names[..n], checklists[..n], phases[..n]);
      CountCompletedAppend(Flatten(checklists[..n]), checklists[n]);
    }
  }

  /** generate_protocol_report: a banner, one row per phase in input order, then the
      totals summed over the phases and their overall percentage. */
  method GenerateProtocolReport(phases: seq<PhaseStatus>) returns (report: seq<ReportLine>)
    ensures |report| == |phases| + 8
    ensures report[..4] == [Rule('='), Title, Rule('='), Blank]
    ensures forall i :: 0 <= i < |phases| ==> report[4 + i] == PhaseRowOf(phases[i])
    ensures report[4 + |phases|..] == [Blank, Rule('-'),
      Overall(SumCompleted(phases), SumTotal(phases), Percentage(SumCompleted(phases), SumTotal(phases))),
      Rule('=')]
  {
    report := [Rule('='), Title, Rule('='), Blank];
    var i := 0;
    while i < |phases|
      invariant 0 <= i <= |phases|
      invariant |report| == 4 + i
      invariant report[..4] == [Rule('='), Title, Rule('='), Blank]
      invariant forall j :: 0 <= j < i ==> report[4 + j] == PhaseRowOf(phases[j])
    {
      var phase := phases[i];
      report := report + [PhaseRow(phase.status == Complete, phase.phase, phase.completed, phase.total, phase.percentage)];
      i := i + 1;
    }
    var totalCompleted := SumCompleted(phases);
    var totalItems := SumTotal(phases);
    var overallPercentage := Percentage(totalCompleted, totalItems);
    report := report + [Blank, Rule('-'), Overall(totalCompleted, totalItems, overallPercentage), Rule('=')];
  }
}
