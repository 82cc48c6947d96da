/**
 * The bulk custom-attribute matrix (`/api/bulk_operations/cavs/search`).
 *
 * Given the assessments a query resolved to (in query order), the local custom
 * attribute definitions (CADs, in creation order) and the recorded values (CAVs),
 * the engine groups definitions into rows keyed by
 * (title, attribute_type, mandatory, default_value), gives every row one cell per
 * assessment carrying a definition with that key, evaluates the per-option
 * completion mask of Dropdown and Multiselect cells, and lists a summary of
 * every assessment beside the rows.
 */
module Matrix {
  import opened Wrappers
  import opened Strings

  datatype AttributeType = Text | RichText | Date | Dropdown | Multiselect | Checkbox | MapPerson

  datatype EvidenceKind = UrlKind | FileKind

  datatype Evidence = Evidence(id: nat, kind: EvidenceKind)

  datatype Assessment = Assessment(
    id: nat,
    slug: string,
    title: string,
    status: string,
    assessmentType: string,
    evidences: seq<Evidence>,
    comments: seq<nat>)

  /** A local CAD; `definitionId` is the id of the assessment it belongs to. */
  datatype Definition = Definition(
    id: nat,
    definitionId: nat,
    title: string,
    attributeType: AttributeType,
    mandatory: bool,
    defaultValue: Option<string>,
    multiChoiceOptions: Option<string>,
    multiChoiceMandatory: Option<string>)

  /** A CAV: the answer an assessment (`attributableId`) gave to a CAD (`customAttributeId`). */
  datatype AttributeValue = AttributeValue(
    customAttributeId: nat,
    attributableId: nat,
    attributeValue: string,
    attributeObjectId: Option<string>)

  /** The identity under which definitions of different assessments share a row. */
  datatype RowKey = RowKey(title: string, attributeType: AttributeType, mandatory: bool, defaultValue: Option<string>)

  /** The completion artifacts an option can demand. */
  datatype Requirement = CommentRequired | EvidenceRequired | UrlRequired

  datatype Cell = Cell(
    value: Option<string>,
    attributePersonId: Option<nat>,
    preconditionsFailed: Option<seq<Requirement>>,
    definitionId: nat,
    attributeDefinitionId: nat,
    multiChoiceOptions: Option<string>,
    multiChoiceMandatory: Option<string>)

  /** `values` is keyed by the assessment id written as a decimal string. */
  datatype Row = Row(
    title: string,
    mandatory: bool,
    attributeType: AttributeType,
    defaultValue: Option<string>,
    values: map<string, Cell>)

  datatype Summary = Summary(
    assessmentType: string,
    id: nat,
    slug: string,
    title: string,
    status: string,
    urlsCount: nat,
    filesCount: nat)

  datatype Response = Response(attributes: seq<Row>, assessments: seq<Summary>)

  // ---------------------------------------------------------------------------
  // Object summary

  /** `asmt.evidences_url` / `asmt.evidences_file`: the evidences of one kind, in order. */
  function EvidencesOfKind(es: seq<Evidence>, kind: EvidenceKind): (r: seq<Evidence>)
    ensures |r| <= |es|
    ensures forall e :: e in r <==> e in es && e.kind == kind
  {
    if |es| == 0 then []
    else (if es[0].kind == kind then [es[0]] else []) + EvidencesOfKind(es[1..], kind)
  }

  /** Every evidence is either a url or a file, so the two counts add up to all evidences. */
  lemma {:induction false} EvidenceKindsPartition(es: seq<Evidence>)
    ensures |EvidencesOfKind(es, UrlKind)| + |EvidencesOfKind(es, FileKind)| == |es|
  {
    if |es| > 0 {
      EvidenceKindsPartition(es[1..]);
    }
  }

  /** Attaching one evidence raises the count of its own kind by one and leaves the other. */
  lemma {:induction false} EvidenceAttached(es: seq<Evidence>, e: Evidence)
    ensures |EvidencesOfKind(es + [e], e.kind)| == |EvidencesOfKind(es, e.kind)| + 1
    ensures forall k :: k != e.kind ==> EvidencesOfKind(es + [e], k) == EvidencesOfKind(es, k)
  {
    if |es| == 0 {
      assert es + [e] == [e];
    } else {
      assert (es + [e])[1..] == es[1..] + [e];
      EvidenceAttached(es[1..], e);
    }
  }

  function SummaryOf(a: Assessment): (s: Summary)
    ensures s.urlsCount + s.filesCount == |a.evidences|
  {
    EvidenceKindsPartition(a.evidences);
    Summary(a.assessmentType, a.id, a.slug, a.title, a.status,
            |EvidencesOfKind(a.evidences, UrlKind)|, |EvidencesOfKind(a.evidences, FileKind)|)
  }

  /** The `assessments` part of the response: one summary per assessment, in query order. */
  function Summaries(asmts: seq<Assessment>): (r: seq<Summary>)
    ensures |r| == |asmts|
    ensures forall i :: 0 <= i < |asmts| ==>
              r[i].id == asmts[i].id && r[i].title == asmts[i].title && r[i].slug == asmts[i].slug &&
              r[i].status == asmts[i].status && r[i].assessmentType == asmts[i].assessmentType &&
              r[i].urlsCount == |EvidencesOfKind(asmts[i].evidences, UrlKind)| &&
              r[i].filesCount == |EvidencesOfKind(asmts[i].evidences, FileKind)| &&
              r[i].urlsCount + r[i].filesCount == |asmts[i].evidences|
  {
    seq(|asmts|, i requires 0 <= i < |asmts| => SummaryOf(asmts[i]))
  }

  // ---------------------------------------------------------------------------
  // Lookups

  function AssessmentIds(asmts: seq<Assessment>): set<nat>
  {
    set a | a in asmts :: a.id
  }

  /** The first assessment of the query with the given id. */
  function FindAssessment(asmts: seq<Assessment>, id: nat): (r: Option<Assessment>)
    ensures r.Some? <==> id in AssessmentIds(asmts)
    ensures r.Some? ==> r.value in asmts && r.value.id == id
  {
    if |asmts| == 0 then None
    else if asmts[0].id == id then Some(asmts[0])
    else
      assert forall a :: a in asmts[1..] ==> a in asmts;
      assert id in AssessmentIds(asmts) ==> id in AssessmentIds(asmts[1..]);
      FindAssessment(asmts[1..], id)
  }

  /** The value recorded for a definition on an assessment, if any. */
  function FindValue(cavs: seq<AttributeValue>, cadId: nat, asmtId: nat): (r: Option<AttributeValue>)
    ensures r.None? <==> forall v :: v in cavs ==> !(v.customAttributeId == cadId && v.attributableId == asmtId)
    ensures r.Some? ==> r.value in cavs && r.value.customAttributeId == cadId && r.value.attributableId == asmtId
  {
    if |cavs| == 0 then None
    else if cavs[0].customAttributeId == cadId && cavs[0].attributableId == asmtId then Some(cavs[0])
    else
      assert forall v :: v in cavs ==> v == cavs[0] || v in cavs[1..];
      FindValue(cavs[1..], cadId, asmtId)
  }

  /** `options.index(x)` in Python, with `None` where it would raise. */
  function IndexOf(xs: seq<string>, x: string): (r: Option<nat>)
    ensures r.None? <==> x !in xs
    ensures r.Some? ==> r.value < |xs| && xs[r.value] == x && x !in xs[..r.value]
  {
    if |xs| == 0 then None
    else if xs[0] == x then Some(0)
    else
      match IndexOf(xs[1..], x)
      case None => None
      case Some(i) =>
        assert xs[..i + 1] == [xs[0]] + xs[1..][..i];
        Some(i + 1)
  }

  // ---------------------------------------------------------------------------
  // Precondition evaluator

  /** The bit of a `multi_choice_mandatory` code that demands the requirement. */
  function MaskBit(q: Requirement): nat
  {
    match q
    case CommentRequired => 1
    case EvidenceRequired => 2
    case UrlRequired => 4
  }

  function RequirementName(q: Requirement): string
  {
    match q
    case CommentRequired => "comment"
    case EvidenceRequired => "evidence"
    case UrlRequired => "url"
  }

  /** Different requirements have different names, so the rendered list loses nothing. */
  lemma RequirementNameInjective(p: Requirement, q: Requirement)
    ensures RequirementName(p) == RequirementName(q) <==> p == q
  {
    if p != q {
      assert RequirementName(p)[0] != RequirementName(q)[0];
    }
  }

  /** `preconditions_failed` as it appears in the response: the names of the failed requirements. */
  function Rendered(r: Option<seq<Requirement>>): (out: Option<seq<string>>)
    ensures out.None? <==> r.None?
    ensures out.Some? ==> |out.value| == |r.value|
    ensures out.Some? ==> forall i :: 0 <= i < |r.value| ==> out.value[i] == RequirementName(r.value[i])
  {
    match r
    case None => None
    case Some(fs) => Some(seq(|fs|, i requires 0 <= i < |fs| => RequirementName(fs[i])))
  }

  predicate Demands(code: nat, q: Requirement)
  {
    (code / MaskBit(q)) % 2 == 1
  }

  /** Whether the assessment already holds the artifact the requirement asks for. */
  predicate Satisfied(a: Assessment, q: Requirement)
  {
    match q
    case CommentRequired => |a.comments| > 0
    case EvidenceRequired => |a.evidences| > 0
    case UrlRequired => |EvidencesOfKind(a.evidences, UrlKind)| > 0
  }

  /** The requirements a code demands that the assessment lacks, in the order comment, evidence, url. */
  function FailedRequirements(code: nat, a: Assessment): (fs: seq<Requirement>)
    ensures forall q :: q in fs <==> Demands(code, q) && !Satisfied(a, q)
    ensures forall i, j :: 0 <= i < j < |fs| ==> MaskBit(fs[i]) < MaskBit(fs[j])
  {
    (if Demands(code, CommentRequired) && !Satisfied(a, CommentRequired) then [CommentRequired] else [])
    + (if Demands(code, EvidenceRequired) && !Satisfied(a, EvidenceRequired) then [EvidenceRequired] else [])
    + (if Demands(code, UrlRequired) && !Satisfied(a, UrlRequired) then [UrlRequired] else [])
  }

  /**
   * `preconditions_failed` of a cell whose selected option is `selected`: the options and
   * the mask are comma-separated, aligned by position; any inconsistency (no mask, option
   * not listed, mask too short, code not a number) gives `None`, and so does a code whose
   * requirements are all met.
   */
  function Preconditions(d: Definition, selected: string, a: Assessment): (r: Option<seq<Requirement>>)
    ensures r.Some? ==> d.attributeType in {Dropdown, Multiselect}
    ensures r.Some? ==> d.multiChoiceOptions.Some? && d.multiChoiceMandatory.Some?
    ensures r.Some? ==> |r.value| >= 1 && forall q :: q in r.value ==> !Satisfied(a, q)
    ensures (forall q :: Satisfied(a, q)) ==> r.None?
  {
    if !(d.attributeType == Dropdown || d.attributeType == Multiselect) then None
    else if d.multiChoiceOptions.None? || d.multiChoiceMandatory.None? then None
    else if d.multiChoiceMandatory.value == "" then None
    else
      match IndexOf(Split(d.multiChoiceOptions.value, ','), selected)
      case None => None
      case Some(pos) =>
        var codes := Split(d.multiChoiceMandatory.value, ',');
        if pos >= |codes| then None
        else
          match ParseDecimal(codes[pos])
          case None => None
          case Some(code) =>
            var fs := FailedRequirements(code, a);
            if fs == [] then None else Some(fs)
  }

  /**
   * A verdict is given only for a decodable selection: a nonempty mask, the option listed,
   * its position inside the mask, and a numeric code there; the verdict is that code's
   * failures. Every undecodable selection gives `None`.
   */
  lemma PreconditionsNeedDecoding(d: Definition, selected: string, a: Assessment)
    ensures Preconditions(d, selected, a).Some? ==>
              d.multiChoiceOptions.Some? && d.multiChoiceMandatory.Some? && d.multiChoiceMandatory.value != "" &&
              var pos := IndexOf(Split(d.multiChoiceOptions.value, ','), selected);
              var codes := Split(d.multiChoiceMandatory.value, ',');
              pos.Some? && pos.value < |codes| && ParseDecimal(codes[pos.value]).Some? &&
              Preconditions(d, selected, a).value == FailedRequirements(ParseDecimal(codes[pos.value]).value, a)
  {
  }

  /** The decoded code decides the verdict: it fails exactly on the demanded, missing artifacts. */
  lemma PreconditionsDecoded(d: Definition, selected: string, a: Assessment, pos: nat, code: nat)
    requires d.attributeType in {Dropdown, Multiselect}
    requires d.multiChoiceOptions.Some? && d.multiChoiceMandatory.Some? && d.multiChoiceMandatory.value != ""
    requires IndexOf(Split(d.multiChoiceOptions.value, ','), selected) == Some(pos)
    requires pos < |Split(d.multiChoiceMandatory.value, ',')|
    requires ParseDecimal(Split(d.multiChoiceMandatory.value, ',')[pos]) == Some(code)
    ensures Preconditions(d, selected, a).None? <==> forall q :: Demands(code, q) ==> Satisfied(a, q)
    ensures forall q :: Preconditions(d, selected, a).Some? ==>
              (q in Preconditions(d, selected, a).value <==> Demands(code, q) && !Satisfied(a, q))
  {
  }

  // ---------------------------------------------------------------------------
  // Value resolver

  /** A Map:Person cell shows this label instead of the stored string. */
  const PersonLabel := "Person"

  /** The cell of definition `d` on assessment `a`, given the value recorded for that pair. */
  function MakeCell(d: Definition, a: Assessment, v: Option<AttributeValue>): (c: Cell)
    ensures c.definitionId == d.definitionId && c.attributeDefinitionId == d.id
    ensures c.multiChoiceOptions == d.multiChoiceOptions && c.multiChoiceMandatory == d.multiChoiceMandatory
    ensures c.value.None? <==> v.None?
    ensures v.None? ==> c.attributePersonId.None? && c.preconditionsFailed.None?
    ensures c.attributePersonId.Some? ==> d.attributeType == MapPerson
    ensures v.Some? && d.attributeType == MapPerson ==>
              c.value == Some(PersonLabel) && c.preconditionsFailed.None? &&
              c.attributePersonId == (if v.value.attributeObjectId.Some? then ParseDecimal(v.value.attributeObjectId.value) else None)
    ensures v.Some? && d.attributeType != MapPerson ==>
              c.value == Some(v.value.attributeValue) && c.preconditionsFailed == Preconditions(d, v.value.attributeValue, a)
  {
    match v
    case None =>
      Cell(None, None, None, d.definitionId, d.id, d.multiChoiceOptions, d.multiChoiceMandatory)
    case Some(cav) =>
      if d.attributeType == MapPerson then
        var person := if cav.attributeObjectId.Some? then ParseDecimal(cav.attributeObjectId.value) else None;
        Cell(Some(PersonLabel), person, None, d.definitionId, d.id, d.multiChoiceOptions, d.multiChoiceMandatory)
      else
        Cell(Some(cav.attributeValue), None, Preconditions(d, cav.attributeValue, a),
             d.definitionId, d.id, d.multiChoiceOptions, d.multiChoiceMandatory)
  }

  /** Every definition belongs to one of the queried assessments. */
  predicate InScope(defs: seq<Definition>, asmts: seq<Assessment>)
  {
    forall i :: 0 <= i < |defs| ==> defs[i].definitionId in AssessmentIds(asmts)
  }

  /** The cell a definition contributes, looked up against the queried assessments and the values. */
  function CellOf(d: Definition, asmts: seq<Assessment>, cavs: seq<AttributeValue>): (c: Cell)
    requires d.definitionId in AssessmentIds(asmts)
    ensures c.definitionId == d.definitionId && c.attributeDefinitionId == d.id
    ensures c.value.None? <==> forall v :: v in cavs ==> !(v.customAttributeId == d.id && v.attributableId == d.definitionId)
  {
    MakeCell(d, FindAssessment(asmts, d.definitionId).value, FindValue(cavs, d.id, d.definitionId))
  }

  // ---------------------------------------------------------------------------
  // Attribute catalog builder

  function RowKeyOf(d: Definition): RowKey
  {
    RowKey(d.title, d.attributeType, d.mandatory, d.defaultValue)
  }

  function KeyOfRow(r: Row): RowKey
  {
    RowKey(r.title, r.attributeType, r.mandatory, r.defaultValue)
  }

  /** The definitions that belong to the queried assessments, in their loaded order. */
  function Scoped(defs: seq<Definition>, asmts: seq<Assessment>): (r: seq<Definition>)
    ensures InScope(r, asmts)
    ensures forall d :: d in r <==> d in defs && d.definitionId in AssessmentIds(asmts)
  {
    if |defs| == 0 then []
    else (if defs[0].definitionId in AssessmentIds(asmts) then [defs[0]] else []) + Scoped(defs[1..], asmts)
  }

  lemma {:induction false} ScopedAll(defs: seq<Definition>, asmts: seq<Assessment>)
    requires InScope(defs, asmts)
    ensures Scoped(defs, asmts) == defs
  {
    if |defs| > 0 {
      ScopedAll(defs[1..], asmts);
      assert [defs[0]] + defs[1..] == defs;
    }
  }

  /** The distinct identities of the definitions, each at the position where it was first seen. */
  function RowKeys(defs: seq<Definition>): (ks: seq<RowKey>)
    ensures forall i, j :: 0 <= i < j < |ks| ==> ks[i] != ks[j]
    ensures forall k :: k in ks <==> exists i :: 0 <= i < |defs| && RowKeyOf(defs[i]) == k
  {
    if |defs| == 0 then []
    else
      var prefix := defs[..|defs| - 1];
      var ks := RowKeys(prefix);
      var k := RowKeyOf(defs[|defs| - 1]);
      assert forall i :: 0 <= i < |prefix| ==> prefix[i] == defs[i];
      if k in ks then ks else ks + [k]
  }

  /**
   * `ks` lists identities in first-seen order of `defs`: of two listed identities, the
   * earlier one has a definition before any definition of the later one.
   */
  predicate FirstSeenOrder(defs: seq<Definition>, ks: seq<RowKey>)
  {
    forall i, j, jj :: 0 <= i < j < |ks| && 0 <= jj < |defs| && RowKeyOf(defs[jj]) == ks[j] ==>
      exists ii :: 0 <= ii < jj && RowKeyOf(defs[ii]) == ks[i]
  }

  /** The row identities come in first-seen order. */
  lemma {:induction false} RowKeysFirstSeen(defs: seq<Definition>)
    ensures FirstSeenOrder(defs, RowKeys(defs))
  {
    if |defs| > 0 {
      var prefix := defs[..|defs| - 1];
      RowKeysFirstSeen(prefix);
      forall i, j, jj | 0 <= i < j < |RowKeys(defs)| && 0 <= jj < |defs| && RowKeyOf(defs[jj]) == RowKeys(defs)[j]
        ensures exists ii :: 0 <= ii < jj && RowKeyOf(defs[ii]) == RowKeys(defs)[i]
      {
        var ii := FirstSeenStep(defs, prefix, i, j, jj);
      }
    }
  }

  /** The inductive step of `RowKeysFirstSeen`: one more definition keeps the order. */
  lemma FirstSeenStep(defs: seq<Definition>, prefix: seq<Definition>, i: nat, j: nat, jj: nat) returns (ii: nat)
    requires |defs| > 0 && prefix == defs[..|defs| - 1]
    requires FirstSeenOrder(prefix, RowKeys(prefix))
    requires i < j < |RowKeys(defs)| && jj < |defs| && RowKeyOf(defs[jj]) == RowKeys(defs)[j]
    ensures ii < jj && RowKeyOf(defs[ii]) == RowKeys(defs)[i]
  {
    assert forall x :: 0 <= x < |prefix| ==> prefix[x] == defs[x];
    var pks := RowKeys(prefix);
    var ks := RowKeys(defs);
    assert ks[i] == pks[i] && ks[i] in pks;
    if j < |pks| {
      assert ks[j] == pks[j] && ks[j] in pks;
      var jp :| 0 <= jp < |prefix| && RowKeyOf(prefix[jp]) == pks[j];
      if jj < |prefix| {
        jp := jj;
      }
      ii :| 0 <= ii < jp && RowKeyOf(prefix[ii]) == pks[i];
    } else {
      assert ks[j] !in pks;
      ii :| 0 <= ii < |prefix| && RowKeyOf(prefix[ii]) == pks[i];
    }
  }

  /**
   * The cells of the row with identity `k`, keyed by the assessment id as a string.
   * Definitions are applied in order, so a later one for the same assessment wins.
   */
  function RowValues(k: RowKey, defs: seq<Definition>, asmts: seq<Assessment>, cavs: seq<AttributeValue>): (m: map<string, Cell>)
    requires InScope(defs, asmts)
    ensures m.Keys == set i | 0 <= i < |defs| && RowKeyOf(defs[i]) == k :: NatToString(defs[i].definitionId)
  {
    if |defs| == 0 then map[]
    else
      var prefix := defs[..|defs| - 1];
      var d := defs[|defs| - 1];
      assert forall i :: 0 <= i < |prefix| ==> prefix[i] == defs[i];
      var m := RowValues(k, prefix, asmts, cavs);
      if RowKeyOf(d) == k then m[NatToString(d.definitionId) := CellOf(d, asmts, cavs)] else m
  }

  function BuildRow(k: RowKey, defs: seq<Definition>, asmts: seq<Assessment>, cavs: seq<AttributeValue>): (r: Row)
    requires InScope(defs, asmts)
    ensures KeyOfRow(r) == k
  {
    Row(k.title, k.mandatory, k.attributeType, k.defaultValue, RowValues(k, defs, asmts, cavs))
  }

  /** The `attributes` part of the response. */
  function Attributes(asmts: seq<Assessment>, defs: seq<Definition>, cavs: seq<AttributeValue>): (r: seq<Row>)
    ensures forall i, j :: 0 <= i < j < |r| ==> KeyOfRow(r[i]) != KeyOfRow(r[j])
  {
    var scoped := Scoped(defs, asmts);
    var ks := RowKeys(scoped);
    var r := seq(|ks|, i requires 0 <= i < |ks| => BuildRow(ks[i], scoped, asmts, cavs));
    assert forall i :: 0 <= i < |r| ==> KeyOfRow(r[i]) == ks[i];
    r
  }

  /** The identities of a list of rows, in order. */
  function Identities(rows: seq<Row>): (ks: seq<RowKey>)
    ensures |ks| == |rows| && forall i :: 0 <= i < |rows| ==> ks[i] == KeyOfRow(rows[i])
  {
    seq(|rows|, i requires 0 <= i < |rows| => KeyOfRow(rows[i]))
  }

  /** The whole response of the endpoint. */
  function BuildMatrix(asmts: seq<Assessment>, defs: seq<Definition>, cavs: seq<AttributeValue>): (r: Response)
    ensures |r.assessments| == |asmts| && forall i :: 0 <= i < |asmts| ==> r.assessments[i].id == asmts[i].id
    ensures forall i, j :: 0 <= i < j < |r.attributes| ==> KeyOfRow(r.attributes[i]) != KeyOfRow(r.attributes[j])
  {
    Response(Attributes(asmts, defs, cavs), Summaries(asmts))
  }

  // ---------------------------------------------------------------------------
  // Properties of the rows

  /**
   * A row holds a cell for an assessment exactly when some definition of that assessment
   * has the row's identity; every definition of a queried assessment has a row.
   */
  lemma RowCellsExact(asmts: seq<Assessment>, defs: seq<Definition>, cavs: seq<AttributeValue>, i: nat, a: nat)
    requires i < |Attributes(asmts, defs, cavs)|
    ensures NatToString(a) in Attributes(asmts, defs, cavs)[i].values <==>
              exists d :: d in defs && d.definitionId == a && a in AssessmentIds(asmts) &&
                          RowKeyOf(d) == KeyOfRow(Attributes(asmts, defs, cavs)[i])
  {
    var scoped := Scoped(defs, asmts);
    var ks := RowKeys(scoped);
    var row := Attributes(asmts, defs, cavs)[i];
    assert row == BuildRow(ks[i], scoped, asmts, cavs);
    RowValuesExact(ks[i], scoped, asmts, cavs, a);
  }

  /** The keys of `RowValues` are the ids of the assessments whose definitions carry the identity. */
  lemma RowValuesExact(k: RowKey, defs: seq<Definition>, asmts: seq<Assessment>, cavs: seq<AttributeValue>, a: nat)
    requires InScope(defs, asmts)
    ensures NatToString(a) in RowValues(k, defs, asmts, cavs) <==>
              exists d :: d in defs && d.definitionId == a && RowKeyOf(d) == k
  {
    var m := RowValues(k, defs, asmts, cavs);
    if NatToString(a) in m {
      var j :| 0 <= j < |defs| && RowKeyOf(defs[j]) == k && NatToString(defs[j].definitionId) == NatToString(a);
      NatToStringInjective(defs[j].definitionId, a);
      assert defs[j] in defs;
    }
    if exists d :: d in defs && d.definitionId == a && RowKeyOf(d) == k {
      var d :| d in defs && d.definitionId == a && RowKeyOf(d) == k;
      var j :| 0 <= j < |defs| && defs[j] == d;
      assert NatToString(defs[j].definitionId) in m;
    }
  }

  /** Every definition of a queried assessment shows up in some row, under its own identity. */
  lemma DefinitionHasRow(asmts: seq<Assessment>, defs: seq<Definition>, cavs: seq<AttributeValue>, d: Definition)
    requires d in defs && d.definitionId in AssessmentIds(asmts)
    ensures exists i :: 0 <= i < |Attributes(asmts, defs, cavs)| &&
              KeyOfRow(Attributes(asmts, defs, cavs)[i]) == RowKeyOf(d) &&
              NatToString(d.definitionId) in Attributes(asmts, defs, cavs)[i].values
  {
    var scoped := Scoped(defs, asmts);
    var ks := RowKeys(scoped);
    assert d in scoped;
    var j :| 0 <= j < |scoped| && scoped[j] == d;
    assert RowKeyOf(d) in ks;
    var i :| 0 <= i < |ks| && ks[i] == RowKeyOf(d);
    RowCellsExact(asmts, defs, cavs, i, d.definitionId);
  }

  /** No row is empty: a row exists only because some definition gave it a cell. */
  lemma NoEmptyRows(asmts: seq<Assessment>, defs: seq<Definition>, cavs: seq<AttributeValue>, i: nat)
    requires i < |Attributes(asmts, defs, cavs)|
    ensures |Attributes(asmts, defs, cavs)[i].values| >= 1
  {
    var scoped := Scoped(defs, asmts);
    var ks := RowKeys(scoped);
    assert ks[i] in ks;
    var j :| 0 <= j < |scoped| && RowKeyOf(scoped[j]) == ks[i];
    var row := Attributes(asmts, defs, cavs)[i];
    assert NatToString(scoped[j].definitionId) in row.values;
  }

  /**
   * The response rows come in first-seen order of the in-scope definitions: of two rows,
   * the earlier one has a definition before any definition of the later one.
   */
  lemma RowsFirstSeen(asmts: seq<Assessment>, defs: seq<Definition>, cavs: seq<AttributeValue>)
    ensures FirstSeenOrder(Scoped(defs, asmts), Identities(Attributes(asmts, defs, cavs)))
  {
    var scoped := Scoped(defs, asmts);
    RowKeysFirstSeen(scoped);
    assert Identities(Attributes(asmts, defs, cavs)) == RowKeys(scoped);
  }

  /** When no definition belongs to a queried assessment, `attributes` is empty. */
  lemma NoDefinitionsNoRows(asmts: seq<Assessment>, defs: seq<Definition>, cavs: seq<AttributeValue>)
    requires forall d :: d in defs ==> d.definitionId !in AssessmentIds(asmts)
    ensures Attributes(asmts, defs, cavs) == []
  {
    var scoped := Scoped(defs, asmts);
    assert forall d :: d !in scoped;
  }

  /** An assessment with no definitions gets no cell in any row, yet keeps its summary. */
  lemma AssessmentWithoutDefinitions(asmts: seq<Assessment>, defs: seq<Definition>, cavs: seq<AttributeValue>, k: nat)
    requires k < |asmts|
    requires forall d :: d in defs ==> d.definitionId != asmts[k].id
    ensures forall i :: 0 <= i < |BuildMatrix(asmts, defs, cavs).attributes| ==>
              NatToString(asmts[k].id) !in BuildMatrix(asmts, defs, cavs).attributes[i].values
    ensures |BuildMatrix(asmts, defs, cavs).assessments| == |asmts|
    ensures BuildMatrix(asmts, defs, cavs).assessments[k].id == asmts[k].id
  {
    forall i | 0 <= i < |Attributes(asmts, defs, cavs)|
      ensures NatToString(asmts[k].id) !in Attributes(asmts, defs, cavs)[i].values
    {
      RowCellsExact(asmts, defs, cavs, i, asmts[k].id);
    }
  }

  /** The `i`th row's cells are exactly the cells its definitions contribute. */
  lemma {:induction false} RowValuesCell(k: RowKey, defs: seq<Definition>, asmts: seq<Assessment>, cavs: seq<AttributeValue>, d: Definition)
    requires InScope(defs, asmts)
    requires d in defs && RowKeyOf(d) == k
    requires forall e :: e in defs && RowKeyOf(e) == k && e.definitionId == d.definitionId ==> e == d
    ensures NatToString(d.definitionId) in RowValues(k, defs, asmts, cavs)
    ensures RowValues(k, defs, asmts, cavs)[NatToString(d.definitionId)] == CellOf(d, asmts, cavs)
    decreases |defs|
  {
    var prefix := defs[..|defs| - 1];
    var last := defs[|defs| - 1];
    assert forall i :: 0 <= i < |prefix| ==> prefix[i] == defs[i];
    assert defs == prefix + [last];
    if last == d {
    } else {
      assert d in prefix;
      RowValuesCell(k, prefix, asmts, cavs, d);
      if RowKeyOf(last) == k {
        assert last.definitionId != d.definitionId;
        NatToStringInjective(last.definitionId, d.definitionId);
      }
    }
  }

  /**
   * The cell of a definition sits in the row of its identity under its assessment's id,
   * provided no other definition of that assessment shares the identity.
   */
  lemma CellOfDefinition(asmts: seq<Assessment>, defs: seq<Definition>, cavs: seq<AttributeValue>, d: Definition, i: nat)
    requires d in defs && d.definitionId in AssessmentIds(asmts)
    requires forall e :: e in defs && RowKeyOf(e) == RowKeyOf(d) && e.definitionId == d.definitionId ==> e == d
    requires i < |Attributes(asmts, defs, cavs)| && KeyOfRow(Attributes(asmts, defs, cavs)[i]) == RowKeyOf(d)
    ensures NatToString(d.definitionId) in Attributes(asmts, defs, cavs)[i].values
    ensures Attributes(asmts, defs, cavs)[i].values[NatToString(d.definitionId)] == CellOf(d, asmts, cavs)
  {
    var scoped := Scoped(defs, asmts);
    assert d in scoped;
    RowValuesCell(RowKeyOf(d), scoped, asmts, cavs, d);
  }

  /**
   * A definition without a recorded value gives a cell with null value, person and
   * preconditions, linked to its assessment and its definition, echoing the option fields.
   */
  lemma UnansweredCell(asmts: seq<Assessment>, defs: seq<Definition>, cavs: seq<AttributeValue>, d: Definition, i: nat)
    requires d in defs && d.definitionId in AssessmentIds(asmts)
    requires forall e :: e in defs && RowKeyOf(e) == RowKeyOf(d) && e.definitionId == d.definitionId ==> e == d
    requires forall v :: v in cavs ==> !(v.customAttributeId == d.id && v.attributableId == d.definitionId)
    requires i < |Attributes(asmts, defs, cavs)| && KeyOfRow(Attributes(asmts, defs, cavs)[i]) == RowKeyOf(d)
    ensures NatToString(d.definitionId) in Attributes(asmts, defs, cavs)[i].values
    ensures Attributes(asmts, defs, cavs)[i].values[NatToString(d.definitionId)] ==
              Cell(None, None, None, d.definitionId, d.id, d.multiChoiceOptions, d.multiChoiceMandatory)
  {
    CellOfDefinition(asmts, defs, cavs, d, i);
  }

  /**
   * A Map:Person value shows the label "Person" and the person id parsed back from the
   * stored `attribute_object_id` string.
   */
  lemma MapPersonCell(asmts: seq<Assessment>, defs: seq<Definition>, cavs: seq<AttributeValue>, d: Definition, i: nat, person: nat)
    requires d in defs && d.definitionId in AssessmentIds(asmts) && d.attributeType == MapPerson
    requires forall e :: e in defs && RowKeyOf(e) == RowKeyOf(d) && e.definitionId == d.definitionId ==> e == d
    requires FindValue(cavs, d.id, d.definitionId).Some?
    requires FindValue(cavs, d.id, d.definitionId).value.attributeObjectId == Some(NatToString(person))
    requires i < |Attributes(asmts, defs, cavs)| && KeyOfRow(Attributes(asmts, defs, cavs)[i]) == RowKeyOf(d)
    ensures NatToString(d.definitionId) in Attributes(asmts, defs, cavs)[i].values
    ensures Attributes(asmts, defs, cavs)[i].values[NatToString(d.definitionId)].value == Some("Person")
    ensures Attributes(asmts, defs, cavs)[i].values[NatToString(d.definitionId)].attributePersonId == Some(person)
    ensures Attributes(asmts, defs, cavs)[i].values[NatToString(d.definitionId)].preconditionsFailed.None?
  {
    CellOfDefinition(asmts, defs, cavs, d, i);
    ParseNatToString(person);
  }

  /**
   * Two definitions with the same identity on two different assessments collapse into one
   * row with one cell per assessment.
   */
  lemma SameIdentityCollapses(asmts: seq<Assessment>, d1: Definition, d2: Definition, cavs: seq<AttributeValue>)
    requires d1.definitionId in AssessmentIds(asmts) && d2.definitionId in AssessmentIds(asmts)
    requires d1.definitionId != d2.definitionId
    requires RowKeyOf(d1) == RowKeyOf(d2)
    ensures |Attributes(asmts, [d1, d2], cavs)| == 1
    ensures KeyOfRow(Attributes(asmts, [d1, d2], cavs)[0]) == RowKeyOf(d1)
    ensures Attributes(asmts, [d1, d2], cavs)[0].values.Keys == {NatToString(d1.definitionId), NatToString(d2.definitionId)}
    ensures |Attributes(asmts, [d1, d2], cavs)[0].values| == 2
    ensures Attributes(asmts, [d1, d2], cavs)[0].values[NatToString(d1.definitionId)] == CellOf(d1, asmts, cavs)
    ensures Attributes(asmts, [d1, d2], cavs)[0].values[NatToString(d2.definitionId)] == CellOf(d2, asmts, cavs)
  {
    var defs := [d1, d2];
    var k := RowKeyOf(d1);
    SameKeyAttributes(asmts, d1, d2, cavs);
    var m := RowValues(k, defs, asmts, cavs);
    PairValueKeys(k, d1, d2, asmts, cavs);
    NatToStringInjective(d1.definitionId, d2.definitionId);
    assert |m.Keys| == 2;
    RowValuesCell(k, defs, asmts, cavs, d1);
    RowValuesCell(k, defs, asmts, cavs, d2);
  }

  /** Two in-scope definitions of one identity give the single row of that identity. */
  lemma SameKeyAttributes(asmts: seq<Assessment>, d1: Definition, d2: Definition, cavs: seq<AttributeValue>)
    requires d1.definitionId in AssessmentIds(asmts) && d2.definitionId in AssessmentIds(asmts)
    requires RowKeyOf(d1) == RowKeyOf(d2)
    ensures Attributes(asmts, [d1, d2], cavs) == [BuildRow(RowKeyOf(d1), [d1, d2], asmts, cavs)]
  {
    ScopedAll([d1, d2], asmts);
    SameKeyPair(d1, d2);
  }

  /** Two definitions of one identity make one row key. */
  lemma SameKeyPair(d1: Definition, d2: Definition)
    requires RowKeyOf(d1) == RowKeyOf(d2)
    ensures RowKeys([d1, d2]) == [RowKeyOf(d1)]
  {
    var defs := [d1, d2];
    assert defs[..1] == [d1];
    assert defs[..1][..0] == [];
    assert RowKeys(defs[..1]) == [RowKeyOf(d1)];
  }

  /** The cells of a two-definition row are keyed by the two assessment ids. */
  lemma PairValueKeys(k: RowKey, d1: Definition, d2: Definition, asmts: seq<Assessment>, cavs: seq<AttributeValue>)
    requires InScope([d1, d2], asmts)
    requires RowKeyOf(d1) == k && RowKeyOf(d2) == k
    ensures RowValues(k, [d1, d2], asmts, cavs).Keys == {NatToString(d1.definitionId), NatToString(d2.definitionId)}
  {
    var defs := [d1, d2];
    var keys := RowValues(k, defs, asmts, cavs).Keys;
    assert NatToString(defs[0].definitionId) in keys;
    assert NatToString(defs[1].definitionId) in keys;
  }

  /**
   * Two definitions that differ in title, type, mandatory or default give two rows, each
   * holding only the cell of its own definition, whether or not they share an assessment.
   */
  lemma DifferentIdentitiesSeparate(asmts: seq<Assessment>, d1: Definition, d2: Definition, cavs: seq<AttributeValue>)
    requires d1.definitionId in AssessmentIds(asmts) && d2.definitionId in AssessmentIds(asmts)
    requires RowKeyOf(d1) != RowKeyOf(d2)
    ensures |Attributes(asmts, [d1, d2], cavs)| == 2
    ensures KeyOfRow(Attributes(asmts, [d1, d2], cavs)[0]) == RowKeyOf(d1)
    ensures KeyOfRow(Attributes(asmts, [d1, d2], cavs)[1]) == RowKeyOf(d2)
    ensures Attributes(asmts, [d1, d2], cavs)[0].values == map[NatToString(d1.definitionId) := CellOf(d1, asmts, cavs)]
    ensures Attributes(asmts, [d1, d2], cavs)[1].values == map[NatToString(d2.definitionId) := CellOf(d2, asmts, cavs)]
  {
    var defs := [d1, d2];
    ScopedAll(defs, asmts);
    OneRowPerDefinition(asmts, defs, cavs);
  }

  /**
   * When no two definitions share an identity (one assessment with several CADs, say), there
   * is one row per definition, in definition order, each holding that definition's cell.
   */
  lemma OneRowPerDefinition(asmts: seq<Assessment>, defs: seq<Definition>, cavs: seq<AttributeValue>)
    requires InScope(defs, asmts)
    requires forall i, j :: 0 <= i < j < |defs| ==> RowKeyOf(defs[i]) != RowKeyOf(defs[j])
    ensures |Attributes(asmts, defs, cavs)| == |defs|
    ensures forall i :: 0 <= i < |defs| ==>
              KeyOfRow(Attributes(asmts, defs, cavs)[i]) == RowKeyOf(defs[i]) &&
              Attributes(asmts, defs, cavs)[i].values == map[NatToString(defs[i].definitionId) := CellOf(defs[i], asmts, cavs)]
  {
    ScopedAll(defs, asmts);
    DistinctRowKeys(defs);
    forall i | 0 <= i < |defs|
      ensures Attributes(asmts, defs, cavs)[i].values == map[NatToString(defs[i].definitionId) := CellOf(defs[i], asmts, cavs)]
    {
      SingletonRow(asmts, defs, cavs, i);
    }
  }

  /** Under distinct identities, the row of the `i`th definition holds its one cell. */
  lemma SingletonRow(asmts: seq<Assessment>, defs: seq<Definition>, cavs: seq<AttributeValue>, i: nat)
    requires InScope(defs, asmts) && i < |defs|
    requires forall i, j :: 0 <= i < j < |defs| ==> RowKeyOf(defs[i]) != RowKeyOf(defs[j])
    ensures RowValues(RowKeyOf(defs[i]), defs, asmts, cavs) == map[NatToString(defs[i].definitionId) := CellOf(defs[i], asmts, cavs)]
  {
    var d := defs[i];
    var k := RowKeyOf(d);
    assert d in defs;
    forall e | e in defs && RowKeyOf(e) == k && e.definitionId == d.definitionId
      ensures e == d
    {
      var j :| 0 <= j < |defs| && defs[j] == e;
      assert i == j;
    }
    RowValuesCell(k, defs, asmts, cavs, d);
    var m := RowValues(k, defs, asmts, cavs);
    forall s | s in m ensures s == NatToString(d.definitionId) {
      var j :| 0 <= j < |defs| && RowKeyOf(defs[j]) == k && NatToString(defs[j].definitionId) == s;
      assert i == j;
    }
    assert m.Keys == {NatToString(d.definitionId)};
  }

  /** With pairwise distinct identities, the rows follow the definitions one for one. */
  lemma {:induction false} DistinctRowKeys(defs: seq<Definition>)
    requires forall i, j :: 0 <= i < j < |defs| ==> RowKeyOf(defs[i]) != RowKeyOf(defs[j])
    ensures |RowKeys(defs)| == |defs|
    ensures forall i :: 0 <= i < |defs| ==> RowKeys(defs)[i] == RowKeyOf(defs[i])
  {
    if |defs| > 0 {
      var prefix := defs[..|defs| - 1];
      assert forall i :: 0 <= i < |prefix| ==> prefix[i] == defs[i];
      DistinctRowKeys(prefix);
    }
  }

  // ---------------------------------------------------------------------------
  // The fixtures of the test suite

  /** Splits a comma-separated literal of the fixtures into its segments. */
  lemma SplitLiteral(xs: seq<string>, s: string)
    requires |xs| >= 1 && forall i :: 0 <= i < |xs| ==> ',' !in xs[i]
    requires Join(xs, ',') == s
    ensures Split(s, ',') == xs
  {
    SplitJoin(xs, ',');
  }

  /** The options "1,3,2" of the Dropdown fixture, where "1" sits at position 0. */
  lemma FixtureOptions()
    ensures Split("1,3,2", ',') == ["1", "3", "2"]
    ensures IndexOf(["1", "3", "2"], "1") == Some(0)
  {
    SplitLiteral(["1", "3", "2"], "1,3,2");
  }

  /**
   * A fixture mask "c,c": the selected option's code is `c`, and the cell fails on exactly
   * the requirements that code demands and the assessment lacks.
   */
  lemma FixtureMask(d: Definition, a: Assessment, c: char, code: nat)
    requires d.attributeType == Dropdown && d.multiChoiceOptions == Some("1,3,2")
    requires d.multiChoiceMandatory == Some([c, ',', c])
    requires IsDigit(c) && code == c as int - '0' as int
    ensures Preconditions(d, "1", a) ==
              (if FailedRequirements(code, a) == [] then None else Some(FailedRequirements(code, a)))
  {
    FixtureOptions();
    SplitLiteral([[c], [c]], [c, ',', c]);
    assert [c][..0] == [];
    assert DigitsValue([c]) == code;
    assert ParseDecimal([c]) == Some(code);
  }

  /** With no comment and no evidence, each single-bit code fails on its own requirement. */
  lemma SingleBitFailures(a: Assessment)
    requires |a.comments| == 0 && |a.evidences| == 0
    ensures FailedRequirements(4, a) == [UrlRequired]
    ensures FailedRequirements(2, a) == [EvidenceRequired]
    ensures FailedRequirements(1, a) == [CommentRequired]
  {
    assert EvidencesOfKind(a.evidences, UrlKind) == [];
    assert Demands(4, UrlRequired) && !Demands(4, EvidenceRequired) && !Demands(4, CommentRequired);
    assert !Demands(2, UrlRequired) && Demands(2, EvidenceRequired) && !Demands(2, CommentRequired);
    assert !Demands(1, UrlRequired) && !Demands(1, EvidenceRequired) && Demands(1, CommentRequired);
  }

  /**
   * The Dropdown fixture with the value "1" selected and no comment or evidence on the
   * assessment: masks "4,4", "2,2" and "1,1" fail on url, evidence and comment respectively.
   */
  lemma DropdownMaskExamples(d: Definition, a: Assessment)
    requires d.attributeType == Dropdown && d.multiChoiceOptions == Some("1,3,2")
    requires |a.comments| == 0 && |a.evidences| == 0
    ensures d.multiChoiceMandatory == Some("4,4") ==> Preconditions(d, "1", a) == Some([UrlRequired])
    ensures d.multiChoiceMandatory == Some("2,2") ==> Preconditions(d, "1", a) == Some([EvidenceRequired])
    ensures d.multiChoiceMandatory == Some("1,1") ==> Preconditions(d, "1", a) == Some([CommentRequired])
  {
    SingleBitFailures(a);
    if d.multiChoiceMandatory == Some("4,4") {
      FixtureMask(d, a, '4', 4);
    } else if d.multiChoiceMandatory == Some("2,2") {
      FixtureMask(d, a, '2', 2);
    } else if d.multiChoiceMandatory == Some("1,1") {
      FixtureMask(d, a, '1', 1);
    }
  }

  /** The same three verdicts as the response renders them: `['url']`, `['evidence']`, `['comment']`. */
  lemma DropdownMaskRendered(d: Definition, a: Assessment)
    requires d.attributeType == Dropdown && d.multiChoiceOptions == Some("1,3,2")
    requires |a.comments| == 0 && |a.evidences| == 0
    ensures d.multiChoiceMandatory == Some("4,4") ==> Rendered(Preconditions(d, "1", a)) == Some(["url"])
    ensures d.multiChoiceMandatory == Some("2,2") ==> Rendered(Preconditions(d, "1", a)) == Some(["evidence"])
    ensures d.multiChoiceMandatory == Some("1,1") ==> Rendered(Preconditions(d, "1", a)) == Some(["comment"])
  {
    DropdownMaskExamples(d, a);
    assert Rendered(Some([UrlRequired])).value == ["url"];
    assert Rendered(Some([EvidenceRequired])).value == ["evidence"];
    assert Rendered(Some([CommentRequired])).value == ["comment"];
  }

  /** Code 4 demands only a url, so a url evidence leaves nothing failed. */
  lemma UrlClearsFour(a: Assessment)
    requires exists e :: e in a.evidences && e.kind == UrlKind
    ensures FailedRequirements(4, a) == []
  {
    var e :| e in a.evidences && e.kind == UrlKind;
    assert e in EvidencesOfKind(a.evidences, UrlKind);
    assert !Demands(4, EvidenceRequired) && !Demands(4, CommentRequired);
  }

  /** Attaching a url evidence to the assessment clears the "4,4" verdict. */
  lemma DropdownMaskSatisfied(d: Definition, a: Assessment)
    requires d.attributeType == Dropdown && d.multiChoiceOptions == Some("1,3,2")
    requires d.multiChoiceMandatory == Some("4,4")
    requires exists e :: e in a.evidences && e.kind == UrlKind
    ensures Preconditions(d, "1", a).None?
  {
    UrlClearsFour(a);
    FixtureMask(d, a, '4', 4);
  }
}
