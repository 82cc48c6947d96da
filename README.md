# The GGRC custom-attribute matrix and comment rules, in Dafny

This project models two parts of GGRC, the governance, risk and compliance application.

**The bulk custom-attribute matrix.** The endpoint `/api/bulk_operations/cavs/search` takes a set of assessments and returns a matrix. Its inputs are the assessments a query resolved to, each assessment's local custom attribute definitions (CADs) and the recorded values (CAVs). Its output has two parts:
- `attributes`: one row per distinct (title, attribute_type, mandatory, default_value). Each row maps the id of every assessment that has a definition with that identity to a cell.
- `assessments`: a summary of every assessment, in query order, with its url and file evidence counts.

A cell holds four things:
- The recorded value, or none when nothing is recorded.
- The referenced person, for Map:Person values.
- The definition's own fields.
- For Dropdown and Multiselect values, the requirements the selected option demands and the assessment still lacks. Requirements are read from the `multi_choice_mandatory` bit mask: 1 = comment, 2 = evidence, 4 = url.

**The comment model** (`src/ggrc/models/comment.py`):
- the `recipients` validator;
- the two reindex rules a comment registers;
- the `header_url_link` property.

Module `Wrappers` holds `Option` and `Result`. Module `Strings` holds Python's `str.split`, `",".join`, and decimal formatting and parsing, with their round trips. Module `Matrix` holds the matrix. Module `Comments` holds the comment model. `GetObjectsToReindex` keeps the two loops of `get_objects_to_reindex` as loops with invariants (methods `GroupByClass` and `SelectReindexable`). Everything else is pure functions and lemmas, as the source is.

The matrix's server-side implementation is not part of this model. Its behaviour is taken from its integration tests, `test/integration/ggrc/bulk_operations/test_matrix.py`, whose expected responses it reproduces. The fixtures with a lemma of their own are `test_simple_response` (`UnansweredCell`), `test_same_cads_one_with_value` (`SameIdentityCollapses`), `test_diff_cads_by_unique_fields` and `test_diff_cads_by_attribute_type` (`DifferentIdentitiesSeparate`), `test_map_person_value` (`MapPersonCell`), `test_assessment_no_cads` (`NoDefinitionsNoRows`), `test_two_assessments_one_no_cads` (`AssessmentWithoutDefinitions`), `test_one_assessments_many_cads` (`OneRowPerDefinition`), `test_precondition_failed` (`DropdownMaskExamples`, `DropdownMaskRendered`) and `test_asmt_has_evidences` (`EvidenceAttached`, `DropdownMaskSatisfied`). Each is quantified over every definition and assessment shaped like the fixture. `test_order_by` is covered by the contract of `Summaries`, which keeps the query order of the assessments.

## Model

| member | source | states |
|---|---|---|
| Matrix.Summaries | test/integration/ggrc/bulk_operations/test_matrix.py:151-161 | one summary per assessment, in query order (so the descending-title order of `test_order_by` carries over); each summary copies the assessment's id, slug, title, status and type; its counts are the url and file evidences, and together they are all of them |
| Matrix.EvidenceKindsPartition | test/integration/ggrc/bulk_operations/test_matrix.py:151-161 | `urls_count + files_count` equals the number of evidences |
| Matrix.EvidencesOfKind | test/integration/ggrc/bulk_operations/test_matrix.py:158-159 | `evidences_url` / `evidences_file` hold exactly the evidences of that kind |
| Matrix.SummaryOf | test/integration/ggrc/bulk_operations/test_matrix.py:153-161 | a summary's two counts add up to the assessment's evidence count |
| Matrix.FindAssessment | test/integration/ggrc/bulk_operations/test_matrix.py:182-208 | finds the assessment with the id a definition points at, present iff some queried assessment has it |
| Matrix.FindValue | test/integration/ggrc/bulk_operations/test_matrix.py:244-293 | finds the value recorded for (definition, assessment), absent iff none is recorded |
| Matrix.IndexOf | test/integration/ggrc/bulk_operations/test_matrix.py:545-588 | the first position of the selected option among the comma-separated options, none iff it is not listed |
| Matrix.FailedRequirements | test/integration/ggrc/bulk_operations/test_matrix.py:545-588 | a requirement is listed iff the code's bit for it (1 comment, 2 evidence, 4 url) is set and the assessment lacks that artifact; listed in the order comment, evidence, url |
| Matrix.Preconditions | test/integration/ggrc/bulk_operations/test_matrix.py:545-588 | `preconditions_failed` is set only for Dropdown/Multiselect with both option fields present; a set verdict is nonempty and names only missing artifacts; an assessment with every artifact gets none |
| Matrix.PreconditionsNeedDecoding | test/integration/ggrc/bulk_operations/test_matrix.py:545-588 | a verdict is given only when the mask is nonempty, the selected option is listed, its position lies inside the mask and the code there is a number; the verdict is then that code's failures, so every undecodable selection gives null |
| Matrix.PreconditionsDecoded | test/integration/ggrc/bulk_operations/test_matrix.py:545-588 | once the selected option's code is decoded, the verdict is none iff every demanded artifact is present, and otherwise lists exactly the demanded, missing ones |
| Matrix.MakeCell | test/integration/ggrc/bulk_operations/test_matrix.py:182-208 | a cell carries its definition's ids and option fields; its value is null iff no value is recorded, in which case the person and the verdict are null too; Map:Person shows "Person" and the parsed person id; other types show the stored string and the option verdict |
| Matrix.Scoped | test/integration/ggrc/bulk_operations/test_matrix.py:182-208 | keeps exactly the definitions that belong to a queried assessment |
| Matrix.ScopedAll | test/integration/ggrc/bulk_operations/test_matrix.py:182-208 | when every definition is in scope, none is dropped |
| Matrix.RowKeys | test/integration/ggrc/bulk_operations/test_matrix.py:295-416 | the row identities have no repeats, and an identity is present iff some definition has it |
| Matrix.RowKeysFirstSeen | test/integration/ggrc/bulk_operations/test_matrix.py:295-416 | the row identities come in first-seen order: of two listed identities, the earlier one has a definition before any definition of the later one |
| Matrix.Attributes | test/integration/ggrc/bulk_operations/test_matrix.py:295-416 | the `attributes` list: no two rows share an identity |
| Matrix.RowsFirstSeen | test/integration/ggrc/bulk_operations/test_matrix.py:496-543 | the rows of the response follow the first-seen order of the in-scope definitions |
| Matrix.BuildMatrix | test/integration/ggrc/bulk_operations/test_matrix.py:163-171 | the endpoint's response: one summary per queried assessment, under its id and in query order, beside rows of pairwise distinct identities |
| Matrix.CellOf | test/integration/ggrc/bulk_operations/test_matrix.py:195-203 | the cell of a definition carries its ids, and its value is null iff no value is recorded for that definition on its assessment |
| Matrix.RowValues | test/integration/ggrc/bulk_operations/test_matrix.py:244-293 | a row's keys are exactly the ids of the assessments that have a definition of that identity |
| Matrix.BuildRow | test/integration/ggrc/bulk_operations/test_matrix.py:265-269 | a row shows the title, mandatory, attribute type and default value it is keyed by |
| Matrix.RowCellsExact | test/integration/ggrc/bulk_operations/test_matrix.py:244-293 | an assessment has a cell in a row iff it is queried and has a definition of the row's identity |
| Matrix.DefinitionHasRow | test/integration/ggrc/bulk_operations/test_matrix.py:182-208 | every in-scope definition has a row of its identity holding a cell for its assessment |
| Matrix.NoEmptyRows | test/integration/ggrc/bulk_operations/test_matrix.py:462-494 | no row has zero cells: a row appears only because some definition gave it a cell |
| Matrix.NoDefinitionsNoRows | test/integration/ggrc/bulk_operations/test_matrix.py:454-460 | when no definition belongs to a queried assessment, `attributes` is `[]` |
| Matrix.RowValuesCell | test/integration/ggrc/bulk_operations/test_matrix.py:244-293 | the cell under an assessment's id is the one its definition yields |
| Matrix.CellOfDefinition | test/integration/ggrc/bulk_operations/test_matrix.py:244-293 | in the response row of a definition's identity, the cell for its assessment is the one that definition yields |
| Matrix.UnansweredCell | test/integration/ggrc/bulk_operations/test_matrix.py:173-208 | a definition without a recorded value gives a cell with null value, person and verdict, carrying the definition's ids and option fields |
| Matrix.SameIdentityCollapses | test/integration/ggrc/bulk_operations/test_matrix.py:244-293 | two definitions of one identity on two assessments give exactly one row with exactly those two cells, each from its own definition |
| Matrix.DifferentIdentitiesSeparate | test/integration/ggrc/bulk_operations/test_matrix.py:295-416 | two definitions differing in title, mandatory, attribute type or default value give two rows, in order, each with its one cell |
| Matrix.MapPersonCell | test/integration/ggrc/bulk_operations/test_matrix.py:418-452 | a Map:Person value referencing person p shows "Person", attribute_person_id p and no verdict |
| Matrix.AssessmentWithoutDefinitions | test/integration/ggrc/bulk_operations/test_matrix.py:462-494 | an assessment without definitions has no cell in any row but still has its summary |
| Matrix.OneRowPerDefinition | test/integration/ggrc/bulk_operations/test_matrix.py:496-543 | definitions of pairwise different identities give one row each, in order, each holding that definition's single cell |
| Matrix.DistinctRowKeys | test/integration/ggrc/bulk_operations/test_matrix.py:496-543 | pairwise different identities are listed one per definition, in order |
| Matrix.FixtureOptions | test/integration/ggrc/bulk_operations/test_matrix.py:76-87 | the Dropdown fixture's options "1,3,2" split into three and put "1" at position 0 |
| Matrix.DropdownMaskExamples | test/integration/ggrc/bulk_operations/test_matrix.py:545-588 | with "1" selected on an assessment with no comment or evidence, masks "4,4", "2,2", "1,1" fail on url, evidence and comment respectively |
| Matrix.RequirementNameInjective | test/integration/ggrc/bulk_operations/test_matrix.py:546-548 | the names "comment", "evidence" and "url" tell the requirements apart |
| Matrix.Rendered | test/integration/ggrc/bulk_operations/test_matrix.py:546-548 | `preconditions_failed` as the response shows it: null iff no verdict, otherwise the requirement names in the same order |
| Matrix.DropdownMaskRendered | test/integration/ggrc/bulk_operations/test_matrix.py:545-588 | the fixture's three verdicts render as `['url']`, `['evidence']` and `['comment']` |
| Matrix.EvidenceAttached | test/integration/ggrc/bulk_operations/test_matrix.py:590-620 | attaching an evidence raises the count of its own kind by one and leaves the other kind's evidences as they were |
| Matrix.DropdownMaskSatisfied | test/integration/ggrc/bulk_operations/test_matrix.py:590-606 | once a url evidence is attached, the "4,4" cell has no failed preconditions |
| Strings.Split | src/ggrc/models/comment.py:65 | Python's `str.split(",")`: always at least one segment |
| Strings.Join | src/ggrc/models/comment.py:70 | `",".join`: two or more names put a separator in the result, and every other character comes from some name |
| Strings.SplitJoin | src/ggrc/models/comment.py:65-70 | splitting a join of separator-free segments gives back the segments |
| Strings.JoinSplit | src/ggrc/models/comment.py:65-70 | joining the segments of a split gives back the string |
| Strings.NatToString | test/integration/ggrc/bulk_operations/test_matrix.py:271 | `str(id)`: a nonempty string of digits that starts with '0' only for 0 |
| Strings.NatToStringCanonical | test/integration/ggrc/bulk_operations/test_matrix.py:271 | `str(n)` is the only spelling of n without a leading zero, so the keys of `values` are exactly the decimal ids |
| Strings.ParseDecimal | test/integration/ggrc/bulk_operations/test_matrix.py:418-452 | a string parses iff it is a nonempty run of digits |
| Strings.ParseNatToString | test/integration/ggrc/bulk_operations/test_matrix.py:418-452 | parsing `str(n)` gives n back |
| Strings.NatToStringInjective | test/integration/ggrc/bulk_operations/test_matrix.py:244-293 | different assessment ids give different keys in `values` |
| Comments.NonEmpty | src/ggrc/models/comment.py:65 | keeps exactly the nonempty segments |
| Comments.Dedupe | src/ggrc/models/comment.py:65 | the `set(...)` of the names: no repeats, the same names |
| Comments.DedupeDistinct | src/ggrc/models/comment.py:65 | names without repeats are left as they are |
| Comments.Names | src/ggrc/models/comment.py:64-65 | the distinct nonempty comma-separated names of the value |
| Comments.ValidateRecipients | src/ggrc/models/comment.py:54-78 | no value gives ""; an accepted value has only valid names; a rejection happens only for a given value, carries the allowed set and exactly the nonempty names, and names at least one invalid one |
| Comments.ValidateEmpty | src/ggrc/models/comment.py:71-72 | the result is `""` iff the value is missing or holds no nonempty name |
| Comments.ValidateRejects | src/ggrc/models/comment.py:73-78 | the value is rejected iff some nonempty name is not a valid recipient, and the error carries the set of names |
| Comments.ValidateOutput | src/ggrc/models/comment.py:67-70 | an accepted, nonempty result lists every nonempty input name once and only valid names |
| Comments.NamesRoundTrip | src/ggrc/models/comment.py:67-70 | the names survive the join and a later split unchanged |
| Comments.ValidateIdempotent | src/ggrc/models/comment.py:54-78 | validating an accepted result again accepts it unchanged |
| Comments.NamesOfJoin | src/ggrc/models/comment.py:64-70 | joining distinct, nonempty, comma-free names and reading them back returns them |
| Comments.ValidateJoined | src/ggrc/models/comment.py:64-70 | a join of distinct valid names is accepted unchanged |
| Comments.DefaultRecipientsAccepted | src/ggrc/models/comment.py:80-83 | the column default passes the validator unchanged against `VALID_RECIPIENTS` |
| Comments.DefaultRecipientsText | src/ggrc/models/comment.py:80-83 | the default is "Assignees,Creators,Verifiers" |
| Comments.UntrimmedRejected | src/ggrc/models/comment.py:64-67 | names are not trimmed: " Admin" is rejected |
| Comments.ReindexByRelationship | src/ggrc/models/comment.py:157-167 | no comment end gives nothing; a comment destination reindexes the source, else a comment source reindexes the destination, only if that end is Indexed or Commentable; at most one object |
| Comments.ReindexedEndIsEligible | src/ggrc/models/comment.py:157-167 | whatever is reindexed is an end of the relationship and Indexed or Commentable |
| Comments.RelatedPairs | src/ggrc/models/comment.py:172-182 | the union of both queries: (type, id) is listed iff some relationship links it to the comment in either direction |
| Comments.IdsOf | src/ggrc/models/comment.py:183-185 | the ids paired with a class |
| Comments.GroupByClass | src/ggrc/models/comment.py:183-185 | `klass_dict` has a key iff some related pair has that class, and each key maps to exactly the ids of that class; the key order has no repeats |
| Comments.SelectReindexable | src/ggrc/models/comment.py:187-195 | one query per key whose model is known and is Indexed, Commentable or ExternalCommentable, with every id of that class; no other queries and no repeats |
| Comments.GetObjectsToReindex | src/ggrc/models/comment.py:170-196 | every related object of a reindexable class is covered; each query is for one reindexable class with exactly its related ids, none empty, no class twice |
| Comments.HeaderUrlLink | src/ggrc/models/comment.py:242-251 | the link is "proposal_link" iff the comment comes from a Proposal still in its proposed state; a Proposal without an initiator gives None (the `AttributeError`); otherwise "" |

## Left out

- HTTP, the query language, login, permissions and the JSON encoding of the response are left out. The model starts from the resolved assessments, definitions and values.
- The ordering of assessments (`order_by`) belongs to the query engine. The model takes the assessments already in query order.
- Rows are in order of each identity's first definition (`RowKeysFirstSeen`). The tests fix the order only through their expected lists.
- Matrix.Preconditions: the tests assert only single-bit masks whose two positions agree. The model reads the code at the selected option's position, so a mask shorter than the options gives no verdict only when the selected position lies beyond it. A nonnumeric code also gives no verdict.
- Matrix.Preconditions: Multiselect is treated like Dropdown with a single selected string. Splitting a multi-value selection is not modelled.
- Matrix.FailedRequirements: "evidence" (bit 2) counts any evidence, of either kind. "url" (bit 4) counts url evidences only.
- Matrix.DropdownMaskSatisfied: `test_asmt_has_evidences` asserts only the summary counts after a url evidence is attached. The cleared verdict follows from the evaluator's rule, not from that test's assertion.
- Matrix.MakeCell: a Map:Person cell shows the fixed label "Person" and the id parsed from `attribute_object_id`. The person object itself is not loaded.
- When two values are recorded for the same (definition, assessment), the first one in the value list is used.
- When two definitions of one identity belong to the same assessment, the later definition's cell is the one kept.
- Strings.ParseDecimal accepts only plain digits. Python's `int()` also accepts a sign and surrounding whitespace.
- Comments.ValidateRecipients: Python set iteration order is not modelled. The accepted names are joined in first-occurrence order, where Python's order is unspecified. The `ValueError` message text is not modelled; the error carries the set of names and the allowed set.
- Comments.ValidateRecipients: a non-string truthy value, which Python would fail on at `split`, is out of the model's types.
- Comments.GetObjectsToReindex: `defaultdict` and `iteritems` order is modelled as first-seen order. `inflector.get_model` and `issubclass` become a registry from class name to mixins; a class missing from the registry is skipped. The queries are returned as (class, ids) descriptors; loading and chaining their rows is database I/O.
- Comments.ReindexByRelationship: the ORM loading of `relationship.source` and `destination` is a given `Option<Instance>`. A missing end is never reindexed.
- Comments.HeaderUrlLink: a Proposal comment without an initiator raises `AttributeError` in Python; the model returns `None` for it. `STATES.PROPOSED` is a field of the initiator.
- The ORM columns, relationships, eager and indexed queries of `comment.py`, the `ExternalComment` class, and the `test_assessment.py` and `test_risk.py` flows are outside the modelled core. So is the 2015 migration `20150915094313_5d453def75d_decouple_section_and_clause_remove_.py`.
