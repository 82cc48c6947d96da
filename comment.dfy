/**
 * The logic of the comment model: the `recipients` validator of commentable objects,
 * the two reindex rules a comment registers (by relationship and by comment), and the
 * `header_url_link` property of a comment.
 */
module Comments {
  import opened Wrappers
  import opened Strings

  // ---------------------------------------------------------------------------
  // Recipients

  /** `Commentable.VALID_RECIPIENTS`; subclasses override it, so the validator takes the set. */
  const BaseValidRecipients: set<string> :=
    {"Assignees", "Creators", "Verifiers", "Admin", "Primary Contacts", "Secondary Contacts"}

  /** The column default of `recipients`, "Assignees,Creators,Verifiers". */
  const DefaultRecipientNames: seq<string> := ["Assignees", "Creators", "Verifiers"]
  const DefaultRecipients: string := Join(DefaultRecipientNames, ',')

  /** The `ValueError` raised for a name outside the valid set; it carries all given names. */
  datatype RecipientsError = InvalidRecipients(names: set<string>, allowed: set<string>)

  /** The segments that are not empty, in order. */
  function NonEmpty(xs: seq<string>): (r: seq<string>)
    ensures forall x :: x in r <==> x in xs && x != ""
  {
    if |xs| == 0 then []
    else (if xs[0] != "" then [xs[0]] else []) + NonEmpty(xs[1..])
  }

  predicate Distinct(xs: seq<string>)
  {
    forall i, j :: 0 <= i < j < |xs| ==> xs[i] != xs[j]
  }

  /** The elements of `xs` in order of first occurrence, each once. */
  function Dedupe(xs: seq<string>): (r: seq<string>)
    ensures Distinct(r)
    ensures forall x :: x in r <==> x in xs
    decreases |xs|
  {
    if |xs| == 0 then []
    else
      var prefix := xs[..|xs| - 1];
      var last := xs[|xs| - 1];
      assert xs == prefix + [last];
      var r := Dedupe(prefix);
      if last in r then r else r + [last]
  }

  /** A sequence that is already duplicate-free is its own first-occurrence order. */
  lemma {:induction false} DedupeDistinct(xs: seq<string>)
    requires Distinct(xs)
    ensures Dedupe(xs) == xs
    decreases |xs|
  {
    if |xs| > 0 {
      var prefix := xs[..|xs| - 1];
      assert forall i :: 0 <= i < |prefix| ==> prefix[i] == xs[i];
      DedupeDistinct(prefix);
      assert xs == prefix + [xs[|xs| - 1]];
    }
  }

  lemma {:induction false} NonEmptyKeeps(xs: seq<string>)
    requires forall i :: 0 <= i < |xs| ==> xs[i] != ""
    ensures NonEmpty(xs) == xs
  {
    if |xs| > 0 {
      NonEmptyKeeps(xs[1..]);
      assert [xs[0]] + xs[1..] == xs;
    }
  }

  /** The distinct non-empty names of a comma-separated value, in first-occurrence order. */
  function Names(value: string): (r: seq<string>)
    ensures Distinct(r)
    ensures forall x :: x in r <==> x in Split(value, ',') && x != ""
  {
    Dedupe(NonEmpty(Split(value, ',')))
  }

  /**
   * `Commentable.validate_recipients`. Python joins a set, whose order is unspecified;
   * the model joins the names in first-occurrence order.
   */
  function ValidateRecipients(value: Option<string>, valid: set<string>): (r: Result<string, RecipientsError>)
    ensures value.None? ==> r == Ok("")
    ensures r.Ok? && value.Some? ==> forall x :: x in Names(value.value) ==> x in valid
    ensures r.Err? ==> value.Some? && r.error.allowed == valid
    ensures r.Err? ==> forall x :: x in r.error.names <==> x in Split(value.value, ',') && x != ""
    ensures r.Err? ==> exists x :: x in r.error.names && x !in valid
  {
    if value.None? || value.value == "" then Ok("")
    else
      var names := Names(value.value);
      if |names| == 0 then Ok("")
      else if forall x :: x in names ==> x in valid then Ok(Join(names, ','))
      else Err(InvalidRecipients((set x | x in names), valid))
  }

  /** The validator gives "" exactly for no value, an empty value, or one made of commas only. */
  lemma ValidateEmpty(value: Option<string>, valid: set<string>)
    ensures ValidateRecipients(value, valid) == Ok("") <==>
              value.None? || forall s :: s in Split(value.value, ',') ==> s == ""
  {
    if value.Some? && value.value != "" {
      var names := Names(value.value);
      if |names| > 0 {
        assert names[0] in Split(value.value, ',');
        JoinNonEmpty(names);
      } else {
        assert forall s :: s in Split(value.value, ',') && s != "" ==> s in names;
      }
    } else if value.Some? {
      assert Split("", ',') == [""];
    }
  }

  /** Joining at least one non-empty name never gives the empty string. */
  lemma JoinNonEmpty(xs: seq<string>)
    requires |xs| >= 1 && xs[0] != ""
    ensures Join(xs, ',') != ""
  {
    if |xs| > 1 {
      assert |Join(xs, ',')| >= |xs[0]|;
    }
  }

  /** The validator rejects exactly the values with a non-empty segment outside the valid set. */
  lemma ValidateRejects(value: string, valid: set<string>)
    ensures ValidateRecipients(Some(value), valid).Err? <==>
              exists s :: s in Split(value, ',') && s != "" && s !in valid
    ensures ValidateRecipients(Some(value), valid).Err? ==>
              ValidateRecipients(Some(value), valid).error.names == set s | s in Split(value, ',') && s != ""
  {
    var names := Names(value);
    if exists s :: s in Split(value, ',') && s != "" && s !in valid {
      var s :| s in Split(value, ',') && s != "" && s !in valid;
      assert s in names;
    }
  }

  /**
   * On success the output, split on ",", holds no duplicate and, as a set, equals the
   * non-empty segments of the input, all of them valid.
   */
  lemma ValidateOutput(value: string, valid: set<string>, out: string)
    requires ValidateRecipients(Some(value), valid) == Ok(out)
    requires out != ""
    ensures Distinct(Split(out, ','))
    ensures forall s :: s in Split(out, ',') <==> s in Split(value, ',') && s != ""
    ensures forall s :: s in Split(out, ',') ==> s in valid
  {
    var names := Names(value);
    NamesRoundTrip(value);
  }

  /** The names of a value contain no comma, so the joined output splits back into them. */
  lemma NamesRoundTrip(value: string)
    requires |Names(value)| >= 1
    ensures Split(Join(Names(value), ','), ',') == Names(value)
  {
    var names := Names(value);
    SplitSegmentsFree(value, ',');
    forall i | 0 <= i < |names| ensures ',' !in names[i] {
      assert names[i] in Split(value, ',');
    }
    SplitJoin(names, ',');
  }

  /** Validating an accepted output again returns it unchanged: normalisation is stable. */
  lemma ValidateIdempotent(value: Option<string>, valid: set<string>, out: string)
    requires ValidateRecipients(value, valid) == Ok(out)
    ensures ValidateRecipients(Some(out), valid) == Ok(out)
  {
    if out != "" {
      var names := Names(value.value);
      SplitSegmentsFree(value.value, ',');
      forall i | 0 <= i < |names| ensures names[i] != "" && ',' !in names[i] && names[i] in valid {
        assert names[i] in names;
      }
      ValidateJoined(names, valid);
    }
  }

  /** A comma-free, duplicate-free list of names is read back from its join unchanged. */
  lemma NamesOfJoin(xs: seq<string>)
    requires |xs| >= 1 && Distinct(xs)
    requires forall i :: 0 <= i < |xs| ==> xs[i] != "" && ',' !in xs[i]
    ensures Names(Join(xs, ',')) == xs
  {
    SplitJoin(xs, ',');
    NonEmptyKeeps(xs);
    DedupeDistinct(xs);
  }

  /** A duplicate-free list of valid names, joined by commas, is accepted as it is. */
  lemma ValidateJoined(xs: seq<string>, valid: set<string>)
    requires |xs| >= 1 && Distinct(xs)
    requires forall i :: 0 <= i < |xs| ==> xs[i] != "" && ',' !in xs[i] && xs[i] in valid
    ensures ValidateRecipients(Some(Join(xs, ',')), valid) == Ok(Join(xs, ','))
  {
    NamesOfJoin(xs);
    JoinNonEmpty(xs);
  }

  /** The column default is accepted by the base set and kept as it is. */
  lemma DefaultRecipientsAccepted()
    ensures ValidateRecipients(Some(DefaultRecipients), BaseValidRecipients) == Ok(DefaultRecipients)
  {
    ValidateJoined(DefaultRecipientNames, BaseValidRecipients);
  }

  lemma DefaultRecipientsText()
    ensures DefaultRecipients == "Assignees,Creators,Verifiers"
  {
  }

  /** Segments are not trimmed: " Admin" is not a valid recipient. */
  lemma UntrimmedRejected()
    ensures ValidateRecipients(Some(" Admin"), BaseValidRecipients).Err?
  {
    SplitFree(" Admin", ',');
    assert " Admin" in Split(" Admin", ',');
    assert " Admin" !in BaseValidRecipients;
    ValidateRejects(" Admin", BaseValidRecipients);
  }

  // ---------------------------------------------------------------------------
  // Reindexing

  /** The mixins that decide whether an object (or a model class) is reindexed. */
  datatype Mixin = Indexed | Commentable | ExternalCommentable

  datatype Instance = Instance(typeName: string, id: nat, mixins: set<Mixin>)

  /** A relationship together with the objects at its two ends, when they still exist. */
  datatype Relationship = Relationship(
    sourceType: string, sourceId: nat, destinationType: string, destinationId: nat,
    source: Option<Instance>, destination: Option<Instance>)

  /** `Comment.__name__`. */
  const CommentType := "Comment"

  /** `isinstance(instance, (Indexed, Commentable))`; `None` is an instance of neither. */
  predicate IndexedOrCommentable(x: Option<Instance>)
  {
    x.Some? && (Indexed in x.value.mixins || Commentable in x.value.mixins)
  }

  /** `reindex_by_relationship`: the non-comment end of a relationship touching a comment. */
  function ReindexByRelationship(rel: Relationship): (r: seq<Instance>)
    ensures |r| <= 1
    ensures rel.destinationType != CommentType && rel.sourceType != CommentType ==> r == []
    ensures rel.destinationType == CommentType ==>
              r == (if IndexedOrCommentable(rel.source) then [rel.source.value] else [])
    ensures rel.destinationType != CommentType && rel.sourceType == CommentType ==>
              r == (if IndexedOrCommentable(rel.destination) then [rel.destination.value] else [])
  {
    var instance :=
      if rel.destinationType == CommentType then Some(rel.source)
      else if rel.sourceType == CommentType then Some(rel.destination)
      else None;
    match instance
    case None => []
    case Some(x) => if IndexedOrCommentable(x) then [x.value] else []
  }

  /** Whatever the rule returns is an end of the relationship and is indexed or commentable. */
  lemma ReindexedEndIsEligible(rel: Relationship, x: Instance)
    requires x in ReindexByRelationship(rel)
    ensures rel.source == Some(x) || rel.destination == Some(x)
    ensures Indexed in x.mixins || Commentable in x.mixins
  {
  }

  /** A row of the relationships table, without the objects it links. */
  datatype RelationshipRow = RelationshipRow(sourceType: string, sourceId: nat, destinationType: string, destinationId: nat)

  /** `p` is the far end of `rel`, seen from (objType, objId) at either of its ends. */
  predicate RelatesTo(rel: RelationshipRow, objType: string, objId: nat, p: (string, nat))
  {
    || (rel.sourceType == objType && rel.sourceId == objId && p == (rel.destinationType, rel.destinationId))
    || (rel.destinationType == objType && rel.destinationId == objId && p == (rel.sourceType, rel.sourceId))
  }

  /**
   * `source_qs.union(destination_qs)`: the (type, id) of every object related to
   * (objType, objId), in either direction.
   */
  function RelatedPairs(rels: seq<RelationshipRow>, objType: string, objId: nat): (r: seq<(string, nat)>)
    ensures forall p :: p in r <==> (exists rel :: rel in rels && RelatesTo(rel, objType, objId, p))
  {
    if |rels| == 0 then []
    else
      var rel := rels[0];
      var here :=
        (if rel.sourceType == objType && rel.sourceId == objId then [(rel.destinationType, rel.destinationId)] else [])
        + (if rel.destinationType == objType && rel.destinationId == objId then [(rel.sourceType, rel.sourceId)] else []);
      var rest := RelatedPairs(rels[1..], objType, objId);
      assert forall p :: p in here <==> RelatesTo(rel, objType, objId, p);
      assert forall x :: x in rels <==> x == rel || x in rels[1..];
      here + rest
  }

  /** The ids paired with one class name. */
  function IdsOf(pairs: seq<(string, nat)>, klass: string): (r: set<nat>)
    ensures forall id :: id in r <==> (klass, id) in pairs
  {
    if |pairs| == 0 then {}
    else
      var prefix := pairs[..|pairs| - 1];
      var last := pairs[|pairs| - 1];
      assert pairs == prefix + [last];
      IdsOf(prefix, klass) + (if last.0 == klass then {last.1} else {})
  }

  /** `inflector.get_model(klass)` found a model that subclasses one of the indexing mixins. */
  predicate Reindexable(registry: map<string, set<Mixin>>, klass: string)
  {
    klass in registry &&
    (Indexed in registry[klass] || Commentable in registry[klass] || ExternalCommentable in registry[klass])
  }

  /** One `model.query.filter(model.id.in_(ids))` of `get_objects_to_reindex`. */
  datatype Query = Query(model: string, ids: set<nat>)

  /**
   * The first loop of `get_objects_to_reindex`: `klass_dict[klass].add(object_id)` over the
   * related pairs. `order` lists the classes of the dictionary, each once, as first seen.
   */
  method GroupByClass(pairs: seq<(string, nat)>) returns (klassDict: map<string, set<nat>>, order: seq<string>)
    ensures forall k :: k in klassDict <==> k in order
    ensures forall a, b :: 0 <= a < b < |order| ==> order[a] != order[b]
    ensures forall k :: k in klassDict <==> exists id :: (k, id) in pairs
    ensures forall k :: k in klassDict ==> klassDict[k] == IdsOf(pairs, k)
  {
    klassDict := map[];
    order := [];
    var i := 0;
    while i < |pairs|
      invariant 0 <= i <= |pairs|
      invariant forall k :: k in klassDict <==> k in order
      invariant forall a, b :: 0 <= a < b < |order| ==> order[a] != order[b]
      invariant forall k :: k in klassDict <==> exists id :: (k, id) in pairs[..i]
      invariant forall k :: k in klassDict ==> klassDict[k] == IdsOf(pairs[..i], k)
    {
      var (klass, id) := pairs[i];
      assert pairs[..i + 1] == pairs[..i] + [pairs[i]];
      if klass in klassDict {
        klassDict := klassDict[klass := klassDict[klass] + {id}];
      } else {
        assert IdsOf(pairs[..i], klass) == {};
        klassDict := klassDict[klass := {id}];
        order := order + [klass];
      }
      i := i + 1;
    }
    assert pairs[..i] == pairs;
  }

  /**
   * `get_objects_to_reindex`: groups the related (type, id) pairs per class, skips the
   * classes the registry does not know or that are not indexed or commentable, and
   * returns one query per remaining class.
   */
  method GetObjectsToReindex(objType: string, objId: nat, rels: seq<RelationshipRow>, registry: map<string, set<Mixin>>)
    returns (queries: seq<Query>)
    ensures forall a :: 0 <= a < |queries| ==>
              Reindexable(registry, queries[a].model) &&
              queries[a].ids == IdsOf(RelatedPairs(rels, objType, objId), queries[a].model) &&
              queries[a].ids != {}
    ensures forall a, b :: 0 <= a < b < |queries| ==> queries[a].model != queries[b].model
    ensures forall klass, id :: (klass, id) in RelatedPairs(rels, objType, objId) && Reindexable(registry, klass) ==>
              exists a :: 0 <= a < |queries| && queries[a].model == klass
  {
    var pairs := RelatedPairs(rels, objType, objId);
    var klassDict, order := GroupByClass(pairs);
    queries := SelectReindexable(pairs, klassDict, order, registry);
  }

  /**
   * The second loop of `get_objects_to_reindex`: one query per grouped class whose model
   * is known and indexed or commentable, in the order of `order`.
   */
  method SelectReindexable(pairs: seq<(string, nat)>, klassDict: map<string, set<nat>>, order: seq<string>,
                           registry: map<string, set<Mixin>>)
    returns (queries: seq<Query>)
    requires forall k :: k in klassDict <==> k in order
    requires forall a, b :: 0 <= a < b < |order| ==> order[a] != order[b]
    requires forall k :: k in klassDict <==> exists id :: (k, id) in pairs
    requires forall k :: k in klassDict ==> klassDict[k] == IdsOf(pairs, k)
    ensures forall a :: 0 <= a < |queries| ==>
              Reindexable(registry, queries[a].model) &&
              queries[a].ids == IdsOf(pairs, queries[a].model) && queries[a].ids != {}
    ensures forall a, b :: 0 <= a < b < |queries| ==> queries[a].model != queries[b].model
    ensures forall klass, id :: (klass, id) in pairs && Reindexable(registry, klass) ==>
              exists a :: 0 <= a < |queries| && queries[a].model == klass
  {
    queries := [];
    var j := 0;
    while j < |order|
      invariant 0 <= j <= |order|
      invariant forall a :: 0 <= a < |queries| ==>
                  Reindexable(registry, queries[a].model) && queries[a].model in order[..j] &&
                  queries[a].ids == IdsOf(pairs, queries[a].model) && queries[a].ids != {}
      invariant forall a, b :: 0 <= a < b < |queries| ==> queries[a].model != queries[b].model
      invariant forall b :: 0 <= b < j && Reindexable(registry, order[b]) ==>
                  exists a :: 0 <= a < |queries| && queries[a].model == order[b]
    {
      var klass := order[j];
      assert klass !in order[..j];
      assert klass in order;
      if Reindexable(registry, klass) {
        var id :| (klass, id) in pairs;
        assert id in klassDict[klass];
        ghost var before := queries;
        queries := queries + [Query(klass, klassDict[klass])];
        assert forall a :: 0 <= a < |before| ==> queries[a] == before[a];
        assert queries[|before|].model == order[j];
      }
      assert order[..j + 1] == order[..j] + [klass];
      j := j + 1;
    }
    forall klass, id | (klass, id) in pairs && Reindexable(registry, klass)
      ensures exists a :: 0 <= a < |queries| && queries[a].model == klass
    {
      assert exists i :: (klass, i) in pairs;
      assert klass in order;
      var b :| 0 <= b < |order| && order[b] == klass;
    }
  }

  // ---------------------------------------------------------------------------
  // Header link

  /** The initiator of a comment, read through its polymorphic relationship. */
  datatype Initiator = Initiator(status: string, proposedState: string)

  datatype Comment = Comment(initiatorInstanceType: Option<string>, initiatorInstance: Option<Initiator>)

  /**
   * `Comment.header_url_link`. `None` stands for the `AttributeError` raised when the
   * type says "Proposal" but no initiator object is loaded.
   */
  function HeaderUrlLink(c: Comment): (r: Option<string>)
    ensures r.None? <==> c.initiatorInstanceType == Some("Proposal") && c.initiatorInstance.None?
    ensures r == Some("proposal_link") <==>
              c.initiatorInstanceType == Some("Proposal") && c.initiatorInstance.Some? &&
              c.initiatorInstance.value.status == c.initiatorInstance.value.proposedState
    ensures r.Some? ==> r.value == "" || r.value == "proposal_link"
  {
    if c.initiatorInstanceType != Some("Proposal") then Some("")
    else if c.initiatorInstance.None? then None
    else if c.initiatorInstance.value.status == c.initiatorInstance.value.proposedState then Some("proposal_link")
    else Some("")
  }
}
