/**
 * The language-reference validator: walks the nodes of a serialized chunk and checks
 * every node's classifier, and every property, containment and reference of it,
 * against the definitions of a language, appending issues to a shared result in a
 * fixed order.
 *
 * The pure part is a set of "run" functions giving, for a prefix of the input, the
 * issues appended and whether the walk ran to the end or threw. The class
 * `LanguageReferenceValidator` performs the walk with loops and is proved to append
 * exactly what the run functions describe.
 */
module LanguageReferenceValidation {
  import opened Wrappers

  // ---------------------------------------------------------------------------
  // The serialization format (the shapes of the LionWeb JSON types)

  datatype MetaPointer = MetaPointer(language: string, version: string, key: string)

  datatype JsonProperty = JsonProperty(property: MetaPointer, value: Option<string>)

  datatype JsonContainment = JsonContainment(containment: MetaPointer, children: seq<string>)

  datatype JsonReferenceTarget = JsonReferenceTarget(reference: string, resolveInfo: Option<string>)

  datatype JsonReference = JsonReference(reference: MetaPointer, targets: seq<JsonReferenceTarget>)

  datatype JsonNode = JsonNode(
    id: string,
    classifier: MetaPointer,
    properties: seq<JsonProperty>,
    containments: seq<JsonContainment>,
    references: seq<JsonReference>,
    annotations: seq<string>,
    parent: Option<string>)

  datatype UsedLanguage = UsedLanguage(key: string, version: string)

  datatype JsonChunk = JsonChunk(serializationFormatVersion: string, languages: seq<UsedLanguage>, nodes: seq<JsonNode>)

  /**
   * A language definition: the node (in the language's own M3 chunk) that each
   * meta-pointer designates. `getNodeByMetaPointer` is a lookup in this map.
   */
  datatype Language = Language(definitions: map<MetaPointer, JsonNode>) {
    function GetNodeByMetaPointer(mp: MetaPointer): (r: Option<JsonNode>)
      ensures r.Some? <==> mp in definitions
      ensures r.Some? ==> r.value == definitions[mp]
    {
      if mp in definitions then Some(definitions[mp]) else None
    }
  }

  // Keys of the LionWeb M3 metamodel and of the built-in language.
  const CONCEPT_KEY := "Concept"
  const PROPERTY_KEY := "Property"
  const PROPERTY_TYPE_KEY := "Property-type"
  const INAMED_NAME := "LionCore-builtins-INamed-name"
  const BOOLEAN_TYPE := "LionCore-builtins-Boolean"
  const INTEGER_TYPE := "LionCore-builtins-Integer"
  const STRING_TYPE := "LionCore-builtins-String"
  const JSON_TYPE := "LionCore-builtins-JSON"

  // ---------------------------------------------------------------------------
  // Issues

  datatype Section = PropertiesSection | ContainmentsSection | ReferencesSection

  /** Where an issue was found: a node of the chunk, or one feature entry of a node. */
  datatype JsonContext =
    | NodeContext(node: nat)
    | FeatureContext(node: nat, section: Section, index: nat)

  /** The three checks of the simple field validator. */
  datatype ValueKind = BooleanValue | IntegerValue | JsonValue

  /**
   * What the validator appends to the result. `ValueCheck` marks the point at which
   * the simple field validator is asked to check a property value; what that check
   * appends is not part of this model.
   */
  datatype Issue =
    | UnknownConcept(context: JsonContext, metaPointer: MetaPointer)
    | UnknownProperty(context: JsonContext, metaPointer: MetaPointer)
    | IncorrectPropertyMetaPointer(context: JsonContext, metaPointer: MetaPointer, foundKey: string)
    | UnknownContainment(context: JsonContext, metaPointer: MetaPointer)
    | IncorrectContainmentMetaPointer(context: JsonContext, metaPointer: MetaPointer, foundKey: string)
    | UnknownReference(context: JsonContext, metaPointer: MetaPointer)
    | IncorrectReferenceMetaPointer(context: JsonContext, metaPointer: MetaPointer, foundKey: string)
    | ValueCheck(context: JsonContext, kind: ValueKind, property: JsonProperty, propertyName: Option<string>)

  /** Exceptions the validator lets escape. */
  datatype Thrown =
    | MissingLanguage           // `validateProperty` called without a language
    | EmptyPropertyTypeTargets  // `targets[0].reference` on a property-type reference with no target

  /** The issues a walk appends, and whether it ran to its end or threw. */
  datatype Run = Run(issues: seq<Issue>, outcome: Outcome<Thrown>)

  /** `a`, then `b` unless `a` threw. */
  function Then(a: Run, b: Run): (r: Run)
    ensures a.issues <= r.issues
    ensures r.outcome.Pass? <==> a.outcome.Pass? && b.outcome.Pass?
  {
    if a.outcome.Fail? then a else Run(a.issues + b.issues, b.outcome)
  }

  /** Sequencing groups either way, so a walk may be split at any entry. */
  lemma ThenAssociates(a: Run, b: Run, c: Run)
    ensures Then(Then(a, b), c) == Then(a, Then(b, c))
  {
    if a.outcome.Pass? && b.outcome.Pass? {
      assert (a.issues + b.issues) + c.issues == a.issues + (b.issues + c.issues);
    }
  }

  /** A step that reports nothing and does not throw is neutral on either side. */
  lemma ThenQuietStep(a: Run)
    ensures Then(Run([], Pass), a) == a
    ensures Then(a, Run([], Pass)) == a
  {
    assert [] + a.issues == a.issues;
    assert a.issues + [] == a.issues;
  }

  // ---------------------------------------------------------------------------
  // Lookups inside a definition node (`Array.prototype.find`)

  /** The first property of `ps` whose meta-pointer has key `key`. */
  function FindProperty(ps: seq<JsonProperty>, key: string): (r: Option<JsonProperty>)
    ensures r.None? <==> forall i :: 0 <= i < |ps| ==> ps[i].property.key != key
    ensures r.Some? ==> exists i :: 0 <= i < |ps| && ps[i] == r.value && ps[i].property.key == key &&
                                    forall j :: 0 <= j < i ==> ps[j].property.key != key
  {
    if |ps| == 0 then None
    else if ps[0].property.key == key then Some(ps[0])
    else
      var r := FindProperty(ps[1..], key);
      assert r.Some? ==> exists i :: 0 <= i < |ps[1..]| && ps[1..][i] == r.value && ps[1..][i].property.key == key &&
                                     forall j :: 0 <= j < i ==> ps[1..][j].property.key != key;
      assert forall i :: 1 <= i < |ps| ==> ps[i] == ps[1..][i - 1];
      r
  }

  /** The first reference of `rs` whose meta-pointer has key `key`. */
  function FindReference(rs: seq<JsonReference>, key: string): (r: Option<JsonReference>)
    ensures r.None? <==> forall i :: 0 <= i < |rs| ==> rs[i].reference.key != key
    ensures r.Some? ==> exists i :: 0 <= i < |rs| && rs[i] == r.value && rs[i].reference.key == key &&
                                    forall j :: 0 <= j < i ==> rs[j].reference.key != key
  {
    if |rs| == 0 then None
    else if rs[0].reference.key == key then Some(rs[0])
    else
      var r := FindReference(rs[1..], key);
      assert r.Some? ==> exists i :: 0 <= i < |rs[1..]| && rs[1..][i] == r.value && rs[1..][i].reference.key == key &&
                                     forall j :: 0 <= j < i ==> rs[1..][j].reference.key != key;
      assert forall i :: 1 <= i < |rs| ==> rs[i] == rs[1..][i - 1];
      r
  }

  /** The type name a property-type target designates, for the three checked types. */
  function TypeName(kind: ValueKind): string {
    match kind
    case BooleanValue => BOOLEAN_TYPE
    case IntegerValue => INTEGER_TYPE
    case JsonValue => JSON_TYPE
  }

  // ---------------------------------------------------------------------------
  // One feature entry

  /** `validateProperty(prop, context)` with a language present. */
  function PropertyRun(lang: Language, prop: JsonProperty, ctx: JsonContext): (r: Run)
    ensures |r.issues| <= 1
    ensures forall i :: 0 <= i < |r.issues| ==> r.issues[i].context == ctx
    ensures r.outcome.Fail? ==> r.issues == [] && r.outcome.error == EmptyPropertyTypeTargets
    ensures prop.value.None? ==> r == Run([], Pass)
  {
    if prop.value.None? then Run([], Pass)
    else match lang.GetNodeByMetaPointer(prop.property)
      case None => Run([UnknownProperty(ctx, prop.property)], Pass)
      case Some(def) =>
        if def.classifier.key != PROPERTY_KEY then
          Run([IncorrectPropertyMetaPointer(ctx, prop.property, def.classifier.key)], Pass)
        else
          var refType := FindReference(def.references, PROPERTY_TYPE_KEY);
          var name := FindProperty(def.properties, INAMED_NAME);
          if name.None? || refType.None? then Run([], Pass)
          else if |refType.value.targets| == 0 then Run([], Fail(EmptyPropertyTypeTargets))
          else
            var target := refType.value.targets[0].reference;
            if target == BOOLEAN_TYPE then Run([ValueCheck(ctx, BooleanValue, prop, name.value.value)], Pass)
            else if target == INTEGER_TYPE then Run([ValueCheck(ctx, IntegerValue, prop, name.value.value)], Pass)
            else if target == JSON_TYPE then Run([ValueCheck(ctx, JsonValue, prop, name.value.value)], Pass)
            else Run([], Pass)
  }

  /** `validateContainment(child, context)`. */
  function ContainmentIssues(lang: Language, child: JsonContainment, ctx: JsonContext): (r: seq<Issue>)
    ensures |r| <= 1
    ensures forall i :: 0 <= i < |r| ==> r[i].context == ctx
  {
    match lang.GetNodeByMetaPointer(child.containment)
    case None => [UnknownContainment(ctx, child.containment)]
    case Some(def) =>
      if def.classifier.key != CONCEPT_KEY then [IncorrectContainmentMetaPointer(ctx, child.containment, def.classifier.key)]
      else []
  }

  /** `validateReference(ref, context)`. */
  function ReferenceIssues(lang: Language, ref: JsonReference, ctx: JsonContext): (r: seq<Issue>)
    ensures |r| <= 1
    ensures forall i :: 0 <= i < |r| ==> r[i].context == ctx
  {
    match lang.GetNodeByMetaPointer(ref.reference)
    case None => [UnknownReference(ctx, ref.reference)]
    case Some(def) =>
      if def.classifier.key != CONCEPT_KEY then [IncorrectReferenceMetaPointer(ctx, ref.reference, def.classifier.key)]
      else []
  }

  // ---------------------------------------------------------------------------
  // Walks over prefixes: the last entry of the prefix is the one checked last

  /** The properties of node `n`, in list order, stopping at the first that throws. */
  function PropertiesRun(lang: Language, props: seq<JsonProperty>, n: nat): (r: Run)
    ensures |r.issues| <= |props|
    ensures r.outcome.Fail? ==> r.outcome.error == EmptyPropertyTypeTargets
  {
    if |props| == 0 then Run([], Pass)
    else Then(PropertiesRun(lang, props[..|props| - 1], n),
              PropertyRun(lang, props[|props| - 1], FeatureContext(n, PropertiesSection, |props| - 1)))
  }

  /** The containments of node `n`, in list order. */
  function ContainmentsIssues(lang: Language, cs: seq<JsonContainment>, n: nat): (r: seq<Issue>)
    ensures |r| <= |cs|
  {
    if |cs| == 0 then []
    else ContainmentsIssues(lang, cs[..|cs| - 1], n)
         + ContainmentIssues(lang, cs[|cs| - 1], FeatureContext(n, ContainmentsSection, |cs| - 1))
  }

  /** The references of node `n`, in list order. */
  function ReferencesIssues(lang: Language, rs: seq<JsonReference>, n: nat): (r: seq<Issue>)
    ensures |r| <= |rs|
  {
    if |rs| == 0 then []
    else ReferencesIssues(lang, rs[..|rs| - 1], n)
         + ReferenceIssues(lang, rs[|rs| - 1], FeatureContext(n, ReferencesSection, |rs| - 1))
  }

  /**
   * Node `n` of the chunk: one `UnknownConcept` when its classifier is not defined,
   * otherwise its properties, then its containments, then its references.
   */
  function NodeRun(lang: Language, node: JsonNode, n: nat): (r: Run)
    ensures |r.issues| <= 1 + |node.properties| + |node.containments| + |node.references|
    ensures r.outcome.Fail? ==> r.outcome.error == EmptyPropertyTypeTargets
  {
    if lang.GetNodeByMetaPointer(node.classifier).None? then
      Run([UnknownConcept(NodeContext(n), node.classifier)], Pass)
    else
      Then(PropertiesRun(lang, node.properties, n),
           Run(ContainmentsIssues(lang, node.containments, n) + ReferencesIssues(lang, node.references, n), Pass))
  }

  /** The nodes of the chunk, in order, stopping at the first that throws. */
  function ChunkRun(lang: Language, nodes: seq<JsonNode>): (r: Run)
    ensures r.outcome.Fail? ==> r.outcome.error == EmptyPropertyTypeTargets
  {
    if |nodes| == 0 then Run([], Pass)
    else Then(ChunkRun(lang, nodes[..|nodes| - 1]), NodeRun(lang, nodes[|nodes| - 1], |nodes| - 1))
  }

  // ---------------------------------------------------------------------------
  // The order of issues

  function Rank(c: JsonContext): nat {
    match c
    case NodeContext(_) => 0
    case FeatureContext(_, PropertiesSection, _) => 1
    case FeatureContext(_, ContainmentsSection, _) => 2
    case FeatureContext(_, ReferencesSection, _) => 3
  }

  function Position(c: JsonContext): nat {
    if c.NodeContext? then 0 else c.index
  }

  /** `a` comes strictly before `b`: by node, then node-before-properties-before-containments-before-references, then index. */
  predicate Precedes(a: JsonContext, b: JsonContext) {
    a.node < b.node ||
    (a.node == b.node && (Rank(a) < Rank(b) || (Rank(a) == Rank(b) && Position(a) < Position(b))))
  }

  /** The contexts of `entries` strictly increase; in particular no two issues share a context. */
  predicate Increasing(entries: seq<Issue>) {
    forall i, j :: 0 <= i < j < |entries| ==> Precedes(entries[i].context, entries[j].context)
  }

  /** Every issue of `entries` belongs to node `n`, section `s`, at an index below `len`. */
  predicate InSection(entries: seq<Issue>, n: nat, s: Section, len: nat) {
    forall i :: 0 <= i < |entries| ==>
      entries[i].context.FeatureContext? && entries[i].context.node == n &&
      entries[i].context.section == s && entries[i].context.index < len
  }

  /** Every issue of `entries` belongs to a node below `len`. */
  predicate NodesBelow(entries: seq<Issue>, len: nat) {
    forall i :: 0 <= i < |entries| ==> entries[i].context.node < len
  }

  lemma IncreasingAppend(a: seq<Issue>, b: seq<Issue>)
    requires Increasing(a) && Increasing(b)
    requires forall i, j :: 0 <= i < |a| && 0 <= j < |b| ==> Precedes(a[i].context, b[j].context)
    ensures Increasing(a + b)
  {
    forall i, j | 0 <= i < j < |a + b|
      ensures Precedes((a + b)[i].context, (a + b)[j].context)
    {
      if j < |a| {
      } else if i >= |a| {
        assert (a + b)[i] == b[i - |a|] && (a + b)[j] == b[j - |a|];
      } else {
        assert (a + b)[j] == b[j - |a|];
      }
    }
  }

  /** The properties' issues sit in the properties section of node `n`, in increasing order. */
  lemma {:induction false} PropertiesRunOrdered(lang: Language, props: seq<JsonProperty>, n: nat)
    ensures InSection(PropertiesRun(lang, props, n).issues, n, PropertiesSection, |props|)
    ensures Increasing(PropertiesRun(lang, props, n).issues)
  {
    if |props| > 0 {
      var a := PropertiesRun(lang, props[..|props| - 1], n);
      PropertiesRunOrdered(lang, props[..|props| - 1], n);
      if a.outcome.Pass? {
        var b := PropertyRun(lang, props[|props| - 1], FeatureContext(n, PropertiesSection, |props| - 1));
        IncreasingAppend(a.issues, b.issues);
      }
    }
  }

  lemma {:induction false} ContainmentsIssuesOrdered(lang: Language, cs: seq<JsonContainment>, n: nat)
    ensures InSection(ContainmentsIssues(lang, cs, n), n, ContainmentsSection, |cs|)
    ensures Increasing(ContainmentsIssues(lang, cs, n))
  {
    if |cs| > 0 {
      var a := ContainmentsIssues(lang, cs[..|cs| - 1], n);
      ContainmentsIssuesOrdered(lang, cs[..|cs| - 1], n);
      var b := ContainmentIssues(lang, cs[|cs| - 1], FeatureContext(n, ContainmentsSection, |cs| - 1));
      IncreasingAppend(a, b);
    }
  }

  lemma {:induction false} ReferencesIssuesOrdered(lang: Language, rs: seq<JsonReference>, n: nat)
    ensures InSection(ReferencesIssues(lang, rs, n), n, ReferencesSection, |rs|)
    ensures Increasing(ReferencesIssues(lang, rs, n))
  {
    if |rs| > 0 {
      var a := ReferencesIssues(lang, rs[..|rs| - 1], n);
      ReferencesIssuesOrdered(lang, rs[..|rs| - 1], n);
      var b := ReferenceIssues(lang, rs[|rs| - 1], FeatureContext(n, ReferencesSection, |rs| - 1));
      IncreasingAppend(a, b);
    }
  }

  /**
   * Within node `n`: its issues all belong to `n`, and come properties first, then
   * containments, then references, each in list order.
   */
  lemma NodeRunOrdered(lang: Language, node: JsonNode, n: nat)
    ensures forall i :: 0 <= i < |NodeRun(lang, node, n).issues| ==> NodeRun(lang, node, n).issues[i].context.node == n
    ensures Increasing(NodeRun(lang, node, n).issues)
  {
    if lang.GetNodeByMetaPointer(node.classifier).Some? {
      var p := PropertiesRun(lang, node.properties, n);
      var c := ContainmentsIssues(lang, node.containments, n);
      var r := ReferencesIssues(lang, node.references, n);
      PropertiesRunOrdered(lang, node.properties, n);
      ContainmentsIssuesOrdered(lang, node.containments, n);
      ReferencesIssuesOrdered(lang, node.references, n);
      IncreasingAppend(c, r);
      if p.outcome.Pass? {
        IncreasingAppend(p.issues, c + r);
        assert NodeRun(lang, node, n).issues == p.issues + (c + r);
      }
    }
  }

  /** Over the whole chunk: issues come in node order, and within a node in the order above. */
  lemma {:induction false} ChunkRunOrdered(lang: Language, nodes: seq<JsonNode>)
    ensures NodesBelow(ChunkRun(lang, nodes).issues, |nodes|)
    ensures Increasing(ChunkRun(lang, nodes).issues)
  {
    if |nodes| > 0 {
      var a := ChunkRun(lang, nodes[..|nodes| - 1]);
      ChunkRunOrdered(lang, nodes[..|nodes| - 1]);
      if a.outcome.Pass? {
        var b := NodeRun(lang, nodes[|nodes| - 1], |nodes| - 1);
        NodeRunOrdered(lang, nodes[|nodes| - 1], |nodes| - 1);
        IncreasingAppend(a.issues, b.issues);
      }
    }
  }

  // ---------------------------------------------------------------------------
  // Per-node decomposition

  /** The issues of `entries` that belong to node `n`, in order. */
  function IssuesOfNode(entries: seq<Issue>, n: nat): (r: seq<Issue>)
    ensures forall i :: 0 <= i < |r| ==> r[i] in entries && r[i].context.node == n
    ensures forall i :: 0 <= i < |entries| && entries[i].context.node == n ==> entries[i] in r
  {
    if |entries| == 0 then []
    else IssuesOfNode(entries[..|entries| - 1], n) + (if entries[|entries| - 1].context.node == n then [entries[|entries| - 1]] else [])
  }

  lemma {:induction false} IssuesOfNodeAppend(a: seq<Issue>, b: seq<Issue>, n: nat)
    ensures IssuesOfNode(a + b, n) == IssuesOfNode(a, n) + IssuesOfNode(b, n)
  {
    if |b| > 0 {
      assert (a + b)[..|a + b| - 1] == a + b[..|b| - 1];
      IssuesOfNodeAppend(a, b[..|b| - 1], n);
    } else {
      assert a + b == a;
    }
  }

  lemma {:induction false} IssuesOfNodeAll(entries: seq<Issue>, n: nat)
    requires forall i :: 0 <= i < |entries| ==> entries[i].context.node == n
    ensures IssuesOfNode(entries, n) == entries
  {
    if |entries| > 0 {
      IssuesOfNodeAll(entries[..|entries| - 1], n);
      assert entries[..|entries| - 1] + [entries[|entries| - 1]] == entries;
    }
  }

  lemma {:induction false} IssuesOfNodeNone(entries: seq<Issue>, n: nat)
    requires forall i :: 0 <= i < |entries| ==> entries[i].context.node != n
    ensures IssuesOfNode(entries, n) == []
  {
    if |entries| > 0 {
      IssuesOfNodeNone(entries[..|entries| - 1], n);
    }
  }

  /**
   * When the walk completes, the issues it reports for node `n` are exactly those the
   * node gets on its own: nodes are checked independently of each other.
   */
  lemma {:induction false} ChunkRunPerNode(lang: Language, nodes: seq<JsonNode>, n: nat)
    requires n < |nodes| && ChunkRun(lang, nodes).outcome.Pass?
    ensures IssuesOfNode(ChunkRun(lang, nodes).issues, n) == NodeRun(lang, nodes[n], n).issues
  {
    var m := |nodes| - 1;
    var a := ChunkRun(lang, nodes[..m]);
    var b := NodeRun(lang, nodes[m], m);
    IssuesOfNodeAppend(a.issues, b.issues, n);
    NodeRunOrdered(lang, nodes[m], m);
    ChunkRunOrdered(lang, nodes[..m]);
    if n == m {
      IssuesOfNodeNone(a.issues, n);
      IssuesOfNodeAll(b.issues, n);
    } else {
      IssuesOfNodeNone(b.issues, n);
      ChunkRunPerNode(lang, nodes[..m], n);
      assert nodes[..m][n] == nodes[n];
    }
  }

  /**
   * A node whose classifier is not defined gets exactly one issue, `UnknownConcept`,
   * and none of its features is checked; a node whose classifier is defined gets
   * issues about its features only.
   */
  lemma UnknownConceptIff(lang: Language, node: JsonNode, n: nat)
    ensures NodeRun(lang, node, n) == Run([UnknownConcept(NodeContext(n), node.classifier)], Pass)
        <==> lang.GetNodeByMetaPointer(node.classifier).None?
    ensures lang.GetNodeByMetaPointer(node.classifier).Some? ==>
        forall i :: 0 <= i < |NodeRun(lang, node, n).issues| ==> NodeRun(lang, node, n).issues[i].context.FeatureContext?
  {
    if lang.GetNodeByMetaPointer(node.classifier).Some? {
      var p := PropertiesRun(lang, node.properties, n);
      var c := ContainmentsIssues(lang, node.containments, n);
      var r := ReferencesIssues(lang, node.references, n);
      PropertiesRunOrdered(lang, node.properties, n);
      ContainmentsIssuesOrdered(lang, node.containments, n);
      ReferencesIssuesOrdered(lang, node.references, n);
      var entries := NodeRun(lang, node, n).issues;
      assert entries == if p.outcome.Pass? then p.issues + (c + r) else p.issues;
      forall i | 0 <= i < |entries|
        ensures entries[i].context.FeatureContext?
      {
        if i >= |p.issues| {
          var k := i - |p.issues|;
          assert entries[i] == (c + r)[k];
          if k >= |c| {
            assert (c + r)[k] == r[k - |c|];
          }
        }
      }
      if |entries| > 0 {
        assert entries[0].context.FeatureContext?;
      }
    }
  }

  /** Once a prefix of the chunk throws, the rest of the chunk is not looked at. */
  lemma {:induction false} ChunkRunStops(lang: Language, nodes: seq<JsonNode>, j: nat)
    requires j <= |nodes| && ChunkRun(lang, nodes[..j]).outcome.Fail?
    ensures ChunkRun(lang, nodes) == ChunkRun(lang, nodes[..j])
  {
    if j < |nodes| {
      var m := |nodes| - 1;
      assert nodes[..m][..j] == nodes[..j];
      ChunkRunStops(lang, nodes[..m], j);
    } else {
      assert nodes[..j] == nodes;
    }
  }

  /** Once a prefix of the properties throws, the remaining properties are not looked at. */
  lemma {:induction false} PropertiesRunStops(lang: Language, props: seq<JsonProperty>, n: nat, j: nat)
    requires j <= |props| && PropertiesRun(lang, props[..j], n).outcome.Fail?
    ensures PropertiesRun(lang, props, n) == PropertiesRun(lang, props[..j], n)
  {
    if j < |props| {
      var m := |props| - 1;
      assert props[..m][..j] == props[..j];
      PropertiesRunStops(lang, props[..m], n, j);
    } else {
      assert props[..j] == props;
    }
  }

  // ---------------------------------------------------------------------------
  // The decision tree of one entry

  /** A property is reported unknown exactly when it has a value and its meta-pointer is not defined. */
  lemma UnknownPropertyIff(lang: Language, prop: JsonProperty, ctx: JsonContext)
    ensures PropertyRun(lang, prop, ctx).issues == [UnknownProperty(ctx, prop.property)]
        <==> prop.value.Some? && lang.GetNodeByMetaPointer(prop.property).None?
  {
  }

  /**
   * A property with a value whose meta-pointer is defined by a non-`Property` node gets
   * exactly `IncorrectPropertyMetaPointer` carrying that node's key, and nothing else.
   */
  lemma IncorrectPropertyIff(lang: Language, prop: JsonProperty, ctx: JsonContext, key: string)
    ensures PropertyRun(lang, prop, ctx) == Run([IncorrectPropertyMetaPointer(ctx, prop.property, key)], Pass)
        <==> prop.value.Some? && lang.GetNodeByMetaPointer(prop.property).Some? &&
             lang.GetNodeByMetaPointer(prop.property).value.classifier.key == key && key != PROPERTY_KEY
  {
  }

  /**
   * A value check of kind `kind` is requested exactly when the property has a value,
   * its meta-pointer is defined by a `Property` node that has a name and a
   * property-type reference, and that reference's first target is the type of `kind`;
   * the check receives the property and the name the definition gives.
   */
  lemma ValueCheckIff(lang: Language, prop: JsonProperty, ctx: JsonContext, kind: ValueKind)
    ensures (exists name :: PropertyRun(lang, prop, ctx).issues == [ValueCheck(ctx, kind, prop, name)])
        <==> prop.value.Some? && lang.GetNodeByMetaPointer(prop.property).Some? &&
             var def := lang.GetNodeByMetaPointer(prop.property).value;
             && def.classifier.key == PROPERTY_KEY
             && FindProperty(def.properties, INAMED_NAME).Some?
             && FindReference(def.references, PROPERTY_TYPE_KEY).Some?
             && |FindReference(def.references, PROPERTY_TYPE_KEY).value.targets| > 0
             && FindReference(def.references, PROPERTY_TYPE_KEY).value.targets[0].reference == TypeName(kind)
  {
    var r := PropertyRun(lang, prop, ctx);
    if prop.value.Some? && lang.GetNodeByMetaPointer(prop.property).Some? {
      var def := lang.GetNodeByMetaPointer(prop.property).value;
      var name := FindProperty(def.properties, INAMED_NAME);
      var refType := FindReference(def.references, PROPERTY_TYPE_KEY);
      if def.classifier.key == PROPERTY_KEY && name.Some? && refType.Some? && |refType.value.targets| > 0
         && refType.value.targets[0].reference == TypeName(kind) {
        assert r.issues == [ValueCheck(ctx, kind, prop, name.value.value)];
      }
    }
  }

  /**
   * `validateProperty` throws exactly when `refType.targets[0]` is read on an empty target
   * list: a non-null value, a Property definition with a name and a property-type reference
   * that has no target.
   */
  lemma PropertyThrowsIff(lang: Language, prop: JsonProperty, ctx: JsonContext)
    ensures PropertyRun(lang, prop, ctx).outcome.Fail?
        <==> prop.value.Some? && lang.GetNodeByMetaPointer(prop.property).Some? &&
             var def := lang.GetNodeByMetaPointer(prop.property).value;
             && def.classifier.key == PROPERTY_KEY
             && FindProperty(def.properties, INAMED_NAME).Some?
             && FindReference(def.references, PROPERTY_TYPE_KEY).Some?
             && |FindReference(def.references, PROPERTY_TYPE_KEY).value.targets| == 0
  {
  }

  /**
   * `validateProperty` reports nothing and does not throw exactly when the value is null, or
   * the property resolves to a Property definition that lacks a name or a property-type
   * reference, or whose first type target is none of the checked built-in types.
   */
  lemma PropertyQuietIff(lang: Language, prop: JsonProperty, ctx: JsonContext)
    ensures PropertyRun(lang, prop, ctx) == Run([], Pass)
        <==> prop.value.None? ||
             (lang.GetNodeByMetaPointer(prop.property).Some? &&
              var def := lang.GetNodeByMetaPointer(prop.property).value;
              var refType := FindReference(def.references, PROPERTY_TYPE_KEY);
              && def.classifier.key == PROPERTY_KEY
              && (FindProperty(def.properties, INAMED_NAME).None? || refType.None? ||
                  (|refType.value.targets| > 0 &&
                   refType.value.targets[0].reference !in {BOOLEAN_TYPE, INTEGER_TYPE, JSON_TYPE})))
  {
  }

  /** A property whose type is the built-in string type is never checked and gets no issue. */
  lemma StringNotChecked(lang: Language, prop: JsonProperty, ctx: JsonContext)
    requires prop.value.Some? && lang.GetNodeByMetaPointer(prop.property).Some?
    requires var def := lang.GetNodeByMetaPointer(prop.property).value;
             && def.classifier.key == PROPERTY_KEY
             && FindProperty(def.properties, INAMED_NAME).Some?
             && FindReference(def.references, PROPERTY_TYPE_KEY).Some?
             && |FindReference(def.references, PROPERTY_TYPE_KEY).value.targets| > 0
             && FindReference(def.references, PROPERTY_TYPE_KEY).value.targets[0].reference == STRING_TYPE
    ensures PropertyRun(lang, prop, ctx) == Run([], Pass)
  {
  }

  /**
   * A containment gets `UnknownContainment` exactly when its meta-pointer is not
   * defined, and `IncorrectContainmentMetaPointer` exactly when it is defined by a node
   * whose classifier key is not the concept key; no issue otherwise.
   */
  lemma ContainmentIssuesIff(lang: Language, child: JsonContainment, ctx: JsonContext)
    ensures ContainmentIssues(lang, child, ctx) == [UnknownContainment(ctx, child.containment)]
        <==> lang.GetNodeByMetaPointer(child.containment).None?
    ensures forall key: string ::
        ContainmentIssues(lang, child, ctx) == [IncorrectContainmentMetaPointer(ctx, child.containment, key)]
        <==> lang.GetNodeByMetaPointer(child.containment).Some? &&
             lang.GetNodeByMetaPointer(child.containment).value.classifier.key == key && key != CONCEPT_KEY
    ensures ContainmentIssues(lang, child, ctx) == []
        <==> lang.GetNodeByMetaPointer(child.containment).Some? &&
             lang.GetNodeByMetaPointer(child.containment).value.classifier.key == CONCEPT_KEY
  {
  }

  /** The same decision for a reference. */
  lemma ReferenceIssuesIff(lang: Language, ref: JsonReference, ctx: JsonContext)
    ensures ReferenceIssues(lang, ref, ctx) == [UnknownReference(ctx, ref.reference)]
        <==> lang.GetNodeByMetaPointer(ref.reference).None?
    ensures forall key: string ::
        ReferenceIssues(lang, ref, ctx) == [IncorrectReferenceMetaPointer(ctx, ref.reference, key)]
        <==> lang.GetNodeByMetaPointer(ref.reference).Some? &&
             lang.GetNodeByMetaPointer(ref.reference).value.classifier.key == key && key != CONCEPT_KEY
    ensures ReferenceIssues(lang, ref, ctx) == []
        <==> lang.GetNodeByMetaPointer(ref.reference).Some? &&
             lang.GetNodeByMetaPointer(ref.reference).value.classifier.key == CONCEPT_KEY
  {
  }

  lemma AppendAssociates(a: seq<Issue>, b: seq<Issue>, c: seq<Issue>)
    ensures (a + b) + c == a + (b + c)
  {
  }

  // ---------------------------------------------------------------------------
  // The validator

  class LanguageReferenceValidator {
    /** The shared validation result: every issue appended so far, in order. */
    var issues: seq<Issue>
    /** The language to check against; the source's `undefined`/`null` is `None`. */
    const language: Option<Language>

    constructor (validationResult: seq<Issue>, lang: Option<Language>)
      ensures issues == validationResult && language == lang
    {
      issues := validationResult;
      language := lang;
    }

    /** `validationResult.issue(i)`. */
    method Report(i: Issue)
      modifies this
      ensures issues == old(issues) + [i]
    {
      issues := issues + [i];
    }

    /**
     * `validate(chunk)`: nothing without a language; otherwise every node in order,
     * appending exactly the issues of `ChunkRun`, and throwing when it throws.
     */
    method Validate(chunk: JsonChunk) returns (r: Outcome<Thrown>)
      modifies this
      ensures language.None? ==> issues == old(issues) && r == Pass
      ensures language.Some? ==>
        issues == old(issues) + ChunkRun(language.value, chunk.nodes).issues &&
        r == ChunkRun(language.value, chunk.nodes).outcome
    {
      if language.None? {
        return Pass;
      }
      var lang := language.value;
      var nodes := chunk.nodes;
      var n := 0;
      while n < |nodes|
        invariant 0 <= n <= |nodes|
        invariant issues == old(issues) + ChunkRun(lang, nodes[..n]).issues
        invariant ChunkRun(lang, nodes[..n]).outcome == Pass
      {
        r := ValidateNode(nodes[n], n);
        assert nodes[..n + 1][..n] == nodes[..n];
        assert ChunkRun(lang, nodes[..n + 1]) == Then(ChunkRun(lang, nodes[..n]), NodeRun(lang, nodes[n], n));
        AppendAssociates(old(issues), ChunkRun(lang, nodes[..n]).issues, NodeRun(lang, nodes[n], n).issues);
        if r.Fail? {
          ChunkRunStops(lang, nodes, n + 1);
          return;
        }
        n := n + 1;
      }
      assert nodes[..n] == nodes;
      r := Pass;
    }

    /** The body of `validate`'s loop for node `n`. */
    method ValidateNode(node: JsonNode, n: nat) returns (r: Outcome<Thrown>)
      requires language.Some?
      modifies this
      ensures issues == old(issues) + NodeRun(language.value, node, n).issues
      ensures r == NodeRun(language.value, node, n).outcome
    {
      var lang := language.value;
      var concept := lang.GetNodeByMetaPointer(node.classifier);
      if concept.None? {
        Report(UnknownConcept(NodeContext(n), node.classifier));
        return Pass;
      }
      var i := 0;
      while i < |node.properties|
        invariant 0 <= i <= |node.properties|
        invariant issues == old(issues) + PropertiesRun(lang, node.properties[..i], n).issues
        invariant PropertiesRun(lang, node.properties[..i], n).outcome == Pass
      {
        r := ValidateProperty(node.properties[i], FeatureContext(n, PropertiesSection, i));
        assert node.properties[..i + 1][..i] == node.properties[..i];
        assert PropertiesRun(lang, node.properties[..i + 1], n)
            == Then(PropertiesRun(lang, node.properties[..i], n),
                    PropertyRun(lang, node.properties[i], FeatureContext(n, PropertiesSection, i)));
        AppendAssociates(old(issues), PropertiesRun(lang, node.properties[..i], n).issues,
                         PropertyRun(lang, node.properties[i], FeatureContext(n, PropertiesSection, i)).issues);
        if r.Fail? {
          PropertiesRunStops(lang, node.properties, n, i + 1);
          return;
        }
        i := i + 1;
      }
      assert node.properties[..i] == node.properties;
      ghost var afterProperties := issues;
      i := 0;
      while i < |node.containments|
        invariant 0 <= i <= |node.containments|
        invariant issues == afterProperties + ContainmentsIssues(lang, node.containments[..i], n)
      {
        ValidateContainment(node.containments[i], FeatureContext(n, ContainmentsSection, i));
        assert node.containments[..i + 1][..i] == node.containments[..i];
        assert ContainmentsIssues(lang, node.containments[..i + 1], n)
            == ContainmentsIssues(lang, node.containments[..i], n)
               + ContainmentIssues(lang, node.containments[i], FeatureContext(n, ContainmentsSection, i));
        AppendAssociates(afterProperties, ContainmentsIssues(lang, node.containments[..i], n),
                         ContainmentIssues(lang, node.containments[i], FeatureContext(n, ContainmentsSection, i)));
        i := i + 1;
      }
      assert node.containments[..i] == node.containments;
      ghost var afterContainments := issues;
      i := 0;
      while i < |node.references|
        invariant 0 <= i <= |node.references|
        invariant issues == afterContainments + ReferencesIssues(lang, node.references[..i], n)
      {
        ValidateReference(node.references[i], FeatureContext(n, ReferencesSection, i));
        assert node.references[..i + 1][..i] == node.references[..i];
        assert ReferencesIssues(lang, node.references[..i + 1], n)
            == ReferencesIssues(lang, node.references[..i], n)
               + ReferenceIssues(lang, node.references[i], FeatureContext(n, ReferencesSection, i));
        AppendAssociates(afterContainments, ReferencesIssues(lang, node.references[..i], n),
                         ReferenceIssues(lang, node.references[i], FeatureContext(n, ReferencesSection, i)));
        i := i + 1;
      }
      assert node.references[..i] == node.references;
      AppendAssociates(old(issues) + PropertiesRun(lang, node.properties, n).issues,
                       ContainmentsIssues(lang, node.containments, n), ReferencesIssues(lang, node.references, n));
      AppendAssociates(old(issues), PropertiesRun(lang, node.properties, n).issues,
                       ContainmentsIssues(lang, node.containments, n) + ReferencesIssues(lang, node.references, n));
      r := Pass;
    }

    /** `validateContainment(child, context)`: reports the issues `ContainmentIssues` decides. */
    method ValidateContainment(child: JsonContainment, ctx: JsonContext)
      requires language.Some?
      modifies this
      ensures issues == old(issues) + ContainmentIssues(language.value, child, ctx)
    {
      issues := issues + ContainmentIssues(language.value, child, ctx);
    }

    /** `validateReference(ref, context)`: reports the issues `ReferenceIssues` decides. */
    method ValidateReference(ref: JsonReference, ctx: JsonContext)
      requires language.Some?
      modifies this
      ensures issues == old(issues) + ReferenceIssues(language.value, ref, ctx)
    {
      issues := issues + ReferenceIssues(language.value, ref, ctx);
    }

    /**
     * `validateProperty(prop, context)`: a property without a value is skipped; without a
     * language, one with a value throws; otherwise it reports the issues `PropertyRun`
     * decides and ends with its outcome.
     */
    method ValidateProperty(prop: JsonProperty, ctx: JsonContext) returns (r: Outcome<Thrown>)
      modifies this
      ensures language.None? ==>
        issues == old(issues) && r == (if prop.value.None? then Pass else Fail(MissingLanguage))
      ensures language.Some? ==>
        issues == old(issues) + PropertyRun(language.value, prop, ctx).issues &&
        r == PropertyRun(language.value, prop, ctx).outcome
    {
      if prop.value.None? {
        return Pass;
      }
      if language.None? {
        return Fail(MissingLanguage);
      }
      var run := PropertyRun(language.value, prop, ctx);
      issues := issues + run.issues;
      r := run.outcome;
    }
  }
}
