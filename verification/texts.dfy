/** The text handler (S3ComprehendToBlazegraphLambda): from a decoded
    `TextDetail` to the triples it adds to the texts graph.

    The handler creates the subject URI inside the only guarded block, then
    emits four triples about the text and its entity collection, two per
    entity (in input order) and three about the sentiment. An entity is
    represented only by its lower-cased type: its text is not recorded and
    its node is shared by every record mentioning that type. */
module Texts {
  import opened Options
  import opened Strings
  import opened Rdf
  import opened Graphs
  import opened Detections

  const TextClass := AppNs + "text"
  const TextNs := AppNs + "text/"
  const HasEntityCollection := TextNs + "hasEntityCollection"
  const EntityCollectionNs := TextNs + "entityCollection/"
  const EntityCollectionClass := TextNs + "entityCollection"
  const HasEntity := EntityCollectionNs + "hasEntity"
  const EntityClass := EntityCollectionNs + "entity"
  const HasSentiment := TextNs + "hasSentiment"
  const SentimentNs := TextNs + "sentiment/"
  const SentimentClass := TextNs + "sentiment"

  function EntityCollectionNode(id: string): Node {
    Iri(EntityCollectionNs + id)
  }

  /** An entity's node: the lower-cased type in the entity-collection
      namespace; neither the record's id nor the entity's text enters it. */
  function EntityNode(entityType: string): Node {
    Iri(EntityCollectionNs + Lower(entityType))
  }

  function SentimentNode(id: string): Node {
    Iri(SentimentNs + id)
  }

  /** The class named after the lower-cased sentiment value. */
  function SentimentValueClass(sentiment: string): Node {
    Iri(TextNs + Lower(sentiment))
  }

  function HasEntityEdge(id: string, e: Entity): Triple {
    Triple(EntityCollectionNode(id), Iri(HasEntity), EntityNode(e.entityType))
  }

  function EntityTyping(e: Entity): Triple {
    Triple(EntityNode(e.entityType), Iri(RdfType), Iri(EntityClass))
  }

  /** The `foreach` over the entities: a `hasEntity` edge, then the typing
      of the entity node, per entity. */
  function EntityFacts(id: string, es: seq<Entity>): (r: seq<Triple>)
    ensures |r| == 2 * |es|
    ensures forall k :: 0 <= k < |es| ==> r[2 * k] == HasEntityEdge(id, es[k])
    ensures forall k :: 0 <= k < |es| ==> r[2 * k + 1] == EntityTyping(es[k])
    decreases |es|
  {
    if |es| == 0 then []
    else
      var rest := EntityFacts(id, es[1..]);
      var r := [HasEntityEdge(id, es[0]), EntityTyping(es[0])] + rest;
      assert forall m :: 2 <= m < |r| ==> r[m] == rest[m - 2];
      assert forall k :: 1 <= k < |es| ==> es[1..][k - 1] == es[k];
      r
  }

  /** The four triples before the entity block. */
  function TextHead(subject: string, d: TextDetail): (r: seq<Triple>)
    ensures |r| == 4
  {
    var s := Iri(subject);
    var ec := EntityCollectionNode(d.id);
    [ Triple(s, Iri(RdfType), Iri(TextClass)),
      Triple(s, Iri(RdfsLabel), StringLiteral(d.id)),
      Triple(s, Iri(HasEntityCollection), ec),
      Triple(ec, Iri(RdfType), Iri(EntityCollectionClass)) ]
  }

  /** The three triples after the entity block. */
  function TextTail(subject: string, d: TextDetail): (r: seq<Triple>)
    ensures |r| == 3
  {
    var sn := SentimentNode(d.id);
    var sv := SentimentValueClass(d.sentiment);
    [ Triple(Iri(subject), Iri(HasSentiment), sn),
      Triple(sn, Iri(RdfType), sv),
      Triple(sv, Iri(RdfsSubClassOf), Iri(SentimentClass)) ]
  }

  /** The triple list the handler builds, in emission order, for a subject
      URI that was created successfully. */
  function TextFacts(subject: string, d: TextDetail): (ts: seq<Triple>)
    ensures |ts| == 7 + 2 * |d.entities|
  {
    TextHead(subject, d) + EntityFacts(d.id, d.entities) + TextTail(subject, d)
  }

  /** One record: the subject URI is created in the guarded block, then
      every other IRI, any of which may throw. */
  function ExtractText(wellFormed: string -> bool, d: TextDetail): (x: Extraction)
    ensures x == BadSubject <==> SubjectIri(wellFormed, d.id).None?
    ensures x.Facts? <==>
              && SubjectIri(wellFormed, d.id).Some?
              && AllIrisAccepted(wellFormed, TextFacts(SubjectIri(wellFormed, d.id).value, d))
    ensures x.Facts? ==> x.triples == TextFacts(AppNs + Uris.Escape(d.id), d)
  {
    match SubjectIri(wellFormed, d.id)
    case None => BadSubject
    case Some(subject) =>
      var ts := TextFacts(subject, d);
      if AllIrisAccepted(wellFormed, ts) then Facts(ts) else Throws
  }

  /** `FunctionHandler`: the record loop over text records. */
  function HandleTexts(wellFormed: string -> bool, g: Graph, ds: seq<Delivery<TextDetail>>): (run: Run)
    ensures run.consumed <= |ds|
    ensures g <= run.graph
    ensures forall t :: t in run.graph && t !in g ==>
              exists i :: 0 <= i < run.consumed && ds[i].fetch.Fetched? && ds[i].reply == Stored
                && ExtractText(wellFormed, ds[i].fetch.detail).Facts?
                && t in TextFacts(AppNs + Uris.Escape(ds[i].fetch.detail.id), ds[i].fetch.detail)
  {
    HandleProvenance((d: TextDetail) => ExtractText(wellFormed, d), g, ds);
    Handle((d: TextDetail) => ExtractText(wellFormed, d), g, ds)
  }

  /** Every predicate the text handler uses. */
  function TextPredicates(): seq<string> {
    [RdfType, RdfsLabel, HasEntityCollection, HasEntity, HasSentiment, RdfsSubClassOf]
  }

  /** The predicates of the text vocabulary are pairwise distinct IRIs. */
  lemma TextPredicatesDistinct()
    ensures var ps := TextPredicates();
            forall i, j :: 0 <= i < j < |ps| ==> ps[i] != ps[j]
  {
    assert |RdfType| == 47 && |RdfsLabel| == 42 && |HasEntityCollection| == 49;
    assert |HasEntity| == 56 && |HasSentiment| == 42 && |RdfsSubClassOf| == 47;
    assert RdfType[18] != RdfsSubClassOf[18];
    assert RdfsLabel[7] != HasSentiment[7];
  }

  /** Which entry of `TextPredicates()` the triple at position `j` of a list
      with `n` entities uses. */
  function TextSlot(n: nat, j: nat): nat
    requires j < 7 + 2 * n
  {
    if j < 4 then [0, 1, 2, 0][j]
    else if j < 4 + 2 * n then (if (j - 4) % 2 == 0 then 3 else 0)
    else [4, 0, 5][j - 4 - 2 * n]
  }

  lemma TextPredicateAt(subject: string, d: TextDetail, j: nat)
    requires j < 7 + 2 * |d.entities|
    ensures TextFacts(subject, d)[j].pred == Iri(TextPredicates()[TextSlot(|d.entities|, j)])
  {
    var n := |d.entities|;
    var ts := TextFacts(subject, d);
    var head, body, tail := TextHead(subject, d), EntityFacts(d.id, d.entities), TextTail(subject, d);
    assert ts == head + body + tail;
    if j < 4 {
      assert ts[j] == head[j];
    } else if j < 4 + 2 * n {
      assert ts[j] == body[j - 4];
      var k := (j - 4) / 2;
      if (j - 4) % 2 == 0 {
        assert j - 4 == 2 * k;
        assert body[2 * k].pred == Iri(HasEntity);
      } else {
        assert j - 4 == 2 * k + 1 && k < n;
        assert body[2 * k + 1] == EntityTyping(d.entities[k]);
        assert body[2 * k + 1].pred == Iri(RdfType);
      }
    } else {
      assert ts[j] == tail[j - 4 - 2 * n];
    }
  }

  /** `rdfs:label`, `hasEntityCollection`, `hasSentiment` and
      `rdfs:subClassOf` each occur at one position of the list only. */
  lemma TextPredicateSole(subject: string, d: TextDetail, i: nat)
    requires var n := |d.entities|; i == 1 || i == 2 || i == 4 + 2 * n || i == 6 + 2 * n
    ensures var ts := TextFacts(subject, d);
            i < |ts| && forall j :: 0 <= j < |ts| && j != i ==> ts[j].pred != ts[i].pred
  {
    var n := |d.entities|;
    var ts := TextFacts(subject, d);
    var ps := TextPredicates();
    TextPredicatesDistinct();
    TextPredicateAt(subject, d, i);
    var a := TextSlot(n, i);
    assert a == 1 || a == 2 || a == 4 || a == 5;
    forall j | 0 <= j < |ts| && j != i ensures ts[j].pred != ts[i].pred {
      TextPredicateAt(subject, d, j);
      var b := TextSlot(n, j);
      assert b != a;
      if a < b { assert ps[a] != ps[b]; } else { assert ps[b] != ps[a]; }
    }
  }

  /** The text subject is typed `:text`, labelled with the raw id as an
      `xsd:string`, points at exactly one entity collection and one
      sentiment node; the sentiment node is typed by the sentiment's class,
      and that class is a subclass of `text/sentiment` and of nothing else. */
  lemma TextSubjectFactsReadBack(subject: string, d: TextDetail)
    ensures var g := AsSet(TextFacts(subject, d));
            var s := Iri(subject);
            var sv := SentimentValueClass(d.sentiment);
            && Triple(s, Iri(RdfType), Iri(TextClass)) in g
            && Objects(g, s, Iri(RdfsLabel)) == {StringLiteral(d.id)}
            && Objects(g, s, Iri(HasEntityCollection)) == {EntityCollectionNode(d.id)}
            && Triple(EntityCollectionNode(d.id), Iri(RdfType), Iri(EntityCollectionClass)) in g
            && Objects(g, s, Iri(HasSentiment)) == {SentimentNode(d.id)}
            && Triple(SentimentNode(d.id), Iri(RdfType), sv) in g
            && Objects(g, sv, Iri(RdfsSubClassOf)) == {Iri(SentimentClass)}
  {
    var n := |d.entities|;
    var ts := TextFacts(subject, d);
    var head, tail := TextHead(subject, d), TextTail(subject, d);
    assert ts == head + EntityFacts(d.id, d.entities) + tail;
    assert forall j :: 0 <= j < 4 ==> ts[j] == head[j];
    assert forall j :: 0 <= j < 3 ==> ts[4 + 2 * n + j] == tail[j];
    TextPredicateSole(subject, d, 1);
    ObjectsOfSolePredicate(ts, 1);
    TextPredicateSole(subject, d, 2);
    ObjectsOfSolePredicate(ts, 2);
    TextPredicateSole(subject, d, 4 + 2 * n);
    ObjectsOfSolePredicate(ts, 4 + 2 * n);
    TextPredicateSole(subject, d, 6 + 2 * n);
    ObjectsOfSolePredicate(ts, 6 + 2 * n);
    assert ts[0] in ts && ts[3] in ts && ts[5 + 2 * n] in ts;
  }

  /** A triple of the list has predicate `hasEntity` exactly when it is the
      edge from the record's collection to the node of one of its entities. */
  lemma HasEntityMember(subject: string, d: TextDetail, t: Triple)
    ensures t in TextFacts(subject, d) && t.pred == Iri(HasEntity)
            <==> exists e :: e in d.entities && t == HasEntityEdge(d.id, e)
  {
    if t in TextFacts(subject, d) && t.pred == Iri(HasEntity) {
      HasEntityEdgeSound(subject, d, t);
    }
    if exists e :: e in d.entities && t == HasEntityEdge(d.id, e) {
      var e :| e in d.entities && t == HasEntityEdge(d.id, e);
      HasEntityEdgePresent(subject, d, e);
    }
  }

  lemma HasEntityEdgeSound(subject: string, d: TextDetail, t: Triple)
    requires t in TextFacts(subject, d) && t.pred == Iri(HasEntity)
    ensures exists e :: e in d.entities && t == HasEntityEdge(d.id, e)
  {
    var n := |d.entities|;
    var ts := TextFacts(subject, d);
    var body := EntityFacts(d.id, d.entities);
    TextPredicatesDistinct();
    var j :| 0 <= j < |ts| && ts[j] == t;
    TextPredicateAt(subject, d, j);
    assert TextSlot(n, j) == 3;
    assert ts == TextHead(subject, d) + body + TextTail(subject, d);
    var k := (j - 4) / 2;
    assert ts[j] == body[2 * k];
    assert d.entities[k] in d.entities;
  }

  lemma HasEntityEdgePresent(subject: string, d: TextDetail, e: Entity)
    requires e in d.entities
    ensures HasEntityEdge(d.id, e) in TextFacts(subject, d)
  {
    var ts := TextFacts(subject, d);
    var body := EntityFacts(d.id, d.entities);
    var k :| 0 <= k < |d.entities| && d.entities[k] == e;
    assert ts == TextHead(subject, d) + body + TextTail(subject, d);
    assert ts[4 + 2 * k] == body[2 * k];
  }

  /** Read back from the graph, the record's entity collection holds exactly
      the nodes of the lower-cased entity types. */
  lemma EntityTypesReadBack(subject: string, d: TextDetail)
    ensures var g := AsSet(TextFacts(subject, d));
            Objects(g, EntityCollectionNode(d.id), Iri(HasEntity))
              == set e | e in d.entities :: EntityNode(e.entityType)
  {
    var g := AsSet(TextFacts(subject, d));
    var read := Objects(g, EntityCollectionNode(d.id), Iri(HasEntity));
    var nodes := set e | e in d.entities :: EntityNode(e.entityType);
    forall o | o in nodes ensures o in read {
      var e :| e in d.entities && o == EntityNode(e.entityType);
      HasEntityMember(subject, d, HasEntityEdge(d.id, e));
    }
    forall o | o in read ensures o in nodes {
      var t :| t in g && t.subj == EntityCollectionNode(d.id) && t.pred == Iri(HasEntity) && t.obj == o;
      HasEntityMember(subject, d, t);
    }
  }

  /** Every entity node of the record is typed `entity` in the graph. */
  lemma EntityNodesTyped(subject: string, d: TextDetail)
    ensures forall e :: e in d.entities ==> EntityTyping(e) in AsSet(TextFacts(subject, d))
  {
    var ts := TextFacts(subject, d);
    var body := EntityFacts(d.id, d.entities);
    assert ts == TextHead(subject, d) + body + TextTail(subject, d);
    forall e | e in d.entities ensures EntityTyping(e) in AsSet(ts) {
      var k :| 0 <= k < |d.entities| && d.entities[k] == e;
      assert ts[4 + 2 * k + 1] == body[2 * k + 1];
    }
  }

  /** Only the entity types enter the list: records that differ in entity
      texts but agree on the types, position by position, give the same
      triples. */
  lemma {:induction false} EntityTextsNotRecorded(id: string, es: seq<Entity>, es': seq<Entity>)
    requires |es| == |es'|
    requires forall k :: 0 <= k < |es| ==> es[k].entityType == es'[k].entityType
    ensures EntityFacts(id, es) == EntityFacts(id, es')
    decreases |es|
  {
    if |es| > 0 {
      EntityTextsNotRecorded(id, es[1..], es'[1..]);
    }
  }

  /** Two records mentioning entity types that lower-case alike point at one
      shared entity node, whatever their ids. */
  lemma SharedEntityNode(s1: string, d1: TextDetail, e1: Entity, s2: string, d2: TextDetail, e2: Entity)
    requires e1 in d1.entities && e2 in d2.entities
    requires Lower(e1.entityType) == Lower(e2.entityType)
    ensures var n := EntityNode(e1.entityType);
            && Triple(EntityCollectionNode(d1.id), Iri(HasEntity), n) in TextFacts(s1, d1)
            && Triple(EntityCollectionNode(d2.id), Iri(HasEntity), n) in TextFacts(s2, d2)
  {
    HasEntityMember(s1, d1, HasEntityEdge(d1.id, e1));
    HasEntityMember(s2, d2, HasEntityEdge(d2.id, e2));
  }

  /** Two entities of the same lower-cased type in one record yield the
      same two triples twice, so the graph gains fewer facts than the list
      has entries. */
  lemma RepeatedEntityTypeCollapses(subject: string, d: TextDetail, i: nat, j: nat)
    requires i < j < |d.entities|
    requires Lower(d.entities[i].entityType) == Lower(d.entities[j].entityType)
    ensures |AsSet(TextFacts(subject, d))| < 7 + 2 * |d.entities|
  {
    var ts := TextFacts(subject, d);
    var body := EntityFacts(d.id, d.entities);
    assert ts == TextHead(subject, d) + body + TextTail(subject, d);
    assert ts[4 + 2 * i] == body[2 * i];
    assert ts[4 + 2 * j] == body[2 * j];
    RepeatedTripleCollapses(ts, 4 + 2 * i, 4 + 2 * j);
  }

  /** The record with id "t1", one PERSON entity and a POSITIVE sentiment
      gives nine triples, among them the text's typing, the edge to the
      `person` node and the subclass edge of `positive`. */
  lemma OnePersonPositive(subject: string)
    ensures var d := TextDetail("t1", [Entity("PERSON", "Ada")], "POSITIVE");
            var ts := TextFacts(subject, d);
            && |ts| == 9
            && Triple(Iri(subject), Iri(RdfType), Iri(TextClass)) in ts
            && Triple(Iri(EntityCollectionNs + "t1"), Iri(HasEntity), Iri(EntityCollectionNs + "person")) in ts
            && Triple(Iri(TextNs + "positive"), Iri(RdfsSubClassOf), Iri(SentimentClass)) in ts
  {
    var d := TextDetail("t1", [Entity("PERSON", "Ada")], "POSITIVE");
    var ts := TextFacts(subject, d);
    assert Lower("PERSON") == "person";
    assert Lower("POSITIVE") == "positive";
    assert ts[0] in ts && ts[4] in ts && ts[8] in ts;
  }

  /** A record whose id gives no valid subject URI ends the invocation: the
      graph keeps only what earlier records added. */
  lemma InvalidTextIdStops(wellFormed: string -> bool, g: Graph, before: seq<Delivery<TextDetail>>,
                           d: TextDetail, reply: StoreReply, after: seq<Delivery<TextDetail>>)
    requires forall i :: 0 <= i < |before| ==>
               StepOf((x: TextDetail) => ExtractText(wellFormed, x), before[i]).Next?
    requires !wellFormed(AppNs + Uris.Escape(d.id))
    ensures HandleTexts(wellFormed, g, before + [Delivery(Fetched(d), reply)] + after)
         == Run(g + Added((x: TextDetail) => ExtractText(wellFormed, x), before), |before|, Returned(InvalidSubject))
  {
    var extract := (x: TextDetail) => ExtractText(wellFormed, x);
    assert extract(d) == BadSubject;
    BadSubjectSkipsRest(extract, g, before, d, reply, after);
  }

  /** Re-delivering the same text event leaves the graph as it is. */
  lemma TextRedeliveryIdempotent(wellFormed: string -> bool, g: Graph, ds: seq<Delivery<TextDetail>>)
    ensures var first := HandleTexts(wellFormed, g, ds);
            HandleTexts(wellFormed, first.graph, ds) == first
  {
    RedeliveryIdempotent((x: TextDetail) => ExtractText(wellFormed, x), g, ds);
  }
}
