/** The image handler (S3RekognitionToBlazegraphLambda): from a decoded
    `SelfieDetail` to the triples it adds to the selfies graph.

    The handler picks the main face (largest bounding box, first on ties),
    creates the subject URI inside the only guarded block, and then emits a
    fixed block of twelve triples about the selfie, its face detail and its
    scene, followed by one `isDescribedBy` triple per label, each followed
    by one `hasParent` triple per parent of that label. Every IRI other than
    the subject is a raw concatenation parsed by `UriFactory.Create`
    outside any guard. */
module Selfies {
  import opened Options
  import opened Strings
  import opened Rdf
  import opened Graphs
  import opened Selection
  import opened Detections

  const SelfieClass := AppNs + "selfie"
  const HasFaceDetail := AppNs + "selfie/hasFaceDetail"
  const FaceDetailNs := AppNs + "selfie/faceDetail/"
  const FaceDetailClass := AppNs + "selfie/faceDetail"
  const IsGender := FaceDetailNs + "isGender"
  const HasMinAge := FaceDetailNs + "hasMinAge"
  const HasMaxAge := FaceDetailNs + "hasMaxAge"
  const IsSmiling := FaceDetailNs + "isSmiling"
  const HasSunglasses := FaceDetailNs + "hasSunglasses"
  const IsFeeling := FaceDetailNs + "isFeeling"
  const HasScene := AppNs + "selfie/hasScene"
  const SceneNs := AppNs + "selfie/scene/"
  const SceneClass := AppNs + "selfie/scene"
  const IsDescribedBy := SceneNs + "isDescribedBy"
  const HasParent := SceneNs + "hasParent"

  /** `OrderByDescending(width * height).First()` over the face details. */
  function MainFace(faces: seq<FaceDetail>): (f: FaceDetail)
    requires 0 < |faces|
    ensures f in faces
    ensures forall g :: g in faces ==> Area(g) <= Area(f)
  {
    faces[FirstMaxIndex(faces, Area)]
  }

  /** The handler reaches the `isFeeling` triple without an exception from
      `First()`: there is a face, and the main face lists an emotion. */
  predicate HasFeeling(d: SelfieDetail) {
    0 < |d.facesDetails| && 0 < |MainFace(d.facesDetails).emotions|
  }

  /** The lower-cased type of the highest-confidence emotion, first on ties. */
  function Feeling(face: FaceDetail): (r: string)
    requires 0 < |face.emotions|
    ensures exists e: nat :: IsFirstMax(face.emotions, Confidence, e) && r == Lower(face.emotions[e].emotionType)
    ensures forall i :: 0 <= i < |r| ==> !('A' <= r[i] <= 'Z')
  {
    Lower(face.emotions[FirstMaxIndex(face.emotions, Confidence)].emotionType)
  }

  function FaceDetailNode(imageName: string): Node {
    Iri(FaceDetailNs + imageName)
  }

  /** Scene resources and label resources share one namespace, unescaped. */
  function SceneNode(name: string): Node {
    Iri(SceneNs + name)
  }

  function DescribedBy(imageName: string, l: Label): Triple {
    Triple(SceneNode(imageName), Iri(IsDescribedBy), SceneNode(l.name))
  }

  function ParentEdge(l: Label, p: Parent): Triple {
    Triple(SceneNode(l.name), Iri(HasParent), SceneNode(p.name))
  }

  function ParentFacts(l: Label): (r: seq<Triple>)
    ensures |r| == |l.parents|
    ensures forall k :: 0 <= k < |r| ==> r[k] == ParentEdge(l, l.parents[k])
  {
    seq(|l.parents|, k requires 0 <= k < |l.parents| => ParentEdge(l, l.parents[k]))
  }

  /** Σ over the labels of (1 + number of parents). */
  function LabelTripleCount(ls: seq<Label>): nat
    decreases |ls|
  {
    if |ls| == 0 then 0 else 1 + |ls[0].parents| + LabelTripleCount(ls[1..])
  }

  /** The nested `foreach` over labels and their parents. */
  function LabelFacts(imageName: string, ls: seq<Label>): (r: seq<Triple>)
    ensures |r| == LabelTripleCount(ls)
    ensures forall t :: t in r ==> t.pred == Iri(IsDescribedBy) || t.pred == Iri(HasParent)
    decreases |ls|
  {
    if |ls| == 0 then []
    else [DescribedBy(imageName, ls[0])] + ParentFacts(ls[0]) + LabelFacts(imageName, ls[1..])
  }

  /** The literals the handler writes for the main face. */
  datatype FaceAttributes = FaceAttributes(
    gender: Node, minAge: Node, maxAge: Node, smiling: Node, sunglasses: Node, feeling: Node)

  /** Gender and feeling as lower-cased `xsd:string` literals, the age bounds
      as `xsd:integer` literals of `int.ToString()`, and the two flags as
      `xsd:boolean` literals of `Convert.ToInt32(flag).ToString()`; each
      denotes the value it was made from. */
  function Attributes(face: FaceDetail, feeling: string): (a: FaceAttributes)
    ensures a.gender.Literal? && a.gender.xsd == XsdString && a.gender.lexical == Lower(face.gender)
    ensures a.minAge.Literal? && a.minAge.xsd == XsdInteger && IntegerValue(a.minAge.lexical) == Some(face.ageRange.low)
    ensures a.maxAge.Literal? && a.maxAge.xsd == XsdInteger && IntegerValue(a.maxAge.lexical) == Some(face.ageRange.high)
    ensures a.smiling.Literal? && a.smiling.xsd == XsdBoolean && BooleanValue(a.smiling.lexical) == Some(face.smile)
    ensures a.sunglasses.Literal? && a.sunglasses.xsd == XsdBoolean && BooleanValue(a.sunglasses.lexical) == Some(face.sunglasses)
    ensures a.feeling.Literal? && a.feeling.xsd == XsdString && a.feeling.lexical == feeling
  {
    IntegerLiteralValue(face.ageRange.low);
    IntegerLiteralValue(face.ageRange.high);
    FaceAttributes(
      StringLiteral(Lower(face.gender)),
      IntegerLiteral(face.ageRange.low),
      IntegerLiteral(face.ageRange.high),
      BooleanLiteral(face.smile),
      BooleanLiteral(face.sunglasses),
      StringLiteral(feeling))
  }

  /** The twelve triples about the selfie, its main face and its scene. */
  function FixedFacts(subject: string, imageName: string, a: FaceAttributes): (r: seq<Triple>)
    ensures |r| == 12
  {
    var s := Iri(subject);
    var fd := FaceDetailNode(imageName);
    var sc := SceneNode(imageName);
    [ Triple(s, Iri(RdfType), Iri(SelfieClass)),
      Triple(s, Iri(RdfsLabel), StringLiteral(imageName)),
      Triple(s, Iri(HasFaceDetail), fd),
      Triple(fd, Iri(RdfType), Iri(FaceDetailClass)),
      Triple(fd, Iri(IsGender), a.gender),
      Triple(fd, Iri(HasMinAge), a.minAge),
      Triple(fd, Iri(HasMaxAge), a.maxAge),
      Triple(fd, Iri(IsSmiling), a.smiling),
      Triple(fd, Iri(HasSunglasses), a.sunglasses),
      Triple(fd, Iri(IsFeeling), a.feeling),
      Triple(s, Iri(HasScene), sc),
      Triple(sc, Iri(RdfType), Iri(SceneClass)) ]
  }

  /** The attributes of the main face of a record. */
  function MainFaceAttributes(d: SelfieDetail): FaceAttributes
    requires HasFeeling(d)
  {
    var face := MainFace(d.facesDetails);
    Attributes(face, Feeling(face))
  }

  /** The triple list the handler builds, in emission order, for a subject
      URI that was created successfully. */
  function ImageFacts(subject: string, d: SelfieDetail): (ts: seq<Triple>)
    requires HasFeeling(d)
    ensures |ts| == 12 + LabelTripleCount(d.labels)
  {
    FixedFacts(subject, d.imageName, MainFaceAttributes(d)) + LabelFacts(d.imageName, d.labels)
  }

  /** One record: the main face is picked first (throwing on no faces),
      then the subject URI is created in the guarded block, then every
      other IRI and the dominant emotion, any of which may throw. */
  function ExtractImage(wellFormed: string -> bool, d: SelfieDetail): (x: Extraction)
    ensures |d.facesDetails| == 0 ==> x == Throws
    ensures x == BadSubject <==> 0 < |d.facesDetails| && SubjectIri(wellFormed, d.imageName).None?
    ensures x.Facts? <==>
              && HasFeeling(d)
              && SubjectIri(wellFormed, d.imageName).Some?
              && AllIrisAccepted(wellFormed, ImageFacts(SubjectIri(wellFormed, d.imageName).value, d))
    ensures x.Facts? ==> x.triples == ImageFacts(AppNs + Uris.Escape(d.imageName), d)
  {
    if |d.facesDetails| == 0 then Throws
    else
      match SubjectIri(wellFormed, d.imageName)
      case None => BadSubject
      case Some(subject) =>
        if |MainFace(d.facesDetails).emotions| == 0 then Throws
        else
          var ts := ImageFacts(subject, d);
          if AllIrisAccepted(wellFormed, ts) then Facts(ts) else Throws
  }

  /** `FunctionHandler`: the record loop over image records. */
  function HandleSelfies(wellFormed: string -> bool, g: Graph, ds: seq<Delivery<SelfieDetail>>): (run: Run)
    ensures run.consumed <= |ds|
    ensures g <= run.graph
    ensures forall t :: t in run.graph && t !in g ==>
              exists i :: 0 <= i < run.consumed && ds[i].fetch.Fetched? && ds[i].reply == Stored
                && ExtractImage(wellFormed, ds[i].fetch.detail).Facts?
                && t in ImageFacts(AppNs + Uris.Escape(ds[i].fetch.detail.imageName), ds[i].fetch.detail)
  {
    HandleProvenance((d: SelfieDetail) => ExtractImage(wellFormed, d), g, ds);
    Handle((d: SelfieDetail) => ExtractImage(wellFormed, d), g, ds)
  }

  /** Every predicate the image handler uses. */
  function ImagePredicates(): seq<string> {
    [ RdfType, RdfsLabel, HasFaceDetail, IsGender, HasMinAge, HasMaxAge,
      IsSmiling, HasSunglasses, IsFeeling, HasScene, IsDescribedBy, HasParent ]
  }

  /** The predicates of the image vocabulary are pairwise distinct IRIs:
      most differ in length, the others at one position. */
  lemma PredicatesDistinct()
    ensures var ps := ImagePredicates();
            forall i, j :: 0 <= i < j < |ps| ==> ps[i] != ps[j]
  {
    assert |RdfType| == 47 && |RdfsLabel| == 42 && |HasFaceDetail| == 45 && |HasScene| == 40;
    assert |IsGender| == 51 && |IsDescribedBy| == 51 && |HasParent| == 47 && |HasSunglasses| == 56;
    assert |HasMinAge| == 52 && |HasMaxAge| == 52 && |IsSmiling| == 52 && |IsFeeling| == 52;
    assert IsGender[32] != IsDescribedBy[32];
    assert HasMinAge[47] != HasMaxAge[47];
    assert HasMinAge[43] != IsSmiling[43] && HasMinAge[43] != IsFeeling[43];
    assert HasMaxAge[43] != IsSmiling[43] && HasMaxAge[43] != IsFeeling[43];
    assert IsSmiling[45] != IsFeeling[45];
    assert RdfType[7] != HasParent[7];
  }

  /** Every triple of the label block is one `isDescribedBy` edge from the
      image's scene to a label, or one `hasParent` edge from a label to one
      of its parents, and every such edge is there. */
  lemma {:induction false} LabelFactsMembers(imageName: string, ls: seq<Label>, t: Triple)
    ensures t in LabelFacts(imageName, ls) <==>
              || (exists l :: l in ls && t == DescribedBy(imageName, l))
              || (exists l, p :: l in ls && p in l.parents && t == ParentEdge(l, p))
    decreases |ls|
  {
    if |ls| > 0 {
      LabelFactsMembers(imageName, ls[1..], t);
      var pf := ParentFacts(ls[0]);
      assert t in pf <==> exists p :: p in ls[0].parents && t == ParentEdge(ls[0], p) by {
        if t in pf {
          var k :| 0 <= k < |pf| && pf[k] == t;
          assert ls[0].parents[k] in ls[0].parents;
        }
        if exists p :: p in ls[0].parents && t == ParentEdge(ls[0], p) {
          var p :| p in ls[0].parents && t == ParentEdge(ls[0], p);
          var k :| 0 <= k < |ls[0].parents| && ls[0].parents[k] == p;
          assert pf[k] == t;
        }
      }
      assert forall l :: l in ls <==> l == ls[0] || l in ls[1..];
    }
  }

  /** The label block of a concatenation is the concatenation of the blocks. */
  lemma {:induction false} LabelFactsAppend(imageName: string, a: seq<Label>, b: seq<Label>)
    ensures LabelFacts(imageName, a + b) == LabelFacts(imageName, a) + LabelFacts(imageName, b)
    decreases |a|
  {
    if |a| > 0 {
      assert (a + b)[0] == a[0];
      assert (a + b)[1..] == a[1..] + b;
      LabelFactsAppend(imageName, a[1..], b);
      var head := [DescribedBy(imageName, a[0])] + ParentFacts(a[0]);
      assert LabelFacts(imageName, a + b) == head + LabelFacts(imageName, a[1..] + b);
      assert LabelFacts(imageName, a) == head + LabelFacts(imageName, a[1..]);
    } else {
      assert a + b == b;
    }
  }

  /** Label `i` contributes its `isDescribedBy` triple at offset
      Σ_{j<i} (1 + |parents_j|) of the label block, immediately followed by
      its `hasParent` triples in parent order. */
  lemma LabelFactsOrder(imageName: string, ls: seq<Label>, i: nat)
    requires i < |ls|
    ensures var r := LabelFacts(imageName, ls);
            var o := LabelTripleCount(ls[..i]);
            && o + 1 + |ls[i].parents| <= |r|
            && r[o] == DescribedBy(imageName, ls[i])
            && forall k :: 0 <= k < |ls[i].parents| ==> r[o + 1 + k] == ParentEdge(ls[i], ls[i].parents[k])
  {
    var before := LabelFacts(imageName, ls[..i]);
    var here := LabelFacts(imageName, ls[i..]);
    assert ls == ls[..i] + ls[i..];
    LabelFactsAppend(imageName, ls[..i], ls[i..]);
    assert ls[i..][0] == ls[i];
    LabelFactsHead(imageName, ls[i..]);
    assert |before| == LabelTripleCount(ls[..i]);
  }

  /** The first label opens the block with its `isDescribedBy` triple and
      its `hasParent` triples. */
  lemma LabelFactsHead(imageName: string, ls: seq<Label>)
    requires 0 < |ls|
    ensures var r := LabelFacts(imageName, ls);
            && 1 + |ls[0].parents| <= |r|
            && r[0] == DescribedBy(imageName, ls[0])
            && forall k :: 0 <= k < |ls[0].parents| ==> r[1 + k] == ParentEdge(ls[0], ls[0].parents[k])
  {
    HeadThenBlock(DescribedBy(imageName, ls[0]), ParentFacts(ls[0]), LabelFacts(imageName, ls[1..]));
  }

  lemma HeadThenBlock(x: Triple, a: seq<Triple>, b: seq<Triple>)
    ensures var r := [x] + a + b;
            r[0] == x && forall k :: 0 <= k < |a| ==> r[1 + k] == a[k]
  {
  }

  /** Where each triple of the fixed block takes its predicate from in
      `ImagePredicates()`. */
  function FixedSlots(): seq<nat> {
    [0, 1, 2, 0, 3, 4, 5, 6, 7, 8, 9, 0]
  }

  lemma FixedPredicate(subject: string, imageName: string, a: FaceAttributes, j: nat)
    requires j < 12
    ensures FixedFacts(subject, imageName, a)[j].pred == Iri(ImagePredicates()[FixedSlots()[j]])
  {
  }

  /** Within the fixed block, every predicate other than `rdf:type` is used
      at one position only. */
  lemma FixedPredicateOnce(subject: string, imageName: string, a: FaceAttributes, i: nat, j: nat)
    requires 1 <= i <= 10 && i != 3 && j < 12 && j != i
    ensures var fixed := FixedFacts(subject, imageName, a);
            fixed[j].pred != fixed[i].pred
  {
    FixedPredicate(subject, imageName, a, i);
    FixedPredicate(subject, imageName, a, j);
    var x, y := FixedSlots()[j], FixedSlots()[i];
    assert x != y;
    PredicateSlotsDistinct(x, y);
  }

  /** The fixed block uses neither label predicate. */
  lemma FixedPredicateNotScene(subject: string, imageName: string, a: FaceAttributes, j: nat)
    requires j < 12
    ensures var fixed := FixedFacts(subject, imageName, a);
            fixed[j].pred != Iri(IsDescribedBy) && fixed[j].pred != Iri(HasParent)
  {
    FixedPredicate(subject, imageName, a, j);
    var x := FixedSlots()[j];
    assert x < 10;
    PredicateSlotsDistinct(x, 10);
    PredicateSlotsDistinct(x, 11);
    LabelPredicateSlots();
  }

  lemma LabelPredicateSlots()
    ensures ImagePredicates()[10] == IsDescribedBy && ImagePredicates()[11] == HasParent
  {
  }

  lemma PredicateSlotsDistinct(a: nat, b: nat)
    requires a < 12 && b < 12 && a != b
    ensures ImagePredicates()[a] != ImagePredicates()[b]
  {
    PredicatesDistinct();
    if a < b {
      assert ImagePredicates()[a] != ImagePredicates()[b];
    } else {
      assert ImagePredicates()[b] != ImagePredicates()[a];
    }
  }

  /** A list of scene edges only, such as the label block. */
  predicate SceneEdgesOnly(ls: seq<Triple>) {
    forall t :: t in ls ==> t.pred == Iri(IsDescribedBy) || t.pred == Iri(HasParent)
  }

  /** Behind the fixed block come only scene edges, so the predicates at
      positions 1, 2 and 4 to 10 occur once in the whole list, and querying
      the graph for such a triple's subject and predicate gives back its
      object alone. */
  lemma FixedObjects(subject: string, imageName: string, a: FaceAttributes, rest: seq<Triple>, i: nat)
    requires SceneEdgesOnly(rest)
    requires 1 <= i <= 10 && i != 3
    ensures var fixed := FixedFacts(subject, imageName, a);
            Objects(AsSet(fixed + rest), fixed[i].subj, fixed[i].pred) == {fixed[i].obj}
  {
    var fixed := FixedFacts(subject, imageName, a);
    var ts := fixed + rest;
    forall j | 0 <= j < |ts| && j != i ensures ts[j].pred != ts[i].pred {
      if j < 12 {
        FixedPredicateOnce(subject, imageName, a, i, j);
      } else {
        assert ts[j] in rest;
        FixedPredicateNotScene(subject, imageName, a, i);
      }
    }
    ObjectsOfSolePredicate(ts, i);
  }

  /** Read back from the graph, the face-detail node has exactly one value
      per attribute, the one in `a`. */
  lemma FixedAttributesReadBack(subject: string, imageName: string, a: FaceAttributes, rest: seq<Triple>)
    requires SceneEdgesOnly(rest)
    ensures var g := AsSet(FixedFacts(subject, imageName, a) + rest);
            var fd := FaceDetailNode(imageName);
            && Objects(g, fd, Iri(IsGender)) == {a.gender}
            && Objects(g, fd, Iri(HasMinAge)) == {a.minAge}
            && Objects(g, fd, Iri(HasMaxAge)) == {a.maxAge}
            && Objects(g, fd, Iri(IsSmiling)) == {a.smiling}
            && Objects(g, fd, Iri(HasSunglasses)) == {a.sunglasses}
            && Objects(g, fd, Iri(IsFeeling)) == {a.feeling}
  {
    FixedObjects(subject, imageName, a, rest, 4);
    FixedObjects(subject, imageName, a, rest, 5);
    FixedObjects(subject, imageName, a, rest, 6);
    FixedObjects(subject, imageName, a, rest, 7);
    FixedObjects(subject, imageName, a, rest, 8);
    FixedObjects(subject, imageName, a, rest, 9);
  }

  /** The attributes written are those of the face
      `OrderByDescending(area).First()` returns, with the dominant emotion
      chosen the same way among its emotions. */
  lemma MainFaceIsFirstMax(d: SelfieDetail, k: nat, e: nat)
    requires IsFirstMax(d.facesDetails, Area, k)
    requires IsFirstMax(d.facesDetails[k].emotions, Confidence, e)
    ensures HasFeeling(d)
    ensures MainFaceAttributes(d)
         == Attributes(d.facesDetails[k], Lower(d.facesDetails[k].emotions[e].emotionType))
  {
    FirstMaxUnique(d.facesDetails, Area, k);
    FirstMaxUnique(d.facesDetails[k].emotions, Confidence, e);
  }

  /** The face-detail node carries exactly one value per attribute, the
      attributes of the main face: gender lower-cased as `xsd:string`, ages
      as `xsd:integer` literals of the bounds, smile and sunglasses as
      `xsd:boolean` literals "1"/"0", and the feeling as the lower-cased
      type of the dominant emotion. */
  lemma FaceAttributesReadBack(subject: string, d: SelfieDetail, k: nat, e: nat)
    requires IsFirstMax(d.facesDetails, Area, k)
    requires IsFirstMax(d.facesDetails[k].emotions, Confidence, e)
    ensures HasFeeling(d)
    ensures var g := AsSet(ImageFacts(subject, d));
            var fd := FaceDetailNode(d.imageName);
            var face := d.facesDetails[k];
            && Objects(g, fd, Iri(IsGender)) == {StringLiteral(Lower(face.gender))}
            && Objects(g, fd, Iri(HasMinAge)) == {IntegerLiteral(face.ageRange.low)}
            && Objects(g, fd, Iri(HasMaxAge)) == {IntegerLiteral(face.ageRange.high)}
            && Objects(g, fd, Iri(IsSmiling)) == {BooleanLiteral(face.smile)}
            && Objects(g, fd, Iri(HasSunglasses)) == {BooleanLiteral(face.sunglasses)}
            && Objects(g, fd, Iri(IsFeeling)) == {StringLiteral(Lower(face.emotions[e].emotionType))}
  {
    MainFaceIsFirstMax(d, k, e);
    var a := MainFaceAttributes(d);
    var rest := LabelFacts(d.imageName, d.labels);
    assert ImageFacts(subject, d) == FixedFacts(subject, d.imageName, a) + rest;
    FixedAttributesReadBack(subject, d.imageName, a, rest);
  }

  /** The selfie subject is typed `:selfie`, labelled with the raw image name
      as an `xsd:string`, and points at exactly one face-detail node and one
      scene node, both typed by their classes. */
  lemma SubjectFactsReadBack(subject: string, d: SelfieDetail)
    requires HasFeeling(d)
    ensures var g := AsSet(ImageFacts(subject, d));
            var s := Iri(subject);
            var fd := FaceDetailNode(d.imageName);
            var sc := SceneNode(d.imageName);
            && Triple(s, Iri(RdfType), Iri(SelfieClass)) in g
            && Objects(g, s, Iri(RdfsLabel)) == {StringLiteral(d.imageName)}
            && Objects(g, s, Iri(HasFaceDetail)) == {fd}
            && Objects(g, s, Iri(HasScene)) == {sc}
            && Triple(fd, Iri(RdfType), Iri(FaceDetailClass)) in g
            && Triple(sc, Iri(RdfType), Iri(SceneClass)) in g
  {
    var a := MainFaceAttributes(d);
    var rest := LabelFacts(d.imageName, d.labels);
    assert ImageFacts(subject, d) == FixedFacts(subject, d.imageName, a) + rest;
    FixedSubjectLinks(subject, d.imageName, a, rest);
    FixedTypings(subject, d.imageName, a, rest);
  }

  lemma FixedSubjectLinks(subject: string, imageName: string, a: FaceAttributes, rest: seq<Triple>)
    requires SceneEdgesOnly(rest)
    ensures var g := AsSet(FixedFacts(subject, imageName, a) + rest);
            var s := Iri(subject);
            && Objects(g, s, Iri(RdfsLabel)) == {StringLiteral(imageName)}
            && Objects(g, s, Iri(HasFaceDetail)) == {FaceDetailNode(imageName)}
            && Objects(g, s, Iri(HasScene)) == {SceneNode(imageName)}
  {
    var fixed := FixedFacts(subject, imageName, a);
    assert fixed[1] == Triple(Iri(subject), Iri(RdfsLabel), StringLiteral(imageName));
    assert fixed[2] == Triple(Iri(subject), Iri(HasFaceDetail), FaceDetailNode(imageName));
    assert fixed[10] == Triple(Iri(subject), Iri(HasScene), SceneNode(imageName));
    FixedObjects(subject, imageName, a, rest, 1);
    FixedObjects(subject, imageName, a, rest, 2);
    FixedObjects(subject, imageName, a, rest, 10);
  }

  lemma FixedTypings(subject: string, imageName: string, a: FaceAttributes, rest: seq<Triple>)
    ensures var g := AsSet(FixedFacts(subject, imageName, a) + rest);
            && Triple(Iri(subject), Iri(RdfType), Iri(SelfieClass)) in g
            && Triple(FaceDetailNode(imageName), Iri(RdfType), Iri(FaceDetailClass)) in g
            && Triple(SceneNode(imageName), Iri(RdfType), Iri(SceneClass)) in g
  {
    var ts := FixedFacts(subject, imageName, a) + rest;
    assert ts[0] in ts && ts[3] in ts && ts[11] in ts;
  }

  /** The scene edges of the list are exactly the label block. */
  lemma SceneEdgesAreLabelBlock(subject: string, d: SelfieDetail, t: Triple)
    requires HasFeeling(d)
    ensures t in ImageFacts(subject, d) && (t.pred == Iri(IsDescribedBy) || t.pred == Iri(HasParent))
            <==> t in LabelFacts(d.imageName, d.labels)
  {
    var ts := ImageFacts(subject, d);
    var fixed := FixedFacts(subject, d.imageName, MainFaceAttributes(d));
    var labels := LabelFacts(d.imageName, d.labels);
    assert ts == fixed + labels;
    if t in fixed {
      var j :| 0 <= j < 12 && fixed[j] == t;
      FixedPredicateNotScene(subject, d.imageName, MainFaceAttributes(d), j);
    }
  }

  /** Read back from the graph, the scene of the image is described by
      exactly the labels of the record. */
  lemma DescribedByReadBack(subject: string, d: SelfieDetail)
    requires HasFeeling(d)
    ensures Objects(AsSet(ImageFacts(subject, d)), SceneNode(d.imageName), Iri(IsDescribedBy))
              == set l | l in d.labels :: SceneNode(l.name)
  {
    var g := AsSet(ImageFacts(subject, d));
    var labels := LabelFacts(d.imageName, d.labels);
    var described := set l | l in d.labels :: SceneNode(l.name);
    PredicatesDistinct();
    assert ImagePredicates()[10] != ImagePredicates()[11];
    forall o ensures o in Objects(g, SceneNode(d.imageName), Iri(IsDescribedBy)) <==> o in described {
      if o in described {
        var l :| l in d.labels && o == SceneNode(l.name);
        var t := DescribedBy(d.imageName, l);
        LabelFactsMembers(d.imageName, d.labels, t);
        SceneEdgesAreLabelBlock(subject, d, t);
      }
      if o in Objects(g, SceneNode(d.imageName), Iri(IsDescribedBy)) {
        var t :| t in g && t.subj == SceneNode(d.imageName) && t.pred == Iri(IsDescribedBy) && t.obj == o;
        SceneEdgesAreLabelBlock(subject, d, t);
        LabelFactsMembers(d.imageName, d.labels, t);
      }
    }
  }

  /** A triple of the list has predicate `hasParent` exactly when it is the
      edge from some label of the record to one of its parents. */
  lemma ParentEdgeMember(subject: string, d: SelfieDetail, t: Triple)
    requires HasFeeling(d)
    ensures t in ImageFacts(subject, d) && t.pred == Iri(HasParent)
            <==> exists l, p :: l in d.labels && p in l.parents && t == ParentEdge(l, p)
  {
    PredicatesDistinct();
    assert ImagePredicates()[10] != ImagePredicates()[11];
    SceneEdgesAreLabelBlock(subject, d, t);
    LabelFactsMembers(d.imageName, d.labels, t);
  }

  /** Read back from the graph, the `hasParent` edges are exactly the
      (label, parent) pairs of the record. */
  lemma ParentEdgesReadBack(subject: string, d: SelfieDetail)
    requires HasFeeling(d)
    ensures (set t | t in AsSet(ImageFacts(subject, d)) && t.pred == Iri(HasParent) :: (t.subj, t.obj))
              == set l, p | l in d.labels && p in l.parents :: (SceneNode(l.name), SceneNode(p.name))
  {
    var ts := ImageFacts(subject, d);
    forall t ensures t in ts && t.pred == Iri(HasParent)
                     <==> exists l, p :: l in d.labels && p in l.parents && t == ParentEdge(l, p)
    {
      ParentEdgeMember(subject, d, t);
    }
    ParentPairs(AsSet(ts), d.labels);
  }

  lemma ParentPairs(g: set<Triple>, ls: seq<Label>)
    requires forall t :: t in g && t.pred == Iri(HasParent)
                         <==> exists l, p :: l in ls && p in l.parents && t == ParentEdge(l, p)
    ensures (set t | t in g && t.pred == Iri(HasParent) :: (t.subj, t.obj))
              == set l, p | l in ls && p in l.parents :: (SceneNode(l.name), SceneNode(p.name))
  {
    var edges := set l, p | l in ls && p in l.parents :: (SceneNode(l.name), SceneNode(p.name));
    var read := set t | t in g && t.pred == Iri(HasParent) :: (t.subj, t.obj);
    forall e | e in edges ensures e in read {
      var l, p :| l in ls && p in l.parents && e == (SceneNode(l.name), SceneNode(p.name));
      assert ParentEdge(l, p) in g;
    }
    forall e | e in read ensures e in edges {
      var t :| t in g && t.pred == Iri(HasParent) && e == (t.subj, t.obj);
      var l, p :| l in ls && p in l.parents && t == ParentEdge(l, p);
    }
  }

  /** Every literal the image handler writes lies in the lexical space of
      its datatype. */
  lemma ImageFactsWellTyped(subject: string, d: SelfieDetail)
    requires HasFeeling(d)
    ensures forall t :: t in ImageFacts(subject, d) ==> TripleWellTyped(t)
  {
    var ts := ImageFacts(subject, d);
    var labels := LabelFacts(d.imageName, d.labels);
    var a := MainFaceAttributes(d);
    assert ts == FixedFacts(subject, d.imageName, a) + labels;
    FixedFactsWellTyped(subject, d.imageName, a);
    forall t | t in labels ensures TripleWellTyped(t) {
      LabelFactsMembers(d.imageName, d.labels, t);
    }
  }

  /** The fixed block is well typed whenever the attribute literals are. */
  lemma FixedFactsWellTyped(subject: string, imageName: string, a: FaceAttributes)
    requires WellTyped(a.gender) && WellTyped(a.minAge) && WellTyped(a.maxAge)
    requires WellTyped(a.smiling) && WellTyped(a.sunglasses) && WellTyped(a.feeling)
    ensures forall t :: t in FixedFacts(subject, imageName, a) ==> TripleWellTyped(t)
  {
    var fixed := FixedFacts(subject, imageName, a);
    forall t | t in fixed ensures TripleWellTyped(t) {
      var j :| 0 <= j < 12 && fixed[j] == t;
    }
  }

  /** Between HAPPY and CALM at equal confidence the one listed first wins,
      and is written lower-cased. */
  lemma FirstEmotionWinsTie()
    ensures var face := FaceDetail(BoundingBox(1.0, 1.0), 99.0, "Female", AgeRange(20, 30), true, false,
                                   [Emotion("HAPPY", 0.9), Emotion("CALM", 0.9)]);
            Feeling(face) == "happy"
  {
    var es := [Emotion("HAPPY", 0.9), Emotion("CALM", 0.9)];
    FirstMaxUnique(es, Confidence, 0);
  }

  /** A record with a face whose image name gives no valid subject URI ends
      the invocation: the graph keeps only what earlier records added, and
      no later record is looked at. */
  lemma InvalidImageNameStops(wellFormed: string -> bool, g: Graph, before: seq<Delivery<SelfieDetail>>,
                              d: SelfieDetail, reply: StoreReply, after: seq<Delivery<SelfieDetail>>)
    requires forall i :: 0 <= i < |before| ==>
               StepOf((x: SelfieDetail) => ExtractImage(wellFormed, x), before[i]).Next?
    requires 0 < |d.facesDetails|
    requires !wellFormed(AppNs + Uris.Escape(d.imageName))
    ensures HandleSelfies(wellFormed, g, before + [Delivery(Fetched(d), reply)] + after)
         == Run(g + Added((x: SelfieDetail) => ExtractImage(wellFormed, x), before), |before|, Returned(InvalidSubject))
  {
    var extract := (x: SelfieDetail) => ExtractImage(wellFormed, x);
    assert extract(d) == BadSubject;
    BadSubjectSkipsRest(extract, g, before, d, reply, after);
  }

  /** One stored image record adds exactly its triple list, under the
      escaped subject, to the graph. */
  lemma ImageRecordAdds(wellFormed: string -> bool, g: Graph, d: SelfieDetail)
    requires ExtractImage(wellFormed, d).Facts?
    ensures HandleSelfies(wellFormed, g, [Delivery(Fetched(d), Stored)])
         == Run(g + AsSet(ImageFacts(AppNs + Uris.Escape(d.imageName), d)), 1, Completed)
  {
    var extract := (x: SelfieDetail) => ExtractImage(wellFormed, x);
    var ds := [Delivery(Fetched(d), Stored)];
    assert ds[..1] == ds;
    assert ds[1..] == [];
    assert Added(extract, ds) == AsSet(ImageFacts(AppNs + Uris.Escape(d.imageName), d)) + Added(extract, ds[1..]);
  }

  /** Re-delivering the same image event leaves the graph as it is. */
  lemma SelfieRedeliveryIdempotent(wellFormed: string -> bool, g: Graph, ds: seq<Delivery<SelfieDetail>>)
    ensures var first := HandleSelfies(wellFormed, g, ds);
            HandleSelfies(wellFormed, first.graph, ds) == first
  {
    RedeliveryIdempotent((x: SelfieDetail) => ExtractImage(wellFormed, x), g, ds);
  }
}
