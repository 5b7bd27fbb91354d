# Blazegraph selfie and text pipeline: the graph-writing handlers

This project is a Dafny model of three AWS Lambda handlers from the
Blazegraph web application.

- **S3RekognitionToBlazegraphLambda (the image handler).** It reads the
  `SelfieDetail` records that Amazon Rekognition produced for uploaded
  selfies. It picks the main face: the largest bounding box, the first one
  on ties. It then turns the record into RDF triples under the
  `http://blazegraph-webapp/` namespace and merges them into the selfies
  named graph.
- **S3ComprehendToBlazegraphLambda (the text handler).** It does the same
  for the `TextDetail` records of Amazon Comprehend: the entities and the
  sentiment of a text go into the texts graph.
- **S3ToRekognitionLambda (the gate).** It decides which uploaded objects
  are sent to face detection. It keeps the faces that clear a confidence
  threshold. It also decides where their details are stored.

The model is pure functions over immutable data, in these modules:

- `Strings`: ASCII lower-casing, decimal rendering of integers, and .NET's
  white-space test.
- `Uris`: `Uri.EscapeUriString`, treated as RFC 3986 percent-encoding of
  UTF-8 (RFC 3629). The model also has an inverse for it.
- `Rdf`: IRI nodes and typed literals (section 3.3 of RDF 1.1 Concepts and
  Abstract Syntax). It gives the value mappings of `xsd:integer` and
  `xsd:boolean` (sections 3.3.13 and 3.2.2 of XML Schema Part 2). It also
  defines the subject URI, and `Objects` (what a one-pattern query returns).
- `Graphs`: the graph update (G \ removals) ∪ additions. It also holds the
  record loop the two graph handlers share: fetch, extract, update, and the
  ways the loop can end.
- `Selection`: `OrderByDescending(key).First()` as the first index of a
  maximum.
- `Detections`: the record types.
- `Selfies` and `Texts`: the triples of one image record or text record.
- `Paths`: `Path.GetExtension`, `GetFileName`,
  `GetFileNameWithoutExtension` and `Combine`, as they behave on Linux.
- `Gate`: the gate's threshold, whitelist, output key and record loop.

Outside services are parameters:
- Whether `UriFactory.Create` accepts a string is the parameter
  `wellFormed`.
- Whether `float.TryParse` parses a string is the parameter `tryParse`.
- The replies of S3, of Rekognition and of the triple store are fields of
  the records the loops walk over.

Facts about the code worth knowing when reading the model:

- **Triple count of a text record.** A text record with one `PERSON` entity and
  `POSITIVE` sentiment yields nine triples: four head triples, then two per
  entity, then three sentiment triples (`Texts.OnePersonPositive`).
- **No confident face.** When a supported image has no face above the
  threshold, the gate ends the whole invocation (`return`) rather than
  skipping the record. Later records are then never looked at
  (`Gate.NoConfidentFaceStops`).
- **A subject URI that fails to parse.** This ends the invocation in both
  graph handlers. So does a failed graph update.

## Model

| member | source | states |
|---|---|---|
| Strings.Lower | Apps/S3RekognitionToBlazegraphLambda/S3RekognitionToBlazegraphLambda/Function.cs:130 | lower-casing keeps the length, maps each character by itself and leaves no upper-case ASCII letter |
| Strings.LowerIdempotent | Apps/S3ComprehendToBlazegraphLambda/S3ComprehendToBlazegraphLambda/Function.cs:128 | lower-casing an already lower-cased type name changes nothing, so entity resources are stable under repeated lower-casing |
| Strings.NatToDecimal | Apps/S3RekognitionToBlazegraphLambda/S3RekognitionToBlazegraphLambda/Function.cs:135 | `ToString()` of a natural number is a non-empty string of decimal digits, with a leading '0' only for zero itself, which renders as "0" |
| Strings.NatToDecimalRoundTrip | Apps/S3RekognitionToBlazegraphLambda/S3RekognitionToBlazegraphLambda/Function.cs:135 | reading the rendered digits back gives the number |
| Strings.IntToDecimal | Apps/S3RekognitionToBlazegraphLambda/S3RekognitionToBlazegraphLambda/Function.cs:140 | `int.ToString()` starts with '-' exactly for negative numbers, its digits denote the magnitude, and they start with '0' only for zero, which renders as "0" |
| Strings.IsWhiteSpace | Apps/S3ToRekognitionLambda/S3ToRekognitionLambda/Function.cs:63 | `char.IsWhiteSpace`: below U+0100 exactly tab, line feed, vertical tab, form feed, carriage return, space, U+0085 and U+00A0; never a digit or an ASCII letter |
| Strings.IsBlank | Apps/S3ToRekognitionLambda/S3ToRekognitionLambda/Function.cs:63 | a present string is blank exactly when every character is white space; the empty string is blank |
| Uris.Escape | Apps/S3RekognitionToBlazegraphLambda/S3RekognitionToBlazegraphLambda/Function.cs:86 | the escaped string holds only RFC 3986 characters and '%', is never shorter, and equals the input when nothing needs escaping |
| Uris.EscapeAppend | Apps/S3RekognitionToBlazegraphLambda/S3RekognitionToBlazegraphLambda/Function.cs:86 | escaping distributes over concatenation, so namespace + identifier escape separately |
| Uris.PercentEncode | Apps/S3RekognitionToBlazegraphLambda/S3RekognitionToBlazegraphLambda/Function.cs:86 | each byte becomes exactly three characters, all '%' or hex digits |
| Uris.HexRoundTrip | Apps/S3RekognitionToBlazegraphLambda/S3RekognitionToBlazegraphLambda/Function.cs:86 | the two hex digits of a byte read back to that byte |
| Uris.Utf8 | Apps/S3RekognitionToBlazegraphLambda/S3RekognitionToBlazegraphLambda/Function.cs:86 | a character encodes to one to four bytes, one exactly for ASCII |
| Uris.DecodeFirstUtf8 | Apps/S3RekognitionToBlazegraphLambda/S3RekognitionToBlazegraphLambda/Function.cs:86 | decoding the front of an encoded character returns that character and its byte length, whatever follows |
| Uris.Utf8RoundTrip | Apps/S3RekognitionToBlazegraphLambda/S3RekognitionToBlazegraphLambda/Function.cs:86 | UTF-8 decoding inverts UTF-8 encoding |
| Uris.PercentDecodeTriplet | Apps/S3RekognitionToBlazegraphLambda/S3RekognitionToBlazegraphLambda/Function.cs:86 | one %XX triplet decodes to its byte in front of whatever the rest decodes to |
| Uris.PercentDecodeEncode | Apps/S3RekognitionToBlazegraphLambda/S3RekognitionToBlazegraphLambda/Function.cs:86 | percent-decoding inverts percent-encoding in front of any tail |
| Uris.PercentDecodeEscape | Apps/S3RekognitionToBlazegraphLambda/S3RekognitionToBlazegraphLambda/Function.cs:86 | percent-decoding an escaped string gives the UTF-8 bytes of the original |
| Uris.EscapeRoundTrip | Apps/S3RekognitionToBlazegraphLambda/S3RekognitionToBlazegraphLambda/Function.cs:86 | unescaping an escaped string gives the original back |
| Uris.EscapeInjective | Apps/S3ComprehendToBlazegraphLambda/S3ComprehendToBlazegraphLambda/Function.cs:84 | two strings escape to the same string exactly when they are equal |
| Rdf.SubjectIri | Apps/S3RekognitionToBlazegraphLambda/S3RekognitionToBlazegraphLambda/Function.cs:84-92 | the guarded subject creation succeeds exactly when the parser accepts the escaped URI, which is the namespace followed by the escaped identifier |
| Rdf.EscapeUnderNamespace | Apps/S3RekognitionToBlazegraphLambda/S3RekognitionToBlazegraphLambda/Function.cs:86 | escaping the namespace-prefixed identifier leaves the namespace as it is |
| Rdf.SubjectIdentifierRecoverable | Apps/S3RekognitionToBlazegraphLambda/S3RekognitionToBlazegraphLambda/Function.cs:86 | the record identifier can be read back from the escaped subject string, before any `System.Uri` normalisation |
| Rdf.SubjectInjective | Apps/S3ComprehendToBlazegraphLambda/S3ComprehendToBlazegraphLambda/Function.cs:84 | two identifiers give the same escaped subject string exactly when they are equal; `System.Uri` normalisation is not covered |
| Rdf.BooleanLiteral | Apps/S3RekognitionToBlazegraphLambda/S3RekognitionToBlazegraphLambda/Function.cs:145 | `Convert.ToInt32(flag).ToString()` is "1" or "0", a valid `xsd:boolean` that denotes the flag |
| Rdf.IntegerLiteralValue | Apps/S3RekognitionToBlazegraphLambda/S3RekognitionToBlazegraphLambda/Function.cs:135 | an `xsd:integer` literal made from a number denotes that number |
| Graphs.Update | Apps/S3RekognitionToBlazegraphLambda/S3RekognitionToBlazegraphLambda/Function.cs:197 | after an update a triple is in the graph exactly when it was added, or was there and not removed |
| Graphs.AdditionsOnly | Apps/S3RekognitionToBlazegraphLambda/S3RekognitionToBlazegraphLambda/Function.cs:197 | with an empty removal list (as both handlers pass) the update is a union and loses nothing |
| Graphs.UpdateIdempotent | Apps/S3RekognitionToBlazegraphLambda/S3RekognitionToBlazegraphLambda/Function.cs:197 | applying the same additions twice gives the graph applying them once gives |
| Graphs.AdditionsCommute | Apps/S3ComprehendToBlazegraphLambda/S3ComprehendToBlazegraphLambda/Function.cs:165 | two additive updates give the same graph in either order, namely the union of all three |
| Graphs.RemovalsOnly | Apps/S3RekognitionToBlazegraphLambda/S3RekognitionToBlazegraphLambda/Function.cs:197 | the removal list of `UpdateGraph` (empty in both handlers) takes exactly its triples out of the graph |
| Graphs.RepeatedTripleCollapses | Apps/S3ComprehendToBlazegraphLambda/S3ComprehendToBlazegraphLambda/Function.cs:123-137 | a triple list with a repeated triple adds fewer distinct triples than its length |
| Graphs.StepOf | Apps/S3RekognitionToBlazegraphLambda/S3RekognitionToBlazegraphLambda/Function.cs:58-212 | per record: an `AmazonS3Exception` from the fetch is logged and the loop goes on with nothing added; any other fetch failure leaves the handler; a bad subject and a refused update `return`; any other fault leaves the handler; stored facts are added |
| Graphs.FetchFailureContinues | Apps/S3RekognitionToBlazegraphLambda/S3RekognitionToBlazegraphLambda/Function.cs:209-212 | a record whose fetch throws `AmazonS3Exception` is passed over: the run is the run of the later records, one record further on |
| Graphs.FetchFaultEndsInvocation | Apps/S3RekognitionToBlazegraphLambda/S3RekognitionToBlazegraphLambda/Function.cs:59-71 | a fetch that fails with anything other than `AmazonS3Exception` (a network fault, a failed stream read) escapes the catch at :209-212 and faults the invocation, keeping only the earlier records' facts |
| Graphs.Handle | Apps/S3RekognitionToBlazegraphLambda/S3RekognitionToBlazegraphLambda/Function.cs:56-213 | the loop walks records while each one lets it go on; it stops at the first record that ends it, with that record's exit; it completes exactly when it walked all; the graph gains exactly the facts of the walked records |
| Graphs.ConsumedIsFirstStop | Apps/S3RekognitionToBlazegraphLambda/S3RekognitionToBlazegraphLambda/Function.cs:56-213 | the number of records walked is the index of the first record that ends the invocation |
| Graphs.BadSubjectSkipsRest | Apps/S3RekognitionToBlazegraphLambda/S3RekognitionToBlazegraphLambda/Function.cs:88-92 | a record whose subject URI fails ends the invocation there, keeps what earlier records added and adds nothing of its own or later ones |
| Graphs.RedeliveryIdempotent | Apps/S3RekognitionToBlazegraphLambda/S3RekognitionToBlazegraphLambda/Function.cs:195-205 | delivering the same event again leaves the graph and the outcome unchanged |
| Graphs.AddedFrom | Apps/S3RekognitionToBlazegraphLambda/S3RekognitionToBlazegraphLambda/Function.cs:195-198 | every triple a record sequence adds was extracted from one of its records that was fetched and stored |
| Graphs.HandleProvenance | Apps/S3RekognitionToBlazegraphLambda/S3RekognitionToBlazegraphLambda/Function.cs:56-213 | every triple a run adds beyond the starting graph comes from a walked record that was fetched, extracted and stored |
| Selection.FirstMaxIndex | Apps/S3RekognitionToBlazegraphLambda/S3RekognitionToBlazegraphLambda/Function.cs:72 | the chosen element has the largest key, and every element before it has a strictly smaller key |
| Selection.FirstMaxUnique | Apps/S3RekognitionToBlazegraphLambda/S3RekognitionToBlazegraphLambda/Function.cs:72 | any index that is a first maximum is the one chosen: the stable descending sort's first element |
| Selection.FirstOfEqualMaxima | Apps/S3RekognitionToBlazegraphLambda/S3RekognitionToBlazegraphLambda/Function.cs:155 | of two equal maxima the earlier one wins |
| Selfies.MainFace | Apps/S3RekognitionToBlazegraphLambda/S3RekognitionToBlazegraphLambda/Function.cs:72 | the main face is one of the detected faces and no face has a larger bounding box |
| Selfies.MainFaceIsFirstMax | Apps/S3RekognitionToBlazegraphLambda/S3RekognitionToBlazegraphLambda/Function.cs:155 | the attributes recorded are those of the first largest face, with the first most confident emotion lower-cased |
| Selfies.Feeling | Apps/S3RekognitionToBlazegraphLambda/S3RekognitionToBlazegraphLambda/Function.cs:155 | the feeling is the lower-cased type of the emotion `OrderByDescending(confidence).First()` returns, and holds no upper-case ASCII letter |
| Selfies.Attributes | Apps/S3RekognitionToBlazegraphLambda/S3RekognitionToBlazegraphLambda/Function.cs:127-157 | gender and feeling become lower-cased string literals, the ages integer literals and the two flags boolean literals, each denoting the value it was made from |
| Selfies.ParentFacts | Apps/S3RekognitionToBlazegraphLambda/S3RekognitionToBlazegraphLambda/Function.cs:182-189 | a label gives one `hasParent` triple per parent, in the parents' order |
| Selfies.LabelFacts | Apps/S3RekognitionToBlazegraphLambda/S3RekognitionToBlazegraphLambda/Function.cs:175-190 | the label block holds one triple per label plus one per parent and uses only `isDescribedBy` and `hasParent` |
| Selfies.LabelFactsMembers | Apps/S3RekognitionToBlazegraphLambda/S3RekognitionToBlazegraphLambda/Function.cs:175-190 | a triple is in the label block exactly when it describes the scene by a label or links a label to one of its parents |
| Selfies.LabelFactsAppend | Apps/S3RekognitionToBlazegraphLambda/S3RekognitionToBlazegraphLambda/Function.cs:175-190 | the block of a concatenation of labels is the concatenation of their blocks |
| Selfies.LabelFactsHead | Apps/S3RekognitionToBlazegraphLambda/S3RekognitionToBlazegraphLambda/Function.cs:177-189 | the block opens with the first label's `isDescribedBy` triple followed by its parent edges |
| Selfies.LabelFactsOrder | Apps/S3RekognitionToBlazegraphLambda/S3RekognitionToBlazegraphLambda/Function.cs:175-190 | each label's `isDescribedBy` triple is immediately followed by its parent edges, at the offset the earlier labels take up |
| Selfies.FixedFacts | Apps/S3RekognitionToBlazegraphLambda/S3RekognitionToBlazegraphLambda/Function.cs:97-172 | the fixed part of an image record is twelve triples |
| Selfies.ImageFacts | Apps/S3RekognitionToBlazegraphLambda/S3RekognitionToBlazegraphLambda/Function.cs:94-190 | an image record yields twelve triples plus one per label and one per parent |
| Selfies.ExtractImage | Apps/S3RekognitionToBlazegraphLambda/S3RekognitionToBlazegraphLambda/Function.cs:71-190 | no faces throws before anything; the subject fails exactly when there are faces and the escaped URI is rejected; facts come out exactly when the main face has an emotion and every IRI parses, and they are the record's triple list under the escaped subject |
| Selfies.PredicatesDistinct | Apps/S3RekognitionToBlazegraphLambda/S3RekognitionToBlazegraphLambda/Function.cs:97-190 | the twelve predicates of the image vocabulary are pairwise distinct |
| Selfies.FixedPredicateOnce | Apps/S3RekognitionToBlazegraphLambda/S3RekognitionToBlazegraphLambda/Function.cs:104-165 | label, `hasFaceDetail`, the six attributes and `hasScene` each occur once in the fixed block |
| Selfies.FixedPredicateNotScene | Apps/S3RekognitionToBlazegraphLambda/S3RekognitionToBlazegraphLambda/Function.cs:97-172 | no fixed triple uses a label-block predicate |
| Selfies.FixedObjects | Apps/S3RekognitionToBlazegraphLambda/S3RekognitionToBlazegraphLambda/Function.cs:104-165 | querying a once-used fixed predicate returns its one object, whatever the label block adds |
| Selfies.FixedAttributesReadBack | Apps/S3RekognitionToBlazegraphLambda/S3RekognitionToBlazegraphLambda/Function.cs:125-158 | each of the six face attributes has exactly one value in the graph, the one given |
| Selfies.FaceAttributesReadBack | Apps/S3RekognitionToBlazegraphLambda/S3RekognitionToBlazegraphLambda/Function.cs:125-158 | querying the face detail for gender, ages, smile, sunglasses and feeling returns exactly the literals of the first largest face and its first most confident emotion |
| Selfies.SubjectFactsReadBack | Apps/S3RekognitionToBlazegraphLambda/S3RekognitionToBlazegraphLambda/Function.cs:97-172 | the selfie is typed, has exactly its name as label, exactly one face detail and one scene, and both of those are typed |
| Selfies.FixedSubjectLinks | Apps/S3RekognitionToBlazegraphLambda/S3RekognitionToBlazegraphLambda/Function.cs:104-165 | the selfie's label, face detail and scene each have exactly one value |
| Selfies.FixedTypings | Apps/S3RekognitionToBlazegraphLambda/S3RekognitionToBlazegraphLambda/Function.cs:97-172 | the selfie, its face detail and its scene carry their `rdf:type` |
| Selfies.SceneEdgesAreLabelBlock | Apps/S3RekognitionToBlazegraphLambda/S3RekognitionToBlazegraphLambda/Function.cs:160-190 | the `isDescribedBy` and `hasParent` triples of a record are exactly its label block |
| Selfies.DescribedByReadBack | Apps/S3RekognitionToBlazegraphLambda/S3RekognitionToBlazegraphLambda/Function.cs:175-181 | the scene is described by exactly the scene resources of the record's labels |
| Selfies.ParentEdgeMember | Apps/S3RekognitionToBlazegraphLambda/S3RekognitionToBlazegraphLambda/Function.cs:182-189 | a `hasParent` triple is present exactly when some label of the record has that parent |
| Selfies.ParentEdgesReadBack | Apps/S3RekognitionToBlazegraphLambda/S3RekognitionToBlazegraphLambda/Function.cs:182-189 | the `hasParent` pairs of the graph are exactly the (label, parent) pairs of the record |
| Selfies.ImageFactsWellTyped | Apps/S3RekognitionToBlazegraphLambda/S3RekognitionToBlazegraphLambda/Function.cs:97-190 | every literal the image handler writes lies in the lexical space of its datatype |
| Selfies.FixedFactsWellTyped | Apps/S3RekognitionToBlazegraphLambda/S3RekognitionToBlazegraphLambda/Function.cs:125-158 | the fixed block is well typed whenever the attribute literals are |
| Selfies.FirstEmotionWinsTie | Apps/S3RekognitionToBlazegraphLambda/S3RekognitionToBlazegraphLambda/Function.cs:155 | of two emotions with equal confidence the one listed first is recorded |
| Selfies.InvalidImageNameStops | Apps/S3RekognitionToBlazegraphLambda/S3RekognitionToBlazegraphLambda/Function.cs:84-92 | an image whose subject URI is rejected ends the invocation with nothing of its own added and later records untouched |
| Selfies.ImageRecordAdds | Apps/S3RekognitionToBlazegraphLambda/S3RekognitionToBlazegraphLambda/Function.cs:195-198 | a record that extracts and is stored adds exactly its triples to the graph, and the loop completes |
| Selfies.SelfieRedeliveryIdempotent | Apps/S3RekognitionToBlazegraphLambda/S3RekognitionToBlazegraphLambda/Function.cs:197 | handling the same image event twice gives the graph and outcome of handling it once |
| Selfies.HandleSelfies | Apps/S3RekognitionToBlazegraphLambda/S3RekognitionToBlazegraphLambda/Function.cs:54-214 | the selfies graph only grows, and every new triple belongs to the triple list of a walked image record that was fetched, extracted and stored |
| Texts.EntityFacts | Apps/S3ComprehendToBlazegraphLambda/S3ComprehendToBlazegraphLambda/Function.cs:123-137 | each entity gives, in order, a `hasEntity` edge to its lower-cased type resource and the typing of that resource |
| Texts.TextFacts | Apps/S3ComprehendToBlazegraphLambda/S3ComprehendToBlazegraphLambda/Function.cs:92-158 | a text record yields seven triples plus two per entity |
| Texts.ExtractText | Apps/S3ComprehendToBlazegraphLambda/S3ComprehendToBlazegraphLambda/Function.cs:70-158 | the subject fails exactly when the escaped URI is rejected; facts come out exactly when every IRI parses, and they are the record's triple list under the escaped subject |
| Texts.TextPredicatesDistinct | Apps/S3ComprehendToBlazegraphLambda/S3ComprehendToBlazegraphLambda/Function.cs:94-158 | the six predicates of the text vocabulary are pairwise distinct |
| Texts.TextPredicateAt | Apps/S3ComprehendToBlazegraphLambda/S3ComprehendToBlazegraphLambda/Function.cs:94-158 | each position of the text triple list carries the predicate its block prescribes |
| Texts.TextPredicateSole | Apps/S3ComprehendToBlazegraphLambda/S3ComprehendToBlazegraphLambda/Function.cs:94-158 | label, `hasEntityCollection`, `hasSentiment` and `subClassOf` occur once in a text's triples |
| Texts.TextSubjectFactsReadBack | Apps/S3ComprehendToBlazegraphLambda/S3ComprehendToBlazegraphLambda/Function.cs:94-158 | the text is typed, has exactly its identifier as label, exactly one entity collection and one sentiment, the sentiment is typed by its lower-cased value class, and that class is a subclass of exactly `sentiment` |
| Texts.HasEntityMember | Apps/S3ComprehendToBlazegraphLambda/S3ComprehendToBlazegraphLambda/Function.cs:123-129 | a `hasEntity` triple is present exactly when some entity of the record gives it |
| Texts.HasEntityEdgeSound | Apps/S3ComprehendToBlazegraphLambda/S3ComprehendToBlazegraphLambda/Function.cs:125-129 | every `hasEntity` triple comes from an entity of the record |
| Texts.HasEntityEdgePresent | Apps/S3ComprehendToBlazegraphLambda/S3ComprehendToBlazegraphLambda/Function.cs:125-129 | every entity of the record gives its `hasEntity` triple |
| Texts.EntityTypesReadBack | Apps/S3ComprehendToBlazegraphLambda/S3ComprehendToBlazegraphLambda/Function.cs:123-129 | the entity collection has exactly the type resources of the record's entities |
| Texts.EntityNodesTyped | Apps/S3ComprehendToBlazegraphLambda/S3ComprehendToBlazegraphLambda/Function.cs:131-136 | every entity type resource is typed as `entity` |
| Texts.EntityTextsNotRecorded | Apps/S3ComprehendToBlazegraphLambda/S3ComprehendToBlazegraphLambda/Function.cs:123-137 | entities that differ only in their text give the same triples |
| Texts.SharedEntityNode | Apps/S3ComprehendToBlazegraphLambda/S3ComprehendToBlazegraphLambda/Function.cs:128 | entities of the same lower-cased type, in any two texts, point at one shared resource |
| Texts.RepeatedEntityTypeCollapses | Apps/S3ComprehendToBlazegraphLambda/S3ComprehendToBlazegraphLambda/Function.cs:123-137 | two entities of the same type add fewer distinct triples than the list holds |
| Texts.OnePersonPositive | Apps/S3ComprehendToBlazegraphLambda/S3ComprehendToBlazegraphLambda/Function.cs:94-158 | the one-`PERSON`, `POSITIVE` record gives nine triples, among them its typing, the `person` edge and the `positive` subclass |
| Texts.InvalidTextIdStops | Apps/S3ComprehendToBlazegraphLambda/S3ComprehendToBlazegraphLambda/Function.cs:81-90 | a text whose subject URI is rejected ends the invocation with nothing of its own added and later records untouched |
| Texts.TextRedeliveryIdempotent | Apps/S3ComprehendToBlazegraphLambda/S3ComprehendToBlazegraphLambda/Function.cs:165 | handling the same text event twice gives the graph and outcome of handling it once |
| Texts.HandleTexts | Apps/S3ComprehendToBlazegraphLambda/S3ComprehendToBlazegraphLambda/Function.cs:53-182 | the texts graph only grows, and every new triple belongs to the triple list of a walked text record that was fetched, extracted and stored |
| Paths.LastIndexOfAny | Apps/S3ToRekognitionLambda/S3ToRekognitionLambda/Function.cs:86 | the result is the last position holding a searched character, or -1 when there is none |
| Paths.Extension | Apps/S3ToRekognitionLambda/S3ToRekognitionLambda/Function.cs:86 | a non-empty extension is a '.' and at least one more character, is a suffix of the path, and holds no further '.' or separator |
| Paths.FileName | Apps/S3ToRekognitionLambda/S3ToRekognitionLambda/Function.cs:127 | the file name is everything after the last separator: a suffix of the path of exactly that length, without a separator |
| Paths.FileNameWithoutExtension | Apps/S3ToRekognitionLambda/S3ToRekognitionLambda/Function.cs:127 | the stem is the file name cut at its last '.', or the whole name when it has no '.'; it holds no separator |
| Paths.ExtensionIffSuffix | Apps/S3ToRekognitionLambda/S3ToRekognitionLambda/Function.cs:86 | a path has a given extension exactly when it ends with it |
| Paths.NameSplitsAtExtension | Apps/S3ToRekognitionLambda/S3ToRekognitionLambda/Function.cs:127 | the stem followed by the extension is the file name |
| Paths.StemBeforeDot | Apps/S3ToRekognitionLambda/S3ToRekognitionLambda/Function.cs:127 | the stem is the part of the file name before its last '.' |
| Paths.Combine3Plain | Apps/S3ToRekognitionLambda/S3ToRekognitionLambda/Function.cs:127 | three non-empty parts without separators join with exactly one '/' between neighbours |
| Paths.Combine3EmptyMiddle | Apps/S3ToRekognitionLambda/S3ToRekognitionLambda/Function.cs:127 | an empty middle part is dropped together with its separator |
| Paths.Combine2 | Apps/S3ToRekognitionLambda/S3ToRekognitionLambda/Function.cs:127 | `Path.Combine` of two parts: an empty part is dropped, a rooted second part replaces the first, and otherwise the result is the first part, one '/' unless the first part already ends with one, then the second part |
| Paths.Combine2Components | Apps/S3ToRekognitionLambda/S3ToRekognitionLambda/Function.cs:127 | read position by position, the two-part join is the first part, then '/' exactly when the first part does not already end with one, then the second part |
| Paths.Combine3 | Apps/S3ToRekognitionLambda/S3ToRekognitionLambda/Function.cs:127 | `Path.Combine` of three parts: empty parts are dropped, a rooted part discards everything before it, and three non-empty unrooted parts are joined with one '/' at each boundary that does not already have one |
| Gate.MinConfidence | Apps/S3ToRekognitionLambda/S3ToRekognitionLambda/Function.cs:54-70 | the threshold is 70 unless the variable is set, not blank, and parses, in which case it is the parsed value |
| Gate.OverriddenOnlyByParsedValue | Apps/S3ToRekognitionLambda/S3ToRekognitionLambda/Function.cs:61-69 | a threshold other than 70 was read from a non-blank variable that parsed to it |
| Gate.WhiteSpaceSettingIgnored | Apps/S3ToRekognitionLambda/S3ToRekognitionLambda/Function.cs:63-64 | a variable of only white space leaves the default, whatever the parser would say |
| Gate.Supported | Apps/S3ToRekognitionLambda/S3ToRekognitionLambda/Function.cs:86-87 | a key is processed exactly when it ends with ".png", ".jpg" or ".jpeg" |
| Gate.UpperCaseExtensionSkipped | Apps/S3ToRekognitionLambda/S3ToRekognitionLambda/Function.cs:59 | the whitelist is case-sensitive: "photo.PNG" is skipped, "photos/me.jpeg" is not |
| Gate.Confident | Apps/S3ToRekognitionLambda/S3ToRekognitionLambda/Function.cs:116 | a face is kept exactly when it was detected and clears the threshold |
| Gate.ConfidentAppend | Apps/S3ToRekognitionLambda/S3ToRekognitionLambda/Function.cs:116 | filtering keeps order: filtering a concatenation concatenates the filtered parts |
| Gate.ConfidentKeepsAll | Apps/S3ToRekognitionLambda/S3ToRekognitionLambda/Function.cs:116 | when every face clears the threshold the filter keeps the whole list |
| Gate.OutputKey | Apps/S3ToRekognitionLambda/S3ToRekognitionLambda/Function.cs:127 | the output key is "images/<stem>/detections.json", or "images/detections.json" for an empty stem |
| Gate.CombineUnderImages | Apps/S3ToRekognitionLambda/S3ToRekognitionLambda/Function.cs:127 | combining "images", a separator-free stem and "detections.json" gives that shape |
| Gate.OutputKeyCollision | Apps/S3ToRekognitionLambda/S3ToRekognitionLambda/Function.cs:127 | two keys share an output key exactly when their file stems are equal, whatever their folders and extensions |
| Gate.SameStemSameKey | Apps/S3ToRekognitionLambda/S3ToRekognitionLambda/Function.cs:127 | "a.png" and "trip/a.jpg" write to the same object |
| Gate.Decide | Apps/S3ToRekognitionLambda/S3ToRekognitionLambda/Function.cs:86-133 | unsupported keys are skipped; a supported key with no confident face ends the invocation; an object is stored exactly when there are confident faces and the put succeeds, under the output key with the confident faces; an `AmazonS3Exception` from the put lets the loop go on, any other exception leaves the handler |
| Gate.Stored | Apps/S3ToRekognitionLambda/S3ToRekognitionLambda/Function.cs:121-133 | there are at most as many stored objects as records, and each holds at least one face, all at or above the threshold |
| Gate.RunGate | Apps/S3ToRekognitionLambda/S3ToRekognitionLambda/Function.cs:81-134 | the loop completes exactly when it walked every record |
| Gate.RunGateWalk | Apps/S3ToRekognitionLambda/S3ToRekognitionLambda/Function.cs:81-134 | every record walked past let the loop go on |
| Gate.RunGateHalt | Apps/S3ToRekognitionLambda/S3ToRekognitionLambda/Function.cs:81-134 | when the loop stops early, the record it stopped at decided the exit |
| Gate.RunGateStores | Apps/S3ToRekognitionLambda/S3ToRekognitionLambda/Function.cs:121-133 | the objects stored are exactly those of the records walked past, in order |
| Gate.StoredUploadsSound | Apps/S3ToRekognitionLambda/S3ToRekognitionLambda/Function.cs:116-128 | every stored object comes from a supported record whose put succeeded, sits under that record's output key and holds only faces at or above the threshold, at least one |
| Gate.GateStopsAtFirstHalt | Apps/S3ToRekognitionLambda/S3ToRekognitionLambda/Function.cs:81-134 | the number of records walked is the index of the first record that ends the invocation |
| Gate.NoConfidentFaceStops | Apps/S3ToRekognitionLambda/S3ToRekognitionLambda/Function.cs:118-119 | a supported image with no face above the threshold ends the invocation; only earlier records' objects are stored |
| Gate.UnsupportedSkipped | Apps/S3ToRekognitionLambda/S3ToRekognitionLambda/Function.cs:86-87 | an unsupported first record changes nothing but the count of records walked |

## Left out

- Network and storage calls are not modelled as I/O. Their outcomes are
  fields of the records the loops walk over. The calls are S3
  `GetObjectAsync`/`PutObjectAsync`, Rekognition `DetectFacesAsync`, and
  Blazegraph `UpdateGraph`. Logging is left out, because it has
  no effect on the graph or on the outcome.
- `LoadGraph` is left out. The handlers load the graph into a local object
  and never read it, so the update is modelled on the store's graph. A
  failing `LoadGraph` would throw out of the handler and fault the
  invocation. That case is not modelled.
- JSON decoding of the records and JSON encoding of the stored face
  details are left out. Records are the `Detections` datatypes; a stored
  object holds the face list itself.
- Bucket names, graph names and the `TARGET_BUCKET` constant are left out.
  Each handler writes one graph, and the gate one bucket.
- `Rdf.SubjectIri`: which strings `UriFactory.Create` accepts, and how
  `System.Uri` normalises an accepted one, are library behaviour. The
  parameter `wellFormed` stands for the first. The IRI is kept as the
  escaped string.
- Every IRI is modelled as the string handed to `UriFactory.Create`: the
  subject as the escaped string, and the face-detail, scene, label, entity,
  entity-collection and sentiment nodes as the raw concatenation of their
  namespace and name. `System.Uri` escaping and normalisation of these
  non-subject IRIs are not modelled. So a label name with a space is kept
  as "name part" where the stored IRI has "name%20part", and names such as
  "a b" and "a%20b", which the program maps to one node, stay two nodes in
  the model.
- Rdf.SubjectIdentifierRecoverable: holds of the escaped subject string.
  `System.Uri` removes dot segments from an http path, so an identifier
  such as "./x" or "a/../x" is not recoverable from the parsed URI.
- Rdf.SubjectInjective: holds of the escaped subject string. After
  `System.Uri` normalisation, "x", "./x" and "a/../x" share one subject
  node, so the program-level subject is not injective on such identifiers.
- `Uris.Escape`: follows the RFC 3986 character classes. Differences
  between .NET versions in which characters `EscapeUriString` leaves alone
  are not modelled. Unpaired surrogates cannot occur, because Dafny
  strings hold Unicode scalar values.
- `Strings.Lower`: lower-cases ASCII letters only. Culture-dependent
  lower-casing of other characters is not modelled. The enumeration values
  the handlers lower-case are ASCII.
- `Selfies.ExtractImage`: these faults become one `Throws` outcome:
  - no faces;
  - a main face without emotions;
  - an IRI other than the subject that the parser rejects.

  They all escape the handler with the graph unchanged, so their order and
  exception types are not distinguished. A null field of the decoded record
  (for example a missing `Gender`) is not modelled.
- `Texts.ExtractText`: a rejected IRI other than the subject becomes
  `Throws`, as above. Null `Type` or `Sentiment` values are not modelled.
- `Graphs.StepOf`: a failed `UpdateGraph` is always the `return` exit. The
  model does not cover the case where `InnerException` is null: the
  logging line then throws, so the exception leaves the handler instead.
- Confidences, bounding-box sizes and the threshold are real numbers. The
  model does not round them to single precision (`float`), so ties that
  only appear after rounding are not modelled.
- `Gate.MinConfidence`: `float.TryParse` is the parameter `tryParse`, so
  culture-dependent number formats are not modelled.
- A throwing `DetectFacesAsync` is modelled as a record with no faces. The
  handler then uses the empty default response, whose face list is empty,
  and returns.
- `Paths`: models the Linux behaviour of `System.IO.Path`, where '/' is
  the only separator. Windows separators, drive roots and invalid-path
  checks are not modelled.
- `Graphs.RemovalsOnly`: the graph handlers always pass an empty removal
  list. The removal half of `Update` is stated but not reached from them.
