/** RDF terms and triples as the handlers build them with dotNetRDF: an IRI
    node, or a literal with an explicit XML Schema datatype (the handlers
    never create plain or language-tagged literals). Equality is structural,
    as for dotNetRDF's `Triple`.

    Creating an IRI node goes through `UriFactory.Create`, which throws on a
    string the .NET URI parser rejects. Which strings it rejects is library
    behaviour; it is the parameter `wellFormed` throughout this model. */
module Rdf {
  import opened Options
  import opened Strings
  import opened Uris

  /** The three datatypes the handlers use (`XmlSpecsHelper.XmlSchemaDataType*`). */
  datatype Xsd = XsdString | XsdInteger | XsdBoolean

  const XsdNs := "http://www.w3.org/2001/XMLSchema#"

  function XsdIri(x: Xsd): string {
    match x
    case XsdString => XsdNs + "string"
    case XsdInteger => XsdNs + "integer"
    case XsdBoolean => XsdNs + "boolean"
  }

  datatype Node = Iri(iri: string) | Literal(lexical: string, xsd: Xsd)

  datatype Triple = Triple(subj: Node, pred: Node, obj: Node)

  /** `NamespaceMapper.RDF` and `NamespaceMapper.RDFS`. */
  const RdfNs := "http://www.w3.org/1999/02/22-rdf-syntax-ns#"
  const RdfsNs := "http://www.w3.org/2000/01/rdf-schema#"

  const RdfType := RdfNs + "type"
  const RdfsLabel := RdfsNs + "label"
  const RdfsSubClassOf := RdfsNs + "subClassOf"

  /** The application namespace every handler-made IRI starts with. */
  const AppNs := "http://blazegraph-webapp/"

  /** The guarded block of both graph handlers:
      `UriFactory.Create(Uri.EscapeUriString(AppNs + id))`. The namespace
      needs no escaping, so the subject is the namespace followed by the
      escaped identifier. */
  function SubjectIri(wellFormed: string -> bool, id: string): (r: Option<string>)
    ensures r.Some? <==> wellFormed(AppNs + Escape(id))
    ensures r.Some? ==> r.value == AppNs + Escape(id)
  {
    EscapeUnderNamespace(id);
    var u := Escape(AppNs + id);
    if wellFormed(u) then Some(u) else None
  }

  lemma EscapeUnderNamespace(id: string)
    ensures Escape(AppNs + id) == AppNs + Escape(id)
  {
    NamespaceNeedsNoEscaping();
    EscapeAppend(AppNs, id);
  }

  lemma NamespaceNeedsNoEscaping()
    ensures Escape(AppNs) == AppNs
  {
    NamespaceCharactersPass();
  }

  lemma NamespaceCharactersPass()
    ensures forall i :: 0 <= i < |AppNs| ==> PassesUnescaped(AppNs[i])
  {
  }

  /** The identifier can be read back from its subject URI. */
  lemma SubjectIdentifierRecoverable(wellFormed: string -> bool, id: string)
    requires wellFormed(AppNs + Escape(id))
    ensures Unescape(SubjectIri(wellFormed, id).value[|AppNs|..]) == Some(id)
  {
    var u := SubjectIri(wellFormed, id).value;
    assert u[|AppNs|..] == Escape(id);
    EscapeRoundTrip(id);
  }

  /** Distinct identifiers never share a subject URI; the same identifier
      always gets the same one. */
  lemma SubjectInjective(wellFormed: string -> bool, a: string, b: string)
    requires wellFormed(AppNs + Escape(a))
    ensures SubjectIri(wellFormed, a) == SubjectIri(wellFormed, b) <==> a == b
  {
    if SubjectIri(wellFormed, a) == SubjectIri(wellFormed, b) {
      var u := SubjectIri(wellFormed, a).value;
      assert u[|AppNs|..] == Escape(a);
      assert u[|AppNs|..] == Escape(b);
      EscapeInjective(a, b);
    }
  }

  function StringLiteral(s: string): Node {
    Literal(s, XsdString)
  }

  /** An `xsd:integer` literal from `int.ToString()`. */
  function IntegerLiteral(i: int): Node {
    Literal(IntToDecimal(i), XsdInteger)
  }

  /** An `xsd:boolean` literal from `Convert.ToInt32(b).ToString()`:
      always "1" or "0", never "true" or "false". */
  function BooleanLiteral(b: bool): (n: Node)
    ensures n.Literal? && n.xsd == XsdBoolean
    ensures n.lexical == "1" || n.lexical == "0"
    ensures BooleanValue(n.lexical) == Some(b)
  {
    Literal(if b then "1" else "0", XsdBoolean)
  }

  /** The lexical-to-value mapping of `xsd:integer`
      (XML Schema Part 2, section 3.3.13): an optional sign and one or more
      decimal digits. */
  function IntegerValue(lex: string): Option<int> {
    if 0 < |lex| && (lex[0] == '-' || lex[0] == '+') then
      var digits := lex[1..];
      if 0 < |digits| && AllDigits(digits) then
        Some(if lex[0] == '-' then -(DigitsValue(digits) as int) else DigitsValue(digits))
      else None
    else if 0 < |lex| && AllDigits(lex) then Some(DigitsValue(lex))
    else None
  }

  /** The lexical-to-value mapping of `xsd:boolean`
      (XML Schema Part 2, section 3.2.2): {true, false, 1, 0}. */
  function BooleanValue(lex: string): Option<bool> {
    if lex == "true" || lex == "1" then Some(true)
    else if lex == "false" || lex == "0" then Some(false)
    else None
  }

  /** An integer literal denotes the integer it was made from. */
  lemma IntegerLiteralValue(i: int)
    ensures IntegerValue(IntegerLiteral(i).lexical) == Some(i)
  {
    var lex := IntToDecimal(i);
    if i < 0 {
      assert lex[0] == '-';
    } else {
      assert lex[0] != '-' && IsDigit(lex[0]);
    }
  }

  /** A literal whose lexical form is in the lexical space of its datatype,
      i.e. one that is not ill-typed in the sense of section 3.3 of
      RDF 1.1 Concepts and Abstract Syntax. IRI nodes are trivially fine. */
  predicate WellTyped(n: Node) {
    match n
    case Iri(_) => true
    case Literal(lex, XsdString) => true
    case Literal(lex, XsdInteger) => IntegerValue(lex).Some?
    case Literal(lex, XsdBoolean) => BooleanValue(lex).Some?
  }

  predicate TripleWellTyped(t: Triple) {
    WellTyped(t.subj) && WellTyped(t.pred) && WellTyped(t.obj)
  }

  /** The IRI strings a triple asks `UriFactory.Create` to parse. */
  function TripleIris(t: Triple): set<string> {
    (if t.subj.Iri? then {t.subj.iri} else {})
    + (if t.pred.Iri? then {t.pred.iri} else {})
    + (if t.obj.Iri? then {t.obj.iri} else {})
  }

  /** Every IRI of the list passes the URI parser, i.e. building the list
      with `UriFactory.Create` does not throw. */
  predicate AllIrisAccepted(wellFormed: string -> bool, ts: seq<Triple>) {
    forall i, u :: 0 <= i < |ts| && u in TripleIris(ts[i]) ==> wellFormed(u)
  }

  function AsSet(ts: seq<Triple>): set<Triple> {
    set t | t in ts
  }

  /** The objects a graph gives to a subject and predicate: what a query
      `SELECT ?o WHERE { s p ?o }` returns. */
  function Objects(g: set<Triple>, s: Node, p: Node): set<Node> {
    set t | t in g && t.subj == s && t.pred == p :: t.obj
  }

  /** When a predicate occurs in exactly one triple of a list, querying the
      resulting graph for that triple's subject and predicate returns its
      object and nothing else. */
  lemma ObjectsOfSolePredicate(ts: seq<Triple>, i: nat)
    requires i < |ts|
    requires forall j :: 0 <= j < |ts| && j != i ==> ts[j].pred != ts[i].pred
    ensures Objects(AsSet(ts), ts[i].subj, ts[i].pred) == {ts[i].obj}
  {
    var os := Objects(AsSet(ts), ts[i].subj, ts[i].pred);
    assert ts[i].obj in os;
    forall o | o in os ensures o == ts[i].obj {
      var t :| t in ts && t.subj == ts[i].subj && t.pred == ts[i].pred && t.obj == o;
      var j :| 0 <= j < |ts| && ts[j] == t;
      assert j == i;
    }
  }
}
