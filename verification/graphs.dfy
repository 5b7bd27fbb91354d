/** The named graph in the triple store, and the record loop both
    graph-writing handlers share.

    `UpdateGraph(graph, additions, removals)` of dotNetRDF's Blazegraph
    connector deletes the removals and then inserts the additions; the
    handlers always pass an empty removal list.

    Each handler walks the records of one S3 event in order. For every
    record it fetches and decodes the detection record, extracts triples
    and updates the graph. A failed fetch is logged and the loop moves on;
    a subject URI that cannot be created, or an update the store refuses,
    is logged and ends the whole invocation with `return`; any other
    exception escapes the handler. */
module Graphs {
  import opened Rdf

  type Graph = set<Triple>

  /** The store's update: removals first, then additions. */
  function Update(g: Graph, additions: seq<Triple>, removals: seq<Triple>): (r: Graph)
    ensures forall t :: t in r <==> t in additions || (t in g && t !in removals)
  {
    (g - AsSet(removals)) + AsSet(additions)
  }

  /** With no removals an update is a union: nothing already asserted is lost. */
  lemma AdditionsOnly(g: Graph, additions: seq<Triple>)
    ensures Update(g, additions, []) == g + AsSet(additions)
    ensures g <= Update(g, additions, [])
  {
  }

  /** Asserting the same triples again changes nothing. */
  lemma UpdateIdempotent(g: Graph, additions: seq<Triple>)
    ensures Update(Update(g, additions, []), additions, []) == Update(g, additions, [])
  {
  }

  /** Two additions-only updates give the union whatever their order. */
  lemma AdditionsCommute(g: Graph, a: seq<Triple>, b: seq<Triple>)
    ensures Update(Update(g, a, []), b, []) == Update(Update(g, b, []), a, [])
    ensures Update(Update(g, a, []), b, []) == g + AsSet(a) + AsSet(b)
  {
  }

  /** A removals-only update is a set difference. */
  lemma RemovalsOnly(g: Graph, removals: seq<Triple>)
    ensures Update(g, [], removals) == g - AsSet(removals)
  {
  }

  /** A list with a repeated triple asserts fewer distinct facts than it has
      entries: the repetition collapses in the graph. */
  lemma {:induction false} RepeatedTripleCollapses(ts: seq<Triple>, i: nat, j: nat)
    requires i < j < |ts| && ts[i] == ts[j]
    ensures |AsSet(ts)| < |ts|
  {
    var rest := ts[..j] + ts[j + 1..];
    assert AsSet(rest) == AsSet(ts) by {
      assert ts == ts[..j] + [ts[j]] + ts[j + 1..];
      assert rest[i] == ts[j];
    }
    DistinctAtMostLength(rest);
  }

  lemma {:induction false} DistinctAtMostLength(ts: seq<Triple>)
    ensures |AsSet(ts)| <= |ts|
    decreases |ts|
  {
    if |ts| > 0 {
      var tail := ts[1..];
      DistinctAtMostLength(tail);
      assert AsSet(ts) == AsSet(tail) + {ts[0]} by {
        assert ts == [ts[0]] + tail;
      }
    }
  }

  /** What extracting facts from one decoded detection record yields. */
  datatype Extraction =
    | Facts(triples: seq<Triple>)   // the additions passed to UpdateGraph
    | BadSubject                    // the guarded subject-URI creation threw
    | Throws                        // an unguarded step threw

  /** Fetching and reading a record: it arrives, `GetObjectAsync` or the
      read throws `AmazonS3Exception`, which the handler catches, or it
      throws anything else (a network or I/O fault), which it does not. */
  datatype Fetch<T> = Fetched(detail: T) | FetchFailed | FetchFaulted

  /** Whether the store accepts `UpdateGraph`; the network is not modelled. */
  datatype StoreReply = Stored | StoreFailed

  /** One record of an S3 event, with the replies of the services it meets. */
  datatype Delivery<T> = Delivery(fetch: Fetch<T>, reply: StoreReply)

  datatype Reason = InvalidSubject | UpdateFailed | NoConfidentFaces

  /** How an invocation ends: having walked every record, by `return`, or
      by an exception leaving the handler. */
  datatype Exit = Completed | Returned(reason: Reason) | Faulted

  /** The effect of one record: go on having added these triples, or stop. */
  datatype Step = Next(additions: seq<Triple>) | Stop(exit: Exit)

  /** One pass of the loop body. An `AmazonS3Exception` from the fetch is
      caught by the outer `catch (AmazonS3Exception)` and the loop goes on;
      a bad subject and a refused update `return`; anything else thrown,
      at the fetch or later, leaves the handler. */
  function StepOf<T>(extract: T -> Extraction, d: Delivery<T>): (s: Step)
    ensures d.fetch.FetchFailed? ==> s == Next([])
    ensures d.fetch.FetchFaulted? ==> s == Stop(Faulted)
    ensures d.fetch.Fetched? && extract(d.fetch.detail) == BadSubject ==> s == Stop(Returned(InvalidSubject))
    ensures d.fetch.Fetched? && extract(d.fetch.detail) == Throws ==> s == Stop(Faulted)
    ensures d.fetch.Fetched? && extract(d.fetch.detail).Facts? && d.reply == Stored ==>
              s == Next(extract(d.fetch.detail).triples)
    ensures d.fetch.Fetched? && extract(d.fetch.detail).Facts? && d.reply == StoreFailed ==>
              s == Stop(Returned(UpdateFailed))
    ensures s.Stop? ==> s.exit != Completed
  {
    match d.fetch
    case FetchFailed => Next([])
    case FetchFaulted => Stop(Faulted)
    case Fetched(x) =>
      match extract(x)
      case BadSubject => Stop(Returned(InvalidSubject))
      case Throws => Stop(Faulted)
      case Facts(ts) => if d.reply == Stored then Next(ts) else Stop(Returned(UpdateFailed))
  }

  /** The triples a sequence of records contributes. */
  function Added<T>(extract: T -> Extraction, ds: seq<Delivery<T>>): set<Triple>
    decreases |ds|
  {
    if |ds| == 0 then {}
    else
      var here := match StepOf(extract, ds[0]) case Next(ts) => AsSet(ts) case Stop(_) => {};
      here + Added(extract, ds[1..])
  }

  datatype Run = Run(graph: Graph, consumed: nat, exit: Exit)

  /** The handler's record loop. `consumed` records were walked past; if the
      loop stopped early, the record at that index stopped it, and the graph
      holds exactly what it held before plus the facts of the records
      walked past. */
  function Handle<T>(extract: T -> Extraction, g: Graph, ds: seq<Delivery<T>>): (run: Run)
    ensures run.consumed <= |ds|
    ensures forall i :: 0 <= i < run.consumed ==> StepOf(extract, ds[i]).Next?
    ensures run.consumed < |ds| ==> StepOf(extract, ds[run.consumed]) == Stop(run.exit)
    ensures run.exit == Completed <==> run.consumed == |ds|
    ensures run.graph == g + Added(extract, ds[..run.consumed])
    decreases |ds|
  {
    if |ds| == 0 then Run(g, 0, Completed)
    else
      match StepOf(extract, ds[0])
      case Stop(e) => Run(g, 0, e)
      case Next(ts) =>
        var rest := Handle(extract, Update(g, ts, []), ds[1..]);
        assert ds[..rest.consumed + 1][1..] == ds[1..][..rest.consumed];
        Run(rest.graph, rest.consumed + 1, rest.exit)
  }

  /** The loop stops at the first record that stops it, and nowhere else. */
  lemma ConsumedIsFirstStop<T>(extract: T -> Extraction, g: Graph, ds: seq<Delivery<T>>, k: nat)
    requires k <= |ds|
    requires forall i :: 0 <= i < k ==> StepOf(extract, ds[i]).Next?
    requires k < |ds| ==> StepOf(extract, ds[k]).Stop?
    ensures Handle(extract, g, ds).consumed == k
  {
    var c := Handle(extract, g, ds).consumed;
    assert c < |ds| ==> StepOf(extract, ds[c]).Stop?;
    assert k < |ds| ==> StepOf(extract, ds[k]).Stop?;
  }

  /** A record whose subject URI cannot be created ends the invocation: it
      adds nothing, and neither does any record after it. */
  lemma BadSubjectSkipsRest<T>(extract: T -> Extraction, g: Graph, before: seq<Delivery<T>>, x: T, reply: StoreReply, after: seq<Delivery<T>>)
    requires forall i :: 0 <= i < |before| ==> StepOf(extract, before[i]).Next?
    requires extract(x) == BadSubject
    ensures Handle(extract, g, before + [Delivery(Fetched(x), reply)] + after)
         == Run(g + Added(extract, before), |before|, Returned(InvalidSubject))
  {
    var ds := before + [Delivery(Fetched(x), reply)] + after;
    assert forall i :: 0 <= i < |before| ==> ds[i] == before[i];
    ConsumedIsFirstStop(extract, g, ds, |before|);
    assert ds[..|before|] == before;
  }

  /** Re-delivering the same event to a graph that already holds its effect
      changes nothing: the second run stops where the first did and adds
      only triples already present. */
  lemma RedeliveryIdempotent<T>(extract: T -> Extraction, g: Graph, ds: seq<Delivery<T>>)
    ensures Handle(extract, Handle(extract, g, ds).graph, ds) == Handle(extract, g, ds)
  {
    var first := Handle(extract, g, ds);
    ConsumedIsFirstStop(extract, first.graph, ds, first.consumed);
  }

  /** A record whose fetch failed is passed over: the loop goes on with the
      next record and the graph is as if the record were not there. */
  lemma FetchFailureContinues<T>(extract: T -> Extraction, g: Graph, reply: StoreReply, rest: seq<Delivery<T>>)
    ensures var run := Handle(extract, g, [Delivery(FetchFailed, reply)] + rest);
            var tail := Handle(extract, g, rest);
            run == Run(tail.graph, tail.consumed + 1, tail.exit)
  {
    var ds := [Delivery(FetchFailed, reply)] + rest;
    assert ds[1..] == rest;
    assert Update(g, [], []) == g;
  }

  /** A fetch that fails with anything but `AmazonS3Exception` is not caught:
      the invocation faults at that record, keeping only the facts of the
      records before it and never looking at the records after it. */
  lemma FetchFaultEndsInvocation<T>(extract: T -> Extraction, g: Graph, before: seq<Delivery<T>>, reply: StoreReply, after: seq<Delivery<T>>)
    requires forall i :: 0 <= i < |before| ==> StepOf(extract, before[i]).Next?
    ensures Handle(extract, g, before + [Delivery(FetchFaulted, reply)] + after)
         == Run(g + Added(extract, before), |before|, Faulted)
  {
    var ds := before + [Delivery(FetchFaulted, reply)] + after;
    assert forall i :: 0 <= i < |before| ==> ds[i] == before[i];
    ConsumedIsFirstStop(extract, g, ds, |before|);
    assert ds[..|before|] == before;
  }

  /** Every triple a run adds comes from a walked record that was fetched,
      extracted and stored. */
  lemma {:induction false} AddedFrom<T>(extract: T -> Extraction, ds: seq<Delivery<T>>, t: Triple)
    requires t in Added(extract, ds)
    ensures exists i :: 0 <= i < |ds| && ds[i].fetch.Fetched? && ds[i].reply == Stored
              && extract(ds[i].fetch.detail).Facts? && t in extract(ds[i].fetch.detail).triples
    decreases |ds|
  {
    var here := match StepOf(extract, ds[0]) case Next(ts) => AsSet(ts) case Stop(_) => {};
    if t in here {
      assert ds[0].fetch.Fetched?;
    } else {
      AddedFrom(extract, ds[1..], t);
      var i :| 0 <= i < |ds[1..]| && ds[1..][i].fetch.Fetched? && ds[1..][i].reply == Stored
               && extract(ds[1..][i].fetch.detail).Facts? && t in extract(ds[1..][i].fetch.detail).triples;
      assert ds[1..][i] == ds[i + 1];
    }
  }

  /** What a run adds beyond the starting graph was extracted from one of
      the records it walked past, each fetched and stored. */
  lemma HandleProvenance<T>(extract: T -> Extraction, g: Graph, ds: seq<Delivery<T>>)
    ensures var run := Handle(extract, g, ds);
            forall t :: t in run.graph && t !in g ==>
              exists i :: 0 <= i < run.consumed && ds[i].fetch.Fetched? && ds[i].reply == Stored
                && extract(ds[i].fetch.detail).Facts? && t in extract(ds[i].fetch.detail).triples
  {
    var run := Handle(extract, g, ds);
    var walked := ds[..run.consumed];
    forall t | t in run.graph && t !in g
      ensures exists i :: 0 <= i < run.consumed && ds[i].fetch.Fetched? && ds[i].reply == Stored
                && extract(ds[i].fetch.detail).Facts? && t in extract(ds[i].fetch.detail).triples
    {
      AddedFrom(extract, walked, t);
      var i :| 0 <= i < |walked| && walked[i].fetch.Fetched? && walked[i].reply == Stored
               && extract(walked[i].fetch.detail).Facts? && t in extract(walked[i].fetch.detail).triples;
      assert walked[i] == ds[i];
    }
  }
}
