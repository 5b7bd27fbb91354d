/** The record gate of S3ToRekognitionLambda: which uploaded images get
    their face details stored, and where.

    The confidence threshold is fixed when the function is constructed: 70
    unless the `MinConfidence` environment variable holds a non-blank value
    that parses as a number. For each record of the S3 event, in order, the
    handler skips keys whose extension is not on the whitelist, keeps the
    detected faces at or above the threshold, ends the whole invocation
    when none is kept, and otherwise writes the kept faces under a key
    derived from the image's file name. */
module Gate {
  import opened Options
  import opened Strings
  import opened Graphs
  import opened Detections
  import opened Paths

  const DefaultMinConfidence: real := 70.0

  /** Compared with `List.Contains`: exact, case-sensitive string equality. */
  const SupportedImageTypes: seq<string> := [".png", ".jpg", ".jpeg"]

  /** The constructor's threshold. `env` is the environment variable (None
      when unset); `tryParse` is `float.TryParse`. */
  function MinConfidence(env: Option<string>, tryParse: string -> Option<real>): (r: real)
    ensures env.None? || IsBlank(env.value) ==> r == DefaultMinConfidence
    ensures env.Some? && !IsBlank(env.value) ==>
              r == (match tryParse(env.value) case Some(v) => v case None => DefaultMinConfidence)
  {
    if env.None? || IsBlank(env.value) then DefaultMinConfidence
    else
      match tryParse(env.value)
      case None => DefaultMinConfidence
      case Some(v) => v
  }

  /** The threshold differs from the default only when it was overridden by
      a non-blank value that parsed to it. */
  lemma OverriddenOnlyByParsedValue(env: Option<string>, tryParse: string -> Option<real>)
    requires MinConfidence(env, tryParse) != DefaultMinConfidence
    ensures env.Some? && !IsBlank(env.value)
    ensures tryParse(env.value) == Some(MinConfidence(env, tryParse))
  {
  }

  /** A blank or unparsable setting leaves the default in place. */
  lemma WhiteSpaceSettingIgnored(tryParse: string -> Option<real>)
    ensures MinConfidence(Some(" \t"), tryParse) == DefaultMinConfidence
  {
    assert IsWhiteSpace(' ') && IsWhiteSpace('\t');
  }

  /** `_supportedImageTypes.Contains(Path.GetExtension(key))`: a
      case-sensitive suffix test. */
  function Supported(key: string): (b: bool)
    ensures b <==> EndsWith(key, ".png") || EndsWith(key, ".jpg") || EndsWith(key, ".jpeg")
  {
    WhitelistShaped();
    ExtensionIffSuffix(key, ".png");
    ExtensionIffSuffix(key, ".jpg");
    ExtensionIffSuffix(key, ".jpeg");
    var e := Extension(key);
    assert e in SupportedImageTypes <==> e == ".png" || e == ".jpg" || e == ".jpeg";
    e in SupportedImageTypes
  }

  lemma WhitelistShaped()
    ensures ExtensionShaped(".png") && ExtensionShaped(".jpg") && ExtensionShaped(".jpeg")
  {
  }

  /** Upper-case extensions are not on the whitelist. */
  lemma UpperCaseExtensionSkipped()
    ensures !Supported("photo.PNG")
    ensures Supported("photos/me.jpeg")
  {
    assert "photos/me.jpeg"[9..] == ".jpeg";
  }

  /** `Where(x => x.Confidence >= min)`. */
  function Confident(faces: seq<FaceDetail>, min: real): (r: seq<FaceDetail>)
    ensures |r| <= |faces|
    ensures forall f :: f in r <==> f in faces && f.confidence >= min
    decreases |faces|
  {
    if |faces| == 0 then []
    else if faces[0].confidence >= min then [faces[0]] + Confident(faces[1..], min)
    else Confident(faces[1..], min)
  }

  /** The filter keeps the input order: filtering a concatenation
      concatenates the filtered parts. */
  lemma {:induction false} ConfidentAppend(a: seq<FaceDetail>, b: seq<FaceDetail>, min: real)
    ensures Confident(a + b, min) == Confident(a, min) + Confident(b, min)
    decreases |a|
  {
    if |a| == 0 {
      assert a + b == b;
    } else {
      assert (a + b)[0] == a[0];
      assert (a + b)[1..] == a[1..] + b;
      ConfidentAppend(a[1..], b, min);
    }
  }

  /** When every face reaches the threshold, all are kept, in order. */
  lemma {:induction false} ConfidentKeepsAll(faces: seq<FaceDetail>, min: real)
    requires forall i :: 0 <= i < |faces| ==> faces[i].confidence >= min
    ensures Confident(faces, min) == faces
    decreases |faces|
  {
    if |faces| > 0 {
      ConfidentKeepsAll(faces[1..], min);
    }
  }

  /** `Path.Combine("images", GetFileNameWithoutExtension(key), "detections.json")`:
      `images/<stem>/detections.json`, or `images/detections.json` when the
      stem is empty. */
  function OutputKey(key: string): (r: string)
    ensures var stem := FileNameWithoutExtension(key);
            r == if stem == [] then "images/detections.json" else "images/" + stem + "/detections.json"
  {
    CombineUnderImages(FileNameWithoutExtension(key));
    Combine3("images", FileNameWithoutExtension(key), "detections.json")
  }

  lemma CombineUnderImages(stem: string)
    requires forall k :: 0 <= k < |stem| ==> stem[k] != Separator
    ensures Combine3("images", stem, "detections.json")
         == if stem == [] then "images/detections.json" else "images/" + stem + "/detections.json"
  {
    if stem == [] {
      Combine3EmptyMiddle("images", "detections.json");
      assert "images" + "/" + "detections.json" == "images/detections.json";
    } else {
      Combine3Plain("images", stem, "detections.json");
      StemKeyAssociates(stem);
    }
  }

  lemma StemKeyAssociates(stem: string)
    ensures "images" + "/" + stem + "/" + "detections.json" == "images/" + stem + "/detections.json"
  {
    var a := "images" + "/" + stem;
    assert a + "/" + "detections.json" == a + "/detections.json";
  }

  /** Two images share an output key exactly when their file names agree
      up to the extension, whatever their folders or extensions. */
  lemma OutputKeyCollision(k1: string, k2: string)
    ensures OutputKey(k1) == OutputKey(k2) <==> FileNameWithoutExtension(k1) == FileNameWithoutExtension(k2)
  {
    var s1, s2 := FileNameWithoutExtension(k1), FileNameWithoutExtension(k2);
    if OutputKey(k1) == OutputKey(k2) && s1 != [] && s2 != [] {
      var o := OutputKey(k1);
      assert |s1| == |s2|;
      assert s1 == o[7..7 + |s1|];
      assert s2 == o[7..7 + |s2|];
    }
  }

  /** The photo "a.png" at the top and "trip/a.jpg" in a folder write to
      the same key. */
  lemma SameStemSameKey()
    ensures OutputKey("a.png") == OutputKey("trip/a.jpg") == "images/a/detections.json"
  {
    TopLevelStem();
    NestedStem();
    assert forall k :: 0 <= k < |"a"| ==> "a"[k] != Separator;
    CombineUnderImages("a");
    KeyOfStemA();
    assert OutputKey("a.png") == Combine3("images", "a", "detections.json");
    assert OutputKey("trip/a.jpg") == Combine3("images", "a", "detections.json");
  }

  /** Worked example for `SameStemSameKey`, not a general property. */
  lemma KeyOfStemA()
    ensures "images/" + "a" + "/detections.json" == "images/a/detections.json"
  {
    var k := "images/" + "a" + "/detections.json";
    assert |k| == 24;
    assert k[..7] == "images/" && k[7] == 'a' && k[8..] == "/detections.json";
  }

  /** Worked example for `SameStemSameKey`: the stem of a top-level key. */
  lemma TopLevelStem()
    ensures FileNameWithoutExtension("a.png") == "a"
  {
    LastIndexOfAnyUnique("a.png", {Separator}, -1);
    assert FileName("a.png") == "a.png";
    LastIndexOfAnyUnique("a.png", {'.'}, 1);
  }

  /** Worked example for `SameStemSameKey`: the stem of a key in a folder. */
  lemma NestedStem()
    ensures FileNameWithoutExtension("trip/a.jpg") == "a"
  {
    LastIndexOfAnyUnique("trip/a.jpg", {Separator}, 4);
    assert FileName("trip/a.jpg") == "a.jpg";
    LastIndexOfAnyUnique("a.jpg", {'.'}, 1);
  }

  /** What `PutObjectAsync` does: store, throw `AmazonS3Exception` (logged,
      the loop goes on) or throw anything else (escapes the handler). */
  datatype PutReply = PutStored | PutS3Error | PutOtherError

  /** One record: its key, the faces Rekognition reported (none when the
      detection call threw, the response then being the empty default), and
      the reply of the put. */
  datatype ImageRecord = ImageRecord(key: string, faces: seq<FaceDetail>, put: PutReply)

  /** A stored object: its key and the serialised face details. */
  datatype Upload = Upload(key: string, faces: seq<FaceDetail>)

  /** The effect of one record: go on, possibly having stored an object, or
      stop the invocation. */
  datatype GateStep = Proceed(stored: Option<Upload>) | Halt(exit: Exit)

  function Decide(min: real, r: ImageRecord): (s: GateStep)
    ensures !Supported(r.key) ==> s == Proceed(None)
    ensures Supported(r.key) && Confident(r.faces, min) == [] <==> s == Halt(Returned(NoConfidentFaces))
    ensures s.Proceed? && s.stored.Some? <==> Supported(r.key) && Confident(r.faces, min) != [] && r.put == PutStored
    ensures s.Proceed? && s.stored.Some? ==> s.stored.value == Upload(OutputKey(r.key), Confident(r.faces, min))
    ensures Supported(r.key) && Confident(r.faces, min) != [] && r.put == PutS3Error ==> s == Proceed(None)
    ensures Supported(r.key) && Confident(r.faces, min) != [] && r.put == PutOtherError ==> s == Halt(Faulted)
  {
    if !Supported(r.key) then Proceed(None)
    else
      var kept := Confident(r.faces, min);
      if kept == [] then Halt(Returned(NoConfidentFaces))
      else
        match r.put
        case PutStored => Proceed(Some(Upload(OutputKey(r.key), kept)))
        case PutS3Error => Proceed(None)
        case PutOtherError => Halt(Faulted)
  }

  /** The objects stored by records that all proceed. */
  function Stored(min: real, rs: seq<ImageRecord>): (r: seq<Upload>)
    ensures |r| <= |rs|
    ensures forall u :: u in r ==> u.faces != [] && forall f :: f in u.faces ==> f.confidence >= min
    decreases |rs|
  {
    if |rs| == 0 then []
    else
      var here := match Decide(min, rs[0]) case Proceed(Some(u)) => [u] case _ => [];
      here + Stored(min, rs[1..])
  }

  datatype GateRun = GateRun(stored: seq<Upload>, consumed: nat, exit: Exit)

  /** `FunctionHandler`: the record loop. */
  function RunGate(min: real, rs: seq<ImageRecord>): (run: GateRun)
    ensures run.consumed <= |rs|
    ensures run.exit == Completed <==> run.consumed == |rs|
    decreases |rs|
  {
    if |rs| == 0 then GateRun([], 0, Completed)
    else
      match Decide(min, rs[0])
      case Halt(e) => GateRun([], 0, e)
      case Proceed(u) =>
        var rest := RunGate(min, rs[1..]);
        var here := if u.Some? then [u.value] else [];
        GateRun(here + rest.stored, rest.consumed + 1, rest.exit)
  }

  /** The loop walks past records that proceed only. */
  lemma {:induction false} RunGateWalk(min: real, rs: seq<ImageRecord>)
    ensures var run := RunGate(min, rs);
            forall i :: 0 <= i < run.consumed ==> Decide(min, rs[i]).Proceed?
    decreases |rs|
  {
    if |rs| > 0 && Decide(min, rs[0]).Proceed? {
      RunGateWalk(min, rs[1..]);
      var c := RunGate(min, rs[1..]).consumed;
      assert forall i :: 1 <= i <= c ==> rs[i] == rs[1..][i - 1];
    }
  }

  /** The loop stops at a record that halts it, taking its exit. */
  lemma {:induction false} RunGateHalt(min: real, rs: seq<ImageRecord>)
    ensures var run := RunGate(min, rs);
            run.consumed < |rs| ==> Decide(min, rs[run.consumed]) == Halt(run.exit)
    decreases |rs|
  {
    if |rs| > 0 && Decide(min, rs[0]).Proceed? {
      RunGateHalt(min, rs[1..]);
      var c := RunGate(min, rs[1..]).consumed;
      assert c < |rs| - 1 ==> rs[1..][c] == rs[c + 1];
    }
  }

  /** What the loop stores is what the records it walked past store. */
  lemma {:induction false} RunGateStores(min: real, rs: seq<ImageRecord>)
    ensures var run := RunGate(min, rs);
            run.stored == Stored(min, rs[..run.consumed])
    decreases |rs|
  {
    if |rs| > 0 && Decide(min, rs[0]).Proceed? {
      RunGateStores(min, rs[1..]);
      var c := RunGate(min, rs[1..]).consumed;
      var walked := rs[..c + 1];
      assert walked[0] == rs[0];
      assert walked[1..] == rs[1..][..c];
    }
  }

  /** Every stored object comes from a supported image walked past, holds
      the faces of that image that reach the threshold, in order, and none
      else, and sits under the key derived from the image's file name. */
  lemma {:induction false} StoredUploadsSound(min: real, rs: seq<ImageRecord>, u: Upload)
    requires u in Stored(min, rs)
    ensures exists i :: 0 <= i < |rs| && Supported(rs[i].key) && rs[i].put == PutStored
              && u == Upload(OutputKey(rs[i].key), Confident(rs[i].faces, min))
    ensures u.faces != [] && forall f :: f in u.faces ==> f.confidence >= min
    decreases |rs|
  {
    var here := match Decide(min, rs[0]) case Proceed(Some(x)) => [x] case _ => [];
    assert Stored(min, rs) == here + Stored(min, rs[1..]);
    if u in here {
      assert u == Upload(OutputKey(rs[0].key), Confident(rs[0].faces, min));
    } else {
      StoredUploadsSound(min, rs[1..], u);
      var i :| 0 <= i < |rs[1..]| && Supported(rs[1..][i].key) && rs[1..][i].put == PutStored
               && u == Upload(OutputKey(rs[1..][i].key), Confident(rs[1..][i].faces, min));
      assert rs[1..][i] == rs[i + 1];
    }
  }

  /** The loop stops at the first record that halts it, and nowhere else. */
  lemma GateStopsAtFirstHalt(min: real, rs: seq<ImageRecord>, k: nat)
    requires k <= |rs|
    requires forall i :: 0 <= i < k ==> Decide(min, rs[i]).Proceed?
    requires k < |rs| ==> Decide(min, rs[k]).Halt?
    ensures RunGate(min, rs).consumed == k
  {
    RunGateWalk(min, rs);
    RunGateHalt(min, rs);
    var c := RunGate(min, rs).consumed;
    assert c < |rs| ==> Decide(min, rs[c]).Halt?;
    assert k < |rs| ==> Decide(min, rs[k]).Halt?;
  }

  lemma NoneConfident(faces: seq<FaceDetail>, min: real)
    requires forall f :: f in faces ==> f.confidence < min
    ensures Confident(faces, min) == []
  {
  }

  /** A supported image with no face at the threshold ends the invocation:
      nothing is stored for it or for any later record. */
  lemma NoConfidentFaceStops(min: real, before: seq<ImageRecord>, r: ImageRecord, after: seq<ImageRecord>)
    requires forall i :: 0 <= i < |before| ==> Decide(min, before[i]).Proceed?
    requires Supported(r.key)
    requires forall f :: f in r.faces ==> f.confidence < min
    ensures RunGate(min, before + [r] + after)
         == GateRun(Stored(min, before), |before|, Returned(NoConfidentFaces))
  {
    var rs := before + [r] + after;
    NoneConfident(r.faces, min);
    assert forall i :: 0 <= i < |before| ==> rs[i] == before[i];
    assert rs[|before|] == r;
    GateStopsAtFirstHalt(min, rs, |before|);
    RunGateHalt(min, rs);
    RunGateStores(min, rs);
    assert rs[..|before|] == before;
  }

  /** An image whose extension is not on the whitelist is passed over: the
      loop goes on with the next record as if it were not there. */
  lemma UnsupportedSkipped(min: real, r: ImageRecord, rest: seq<ImageRecord>)
    requires !Supported(r.key)
    ensures var run := RunGate(min, [r] + rest);
            var tail := RunGate(min, rest);
            run == GateRun(tail.stored, tail.consumed + 1, tail.exit)
  {
    assert ([r] + rest)[1..] == rest;
  }
}
