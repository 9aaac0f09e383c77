/** The driver of photos.go: main's start-up guard and its loop over the
    collected paths, and getExif's coordinate gate in front of the lookup. */
module Photos {
  import opened PathExt
  import opened Places

  /** One path collected by filepath.Walk, with what os.Stat says of it. */
  datatype Entry = Entry(path: string, isDir: bool)

  /** What opening a file and decoding its EXIF data gives: os.Open fails,
      exif.Decode fails, or the block decodes. Of a decoded block the model
      keeps whether the FocalLength tag can be read as a first rational value
      without a panic (it is present, and is either not rational or holds at
      least one value), and the latitude and longitude LatLong answers. */
  datatype Extraction = OpenFailed | DecodeFailed | Decoded(focalReadable: bool, lat: real, long: real)

  /** The outside world the program consults: the extraction result of each
      path, and the decoded reply to the request made while processing a path. */
  datatype Env = Env(extract: string -> Extraction, places: (string, Query) -> Reply)

  /** What getExif reports for one file. */
  datatype FileOutcome =
    | OpenError
    | DecodeError
    | NoLocation
    | Geocoded(request: Query, outcomes: seq<Outcome>)
    | Panicked  // only getExif as written produces it: Rat2(0) on an unreadable FocalLength tag

  /** One file handed to getExif, and what came of it. */
  datatype Report = Report(path: string, outcome: FileOutcome)

  /** The reports of a run, and whether it ended on an exhausted quota. */
  datatype Trace = Trace(reports: seq<Report>, halted: bool)

  const QuotaExitCode: int := 1
  const MissingKeyExitCode: int := 2

  /** getExif returned an error for the file. */
  predicate Failed(o: FileOutcome)
  {
    o.OpenError? || o.DecodeError?
  }

  /** getLocation called os.Exit(1) for the file. */
  predicate Halts(o: FileOutcome)
  {
    o.Geocoded? && QuotaExceeded in o.outcomes
  }

  /** The test `lat != 0 && long != 0` in front of the lookup. */
  predicate HasLocation(lat: real, long: real)
  {
    lat != 0.0 && long != 0.0
  }

  /** getExif after the decoding, with the FocalLength read guarded (see
      GetExifAsWritten): coordinates with a zero component are "no location",
      the others are looked up. */
  function GetExif(ex: Extraction, key: KeyFlag, reply: Query -> Reply): (r: FileOutcome)
    ensures ex.OpenFailed? ==> r == OpenError
    ensures ex.DecodeFailed? ==> r == DecodeError
    ensures Failed(r) <==> !ex.Decoded?
    ensures !r.Panicked?
    ensures r.Geocoded? <==> ex.Decoded? && ex.lat != 0.0 && ex.long != 0.0
    ensures r.NoLocation? <==> ex.Decoded? && (ex.lat == 0.0 || ex.long == 0.0)
    ensures r.Geocoded? ==> r.request == Request(ex.lat, ex.long, key) && r.request.key == key.value
    ensures r.Geocoded? ==> r.outcomes == GetLocation(reply(r.request))
    ensures Halts(r) <==> r.Geocoded? && reply(r.request).status == "OVER_QUERY_LIMIT"
  {
    match ex
    case OpenFailed => OpenError
    case DecodeFailed => DecodeError
    case Decoded(_, lat, long) =>
      if HasLocation(lat, long) then
        var q := Request(lat, long, key);
        Geocoded(q, GetLocation(reply(q)))
      else
        NoLocation
  }

  /** getExif as photos.go:104-141 writes it: the error of the FocalLength
      read is dropped and Rat2(0) is called on whatever came back, which
      panics on a missing or empty tag before the coordinate gate is reached;
      and the lookup sends the request as written. */
  function GetExifAsWritten(ex: Extraction, key: KeyFlag, reply: Query -> Reply): FileOutcome
  {
    match ex
    case OpenFailed => OpenError
    case DecodeFailed => DecodeError
    case Decoded(focalReadable, lat, long) =>
      if !focalReadable then Panicked
      else if HasLocation(lat, long) then
        var q := RequestAsWritten(lat, long, key);
        Geocoded(q, GetLocation(reply(q)))
      else
        NoLocation
  }

  /** A decoded file whose FocalLength tag cannot be read panics as written,
      whatever its coordinates; guarded, it reaches the coordinate gate. */
  lemma MissingFocalLengthPanics(ex: Extraction, key: KeyFlag, reply: Query -> Reply)
    requires ex.Decoded? && !ex.focalReadable
    ensures GetExifAsWritten(ex, key, reply) == Panicked
    ensures GetExif(ex, key, reply).Geocoded? || GetExif(ex, key, reply).NoLocation?
  {
  }

  /** A photo with coordinates but no FocalLength tag: as written it panics,
      guarded it is looked up. */
  lemma PhotoWithoutFocalLength(key: KeyFlag, reply: Query -> Reply)
    ensures GetExifAsWritten(Decoded(false, 37.7, -122.4), key, reply) == Panicked
    ensures GetExif(Decoded(false, 37.7, -122.4), key, reply) ==
      Geocoded(Request(37.7, -122.4, key), GetLocation(reply(Request(37.7, -122.4, key))))
  {
  }

  /** Wherever the FocalLength tag is readable, the guarded getExif takes the
      branch the written one takes; the two differ only in the key sent. */
  lemma GetExifAgreesWhenFocalReadable(ex: Extraction, key: KeyFlag, reply: Query -> Reply)
    requires ex.Decoded? ==> ex.focalReadable
    ensures var w := GetExifAsWritten(ex, key, reply); var g := GetExif(ex, key, reply);
      !w.Panicked? && (w.Geocoded? <==> g.Geocoded?) && (!w.Geocoded? ==> w == g)
    ensures var w := GetExifAsWritten(ex, key, reply);
      w.Geocoded? ==> w.request == RequestAsWritten(ex.lat, ex.long, key) && w.outcomes == GetLocation(reply(w.request))
  {
  }

  /** The two tests of main's loop body: not a directory, and an allow-listed extension. */
  predicate Selected(e: Entry)
  {
    !e.isDir && IsImage(e.path)
  }

  /** The replies the service gives to requests made while processing path p. */
  function Lookup(env: Env, p: string): Query -> Reply
  {
    q => env.places(p, q)
  }

  /** getExif for path p, from opening the file to the lookup. */
  function VisitFile(p: string, key: KeyFlag, env: Env): (r: Report)
    ensures r.path == p
  {
    Report(p, GetExif(env.extract(p), key, Lookup(env, p)))
  }

  /** One pass of main's loop body over a collected entry. */
  datatype Step = Skip | Visit(report: Report)

  /** The loop body: a directory is skipped, an allow-listed file goes to
      getExif, anything else is passed over. */
  function StepFor(e: Entry, key: KeyFlag, env: Env): Step
  {
    if e.isDir then Skip
    else if IsImage(e.path) then
      Visit(VisitFile(e.path, key, env))
    else Skip
  }

  function Steps(walk: seq<Entry>, key: KeyFlag, env: Env): (r: seq<Step>)
    ensures |r| == |walk|
  {
    seq(|walk|, k requires 0 <= k < |walk| => StepFor(walk[k], key, env))
  }

  /** A step whose lookup reported an exhausted quota: the process exits there. */
  predicate Stops(s: Step)
  {
    s.Visit? && Halts(s.report.outcome)
  }

  /** The reports of main's loop over the steps, as a function: the loop goes
      on after every step except one that stops the process. */
  function RunSteps(steps: seq<Step>): Trace
  {
    if steps == [] then Trace([], false)
    else match steps[0]
      case Skip => RunSteps(steps[1..])
      case Visit(r) =>
        if Halts(r.outcome) then Trace([r], true)
        else
          var rest := RunSteps(steps[1..]);
          Trace([r] + rest.reports, rest.halted)
  }

  /** The reports of all visited steps, in order, as if nothing stopped the run. */
  function VisitedReports(steps: seq<Step>): seq<Report>
  {
    if steps == [] then []
    else (if steps[0].Visit? then [steps[0].report] else []) + VisitedReports(steps[1..])
  }

  /** The order-preserving filter of the collected list: the paths that should
      reach getExif. */
  function SelectedPaths(walk: seq<Entry>): seq<string>
  {
    if walk == [] then []
    else (if Selected(walk[0]) then [walk[0].path] else []) + SelectedPaths(walk[1..])
  }

  function Paths(reports: seq<Report>): (r: seq<string>)
    ensures |r| == |reports|
  {
    seq(|reports|, n requires 0 <= n < |reports| => reports[n].path)
  }

  /** The run ends early exactly when some step stops it. */
  lemma {:induction false} RunStepsHalts(steps: seq<Step>)
    ensures RunSteps(steps).halted <==> exists k :: 0 <= k < |steps| && Stops(steps[k])
  {
    if steps != [] {
      RunStepsHalts(steps[1..]);
      if !Stops(steps[0]) {
        assert forall k :: 1 <= k < |steps| ==> steps[1..][k - 1] == steps[k];
      }
    }
  }

  /** Step k is the first that stops the run. */
  predicate FirstStop(steps: seq<Step>, k: int)
  {
    0 <= k < |steps| && Stops(steps[k]) && forall j :: 0 <= j < k ==> !Stops(steps[j])
  }

  /** Without a stop, the run reports every visited step in order; with one, it
      reports the visited steps up to and including the first that stops. */
  lemma {:induction false} RunStepsReports(steps: seq<Step>)
    ensures var t := RunSteps(steps);
      !t.halted ==> t.reports == VisitedReports(steps)
    ensures var t := RunSteps(steps);
      t.halted ==> exists k :: FirstStop(steps, k) && t.reports == VisitedReports(steps[..k + 1])
  {
    if steps != [] {
      var tail := steps[1..];
      RunStepsReports(tail);
      var rest := RunSteps(tail);
      if Stops(steps[0]) {
        assert steps[..1][0] == steps[0] && steps[..1][1..] == [];
        assert VisitedReports(steps[..1]) == [steps[0].report];
        assert FirstStop(steps, 0);
      } else if rest.halted {
        var k :| FirstStop(tail, k) && rest.reports == VisitedReports(tail[..k + 1]);
        assert steps[..k + 2][1..] == tail[..k + 1];
        assert forall j :: 1 <= j < k + 1 ==> steps[j] == tail[j - 1];
        assert FirstStop(steps, k + 1);
      }
    }
  }

  /** Only the last report of a stopped run is a halt. */
  lemma {:induction false} RunStepsLastHalts(steps: seq<Step>)
    ensures var t := RunSteps(steps); t.halted ==> t.reports != []
    ensures var t := RunSteps(steps);
      forall n :: 0 <= n < |t.reports| ==> (Halts(t.reports[n].outcome) <==> t.halted && n == |t.reports| - 1)
  {
    if steps != [] {
      RunStepsLastHalts(steps[1..]);
      var t := RunSteps(steps);
      var rest := RunSteps(steps[1..]);
      if steps[0].Visit? && !Halts(steps[0].report.outcome) {
        assert forall n :: 1 <= n < |t.reports| ==> t.reports[n] == rest.reports[n - 1];
      }
    }
  }

  /** Step s is what the loop body does with entry e: it visits e, under e's
      path, exactly when e is selected. */
  predicate StepOf(s: Step, e: Entry)
  {
    (s.Visit? <==> Selected(e)) && (s.Visit? ==> s.report.path == e.path)
  }

  /** The steps are, position by position, those of the entries. */
  predicate StepsOf(steps: seq<Step>, walk: seq<Entry>)
  {
    |steps| == |walk| && forall k :: 0 <= k < |steps| ==> StepOf(steps[k], walk[k])
  }

  lemma StepsOfPrefix(steps: seq<Step>, walk: seq<Entry>, m: nat)
    requires StepsOf(steps, walk) && m <= |walk|
    ensures StepsOf(steps[..m], walk[..m])
  {
  }

  /** Steps that mirror the entries visit exactly the selected paths, in order. */
  lemma {:induction false} VisitedPathsOf(steps: seq<Step>, walk: seq<Entry>)
    requires StepsOf(steps, walk)
    ensures Paths(VisitedReports(steps)) == SelectedPaths(walk)
  {
    if steps != [] {
      assert StepsOf(steps[1..], walk[1..]) by {
        forall k | 0 <= k < |steps| - 1 ensures StepOf(steps[1..][k], walk[1..][k]) {
          assert StepOf(steps[k + 1], walk[k + 1]);
        }
      }
      VisitedPathsOf(steps[1..], walk[1..]);
      assert StepOf(steps[0], walk[0]);
      var head := if steps[0].Visit? then [steps[0].report] else [];
      assert Paths(head + VisitedReports(steps[1..])) == Paths(head) + Paths(VisitedReports(steps[1..]));
    }
  }

  lemma StepsAreStepsOf(walk: seq<Entry>, key: KeyFlag, env: Env)
    ensures StepsOf(Steps(walk, key, env), walk)
  {
    var steps := Steps(walk, key, env);
    forall k | 0 <= k < |steps| ensures StepOf(steps[k], walk[k]) {
      assert steps[k] == StepFor(walk[k], key, env);
    }
  }

  /** The visited reports of the collected list carry exactly the selected paths. */
  lemma VisitedPathsSelected(walk: seq<Entry>, key: KeyFlag, env: Env)
    ensures Paths(VisitedReports(Steps(walk, key, env))) == SelectedPaths(walk)
  {
    StepsAreStepsOf(walk, key, env);
    VisitedPathsOf(Steps(walk, key, env), walk);
  }

  /** What main's loop does with the collected list: with no exhausted quota,
      exactly the selected paths reach getExif, once each and in list order;
      otherwise the same holds of the list up to and including the first path
      whose lookup exhausted the quota, and nothing after it is examined. */
  lemma RunSelects(walk: seq<Entry>, key: KeyFlag, env: Env)
    ensures var t := RunSteps(Steps(walk, key, env));
      !t.halted ==> Paths(t.reports) == SelectedPaths(walk)
    ensures var t := RunSteps(Steps(walk, key, env));
      t.halted ==> exists k :: FirstStop(Steps(walk, key, env), k) && Paths(t.reports) == SelectedPaths(walk[..k + 1])
  {
    var steps := Steps(walk, key, env);
    RunStepsReports(steps);
    StepsAreStepsOf(walk, key, env);
    if RunSteps(steps).halted {
      var k :| FirstStop(steps, k) && RunSteps(steps).reports == VisitedReports(steps[..k + 1]);
      StepsOfPrefix(steps, walk, k + 1);
      VisitedPathsOf(steps[..k + 1], walk[..k + 1]);
    } else {
      VisitedPathsOf(steps, walk);
    }
  }

  /** A file whose opening or decoding fails is reported, and the loop goes on
      with the next path: such a file never stops the run. */
  lemma ErrorDoesNotStop(e: Entry, key: KeyFlag, env: Env, rest: seq<Step>)
    requires Selected(e) && !env.extract(e.path).Decoded?
    ensures !Stops(StepFor(e, key, env))
    ensures RunSteps([StepFor(e, key, env)] + rest) ==
      Trace([StepFor(e, key, env).report] + RunSteps(rest).reports, RunSteps(rest).halted)
  {
    assert ([StepFor(e, key, env)] + rest)[1..] == rest;
  }

  /** A directory, a photo with coordinates, a picture without EXIF data and a text file. */
  const ScenarioWalk: seq<Entry> :=
    [Entry("/p", true), Entry("/p/a.jpg", false), Entry("/p/b.png", false), Entry("/p/readme.txt", false)]

  /** Only the photo decodes, and the service names every point it is asked about. */
  const ScenarioEnv: Env :=
    Env(path => if path == "/p/a.jpg" then Decoded(true, 37.7, -122.4) else DecodeFailed,
        (path, q) => PlacesResponse("OK", ["Golden Gate Park"]))

  /** For the scenario, the photo is located, the picture is reported as
      undecodable, the run completes, and neither the directory nor the text
      file reaches getExif. */
  lemma ThreeFileScenario(key: KeyFlag)
    ensures RunSteps(Steps(ScenarioWalk, key, ScenarioEnv)) == Trace(
      [Report("/p/a.jpg", Geocoded(Request(37.7, -122.4, key), [Located("Golden Gate Park")])),
       Report("/p/b.png", DecodeError)], false)
  {
    var a := Report("/p/a.jpg", Geocoded(Request(37.7, -122.4, key), [Located("Golden Gate Park")]));
    var b := Report("/p/b.png", DecodeError);
    ScenarioSteps(key, a, b);
    var steps := [Skip, Visit(a), Visit(b), Skip];
    assert RunSteps(steps[3..]) == Trace([], false) by {
      assert steps[3..][1..] == [];
    }
    assert RunSteps(steps[2..]) == Trace([b], false) by {
      assert steps[2..][1..] == steps[3..];
    }
    assert RunSteps(steps[1..]) == Trace([a, b], false) by {
      assert steps[1..][1..] == steps[2..];
    }
  }

  lemma ScenarioSteps(key: KeyFlag, a: Report, b: Report)
    requires a == Report("/p/a.jpg", Geocoded(Request(37.7, -122.4, key), [Located("Golden Gate Park")]))
    requires b == Report("/p/b.png", DecodeError)
    ensures Steps(ScenarioWalk, key, ScenarioEnv) == [Skip, Visit(a), Visit(b), Skip]
  {
    ScenarioClassification();
    var w := ScenarioWalk;
    var env := ScenarioEnv;
    var steps := Steps(w, key, env);
    assert steps[0] == StepFor(w[0], key, env) == Skip;
    assert steps[1] == StepFor(w[1], key, env) == Visit(VisitFile("/p/a.jpg", key, env));
    assert env.extract("/p/a.jpg") == Decoded(true, 37.7, -122.4);
    assert Lookup(env, "/p/a.jpg")(Request(37.7, -122.4, key)) == PlacesResponse("OK", ["Golden Gate Park"]);
    assert VisitFile("/p/a.jpg", key, env) == a;
    assert steps[2] == StepFor(w[2], key, env) == Visit(VisitFile("/p/b.png", key, env));
    assert env.extract("/p/b.png") == DecodeFailed;
    assert VisitFile("/p/b.png", key, env) == b;
    assert steps[3] == StepFor(w[3], key, env) == Skip;
  }

  lemma ScenarioClassification()
    ensures IsImage("/p/a.jpg") && IsImage("/p/b.png") && !IsImage("/p/readme.txt")
  {
    SuffixIsExt("/p/a.jpg", ".jpg");
    SuffixIsExt("/p/b.png", ".png");
    SuffixIsExt("/p/readme.txt", ".txt");
    assert Lower(".jpg") == ".jpg";
    assert Lower(".png") == ".png";
    assert Lower(".txt") == ".txt";
  }

  /** RunSteps of a suffix, one step at a time, as main's loop takes it. */
  lemma RunStepsAt(steps: seq<Step>, i: nat)
    requires i < |steps|
    ensures steps[i].Skip? ==> RunSteps(steps[i..]) == RunSteps(steps[i + 1..])
    ensures steps[i].Visit? && Halts(steps[i].report.outcome) ==>
      RunSteps(steps[i..]) == Trace([steps[i].report], true)
    ensures steps[i].Visit? && !Halts(steps[i].report.outcome) ==>
      RunSteps(steps[i..]) == Trace([steps[i].report] + RunSteps(steps[i + 1..]).reports, RunSteps(steps[i + 1..]).halted)
  {
    assert steps[i..][0] == steps[i];
    assert steps[i..][1..] == steps[i + 1..];
  }

  /** The step main's loop body takes for the entry at index i. */
  lemma StepAt(walk: seq<Entry>, key: KeyFlag, env: Env, i: nat)
    requires i < |walk|
    ensures walk[i].isDir ==> Steps(walk, key, env)[i] == Skip
    ensures !walk[i].isDir && IsImage(walk[i].path) ==>
      Steps(walk, key, env)[i] == Visit(VisitFile(walk[i].path, key, env))
    ensures !walk[i].isDir && !IsImage(walk[i].path) ==> Steps(walk, key, env)[i] == Skip
  {
    assert Steps(walk, key, env)[i] == StepFor(walk[i], key, env);
  }

  /** main's loop over the collected list: a directory is skipped, an
      allow-listed file goes to getExif, and an exhausted quota ends the loop. */
  method ProcessFiles(key: KeyFlag, fileList: seq<Entry>, env: Env) returns (halted: bool, reports: seq<Report>)
    ensures Trace(reports, halted) == RunSteps(Steps(fileList, key, env))
  {
    ghost var steps := Steps(fileList, key, env);
    ghost var whole := RunSteps(steps);
    assert steps[0..] == steps;
    reports := [];
    var i := 0;
    while i < |fileList|
      invariant 0 <= i <= |fileList|
      invariant whole.reports == reports + RunSteps(steps[i..]).reports
      invariant whole.halted == RunSteps(steps[i..]).halted
    {
      RunStepsAt(steps, i);
      StepAt(fileList, key, env, i);
      var file := fileList[i];
      if file.isDir {
        i := i + 1;
        continue;
      }
      if IsImage(file.path) {
        var report := VisitFile(file.path, key, env);
        ghost var rest := RunSteps(steps[i + 1..]);
        if Halts(report.outcome) {
          reports := reports + [report];
          return true, reports;
        }
        assert whole.reports == (reports + [report]) + rest.reports;
        reports := reports + [report];
      }
      i := i + 1;
    }
    return false, reports;
  }

  /** main: the key guard, then the loop over the collected list; the process
      exits with code 1 when the loop ends on an exhausted quota. */
  method Run(key: KeyFlag, fileList: seq<Entry>, env: Env) returns (code: int, reports: seq<Report>)
    ensures key.value == "" ==> code == MissingKeyExitCode && reports == []
    ensures key.value != "" ==> reports == RunSteps(Steps(fileList, key, env)).reports
    ensures key.value != "" ==> (code == QuotaExitCode <==> RunSteps(Steps(fileList, key, env)).halted)
    ensures key.value != "" && code != QuotaExitCode ==> code == 0 && Paths(reports) == SelectedPaths(fileList)
    ensures code == QuotaExitCode ==>
      exists k :: FirstStop(Steps(fileList, key, env), k) && Paths(reports) == SelectedPaths(fileList[..k + 1])
  {
    if key.value == "" {
      return MissingKeyExitCode, [];
    }
    var halted;
    halted, reports := ProcessFiles(key, fileList, env);
    RunSelects(fileList, key, env);
    code := if halted then QuotaExitCode else 0;
  }
}
