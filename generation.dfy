/** The generation loop (Program.cs, lines 98-149) and the program as a
    whole, from the settings and the endpoint directory to the exit code and
    the files written. */
module Generation {
  import opened Linq
  import opened Text
  import opened Domain
  import opened LocationParsing
  import opened Selection
  import opened Rendering

  /** One file the loop decides to write: the endpoint, its public key and
      the counter value that numbers the file. */
  datatype Job = Job(endpoint: Endpoint, key: string, number: int)

  /** The files the loop decides to write for `endpoints` once `count` files
      exist: it stops when a request other than -1 is met, passes over
      endpoints without a public key, and numbers the files it writes. */
  function Plan(endpoints: seq<Endpoint>, count: int, requested: int): seq<Job> {
    if endpoints == [] || (requested != -1 && count >= requested) then []
    else
      match PublicKey(endpoints[0])
      case None => Plan(endpoints[1..], count, requested)
      case Some(key) => [Job(endpoints[0], key, count)] + Plan(endpoints[1..], count + 1, requested)
  }

  /** The file written for one job. */
  function RenderJob(job: Job, settings: RenderSettings): ConfigFile {
    Render(job.endpoint, job.key, job.number, settings)
  }

  /** The files written for `jobs`, in order. */
  function RenderAll(jobs: seq<Job>, settings: RenderSettings): (files: seq<ConfigFile>)
    ensures |files| == |jobs|
  {
    if jobs == [] then []
    else
      RenderAll(jobs[..|jobs| - 1], settings) + [RenderJob(jobs[|jobs| - 1], settings)]
  }

  /** Lines 98-149: the files written, in the order they are written. */
  method Generate(endpoints: seq<Endpoint>, requested: int, settings: RenderSettings) returns (files: seq<ConfigFile>)
    ensures files == RenderAll(Plan(endpoints, 0, requested), settings)
  {
    files := [];
    ghost var done: seq<Job> := [];
    var count := 0;
    var i := 0;
    while i < |endpoints|
      invariant 0 <= i <= |endpoints|
      invariant count == |done|
      invariant files == RenderAll(done, settings)
      invariant done + Plan(endpoints[i..], count, requested) == Plan(endpoints, 0, requested)
    {
      if requested != -1 && count >= requested {
        assert Plan(endpoints[i..], count, requested) == [];
        break;
      }
      var endpoint := endpoints[i];
      var key := PublicKey(endpoint);
      PlanStep(endpoints, i, count, requested);
      if key.None? {
        i := i + 1;
        continue;
      }
      var job := Job(endpoint, key.value, count);
      PlanSnoc(endpoints, i, count, requested, done);
      RenderAllSnoc(done, job, settings);
      files := files + [RenderJob(job, settings)];
      done := done + [job];
      count := count + 1;
      i := i + 1;
    }
    assert done == Plan(endpoints, 0, requested);
  }

  /** One pass of the loop body over endpoint `i`, for a request not yet
      met. */
  lemma PlanStep(endpoints: seq<Endpoint>, i: int, count: int, requested: int)
    requires 0 <= i < |endpoints| && !(requested != -1 && count >= requested)
    ensures PublicKey(endpoints[i]).None? ==>
      Plan(endpoints[i..], count, requested) == Plan(endpoints[i + 1..], count, requested)
    ensures PublicKey(endpoints[i]).Some? ==>
      Plan(endpoints[i..], count, requested)
        == [Job(endpoints[i], PublicKey(endpoints[i]).value, count)] + Plan(endpoints[i + 1..], count + 1, requested)
  {
    assert endpoints[i..][1..] == endpoints[i + 1..];
  }

  /** The invariant of the loop in `Generate`, carried past an endpoint that
      has a key. */
  lemma PlanSnoc(endpoints: seq<Endpoint>, i: int, count: int, requested: int, done: seq<Job>)
    requires 0 <= i < |endpoints| && !(requested != -1 && count >= requested)
    requires PublicKey(endpoints[i]).Some?
    requires done + Plan(endpoints[i..], count, requested) == Plan(endpoints, 0, requested)
    ensures done + [Job(endpoints[i], PublicKey(endpoints[i]).value, count)] + Plan(endpoints[i + 1..], count + 1, requested)
      == Plan(endpoints, 0, requested)
  {
    PlanStep(endpoints, i, count, requested);
    var job, later := Job(endpoints[i], PublicKey(endpoints[i]).value, count), Plan(endpoints[i + 1..], count + 1, requested);
    assert done + [job] + later == done + ([job] + later);
  }

  lemma RenderAllSnoc(jobs: seq<Job>, job: Job, settings: RenderSettings)
    ensures RenderAll(jobs + [job], settings) == RenderAll(jobs, settings) + [RenderJob(job, settings)]
  {
    assert (jobs + [job])[..|jobs|] == jobs;
  }

  /** The `i`-th file is rendered from the `i`-th job. */
  lemma {:induction false} RenderAllAt(jobs: seq<Job>, settings: RenderSettings, i: int)
    requires 0 <= i < |jobs|
    ensures RenderAll(jobs, settings)[i] == RenderJob(jobs[i], settings)
  {
    if i < |jobs| - 1 {
      RenderAllAt(jobs[..|jobs| - 1], settings, i);
    } else if |jobs| > 1 {
      RenderAllAt(jobs[..|jobs| - 1], settings, 0);
    }
  }

  predicate HasPublicKey(e: Endpoint) {
    PublicKey(e).Some?
  }

  /** How many files are written for `available` keyed endpoints once
      `count` exist: all of them for a request of -1, none once a request is
      met (so none at all for a request of zero or below other than -1),
      otherwise as many as the request still allows. */
  function Quota(requested: int, count: int, available: nat): nat {
    if requested == -1 then available
    else if count >= requested then 0
    else if requested - count < available then requested - count
    else available
  }

  /** As many files are written as the request allows, counting only the
      endpoints that have a public key. */
  lemma {:induction false} PlanCount(endpoints: seq<Endpoint>, count: int, requested: int)
    ensures |Plan(endpoints, count, requested)| == Quota(requested, count, |Where(endpoints, HasPublicKey)|)
  {
    if endpoints != [] && !(requested != -1 && count >= requested) {
      if PublicKey(endpoints[0]).None? {
        PlanCount(endpoints[1..], count, requested);
      } else {
        PlanCount(endpoints[1..], count + 1, requested);
      }
    }
  }

  /** `jobs` are the jobs for the first `|jobs|` of the `keyed` endpoints,
      each with the endpoint's key, numbered from `count`. */
  predicate JobsFor(jobs: seq<Job>, keyed: seq<Endpoint>, count: int) {
    && |jobs| <= |keyed|
    && forall i :: 0 <= i < |jobs| ==>
         PublicKey(keyed[i]).Some? && jobs[i] == Job(keyed[i], PublicKey(keyed[i]).value, count + i)
  }

  /** The jobs are for the endpoints that have a public key, in their order;
      the job for the `i`-th of them carries its key and is numbered
      `count + i`. */
  lemma {:induction false} PlanJobs(endpoints: seq<Endpoint>, count: int, requested: int)
    ensures JobsFor(Plan(endpoints, count, requested), Where(endpoints, HasPublicKey), count)
  {
    if endpoints != [] && !(requested != -1 && count >= requested) {
      var e, rest := endpoints[0], endpoints[1..];
      if PublicKey(e).None? {
        PlanJobs(rest, count, requested);
      } else {
        PlanJobs(rest, count + 1, requested);
        JobsForCons(e, PublicKey(e).value, Plan(rest, count + 1, requested), Where(rest, HasPublicKey), count);
      }
    }
  }

  lemma JobsForCons(e: Endpoint, key: string, jobs: seq<Job>, keyed: seq<Endpoint>, count: int)
    requires PublicKey(e) == Some(key) && JobsFor(jobs, keyed, count + 1)
    ensures JobsFor([Job(e, key, count)] + jobs, [e] + keyed, count)
  {
    var jobs', keyed' := [Job(e, key, count)] + jobs, [e] + keyed;
    forall i | 1 <= i < |jobs'|
      ensures PublicKey(keyed'[i]).Some? && jobs'[i] == Job(keyed'[i], PublicKey(keyed'[i]).value, count + i)
    {
      assert jobs'[i] == jobs[i - 1] && keyed'[i] == keyed[i - 1];
    }
  }

  /** A request of -1 writes a file for every endpoint that has a key. */
  lemma UnlimitedRequest(endpoints: seq<Endpoint>)
    ensures |Plan(endpoints, 0, -1)| == |Where(endpoints, HasPublicKey)|
  {
    PlanCount(endpoints, 0, -1);
  }

  /** With a format `<pre>{n}<post>` the files have pairwise distinct names,
      so none overwrites another. */
  lemma GeneratedNamesDistinct(endpoints: seq<Endpoint>, requested: int, settings: RenderSettings,
                               pre: string, post: string)
    requires settings.fileNameFormat == pre + "{n}" + post
    requires '{' !in pre && '{' !in post
    ensures var files := RenderAll(Plan(endpoints, 0, requested), settings);
      forall i, j :: 0 <= i < j < |files| ==> files[i].name != files[j].name
  {
    var jobs := Plan(endpoints, 0, requested);
    var files := RenderAll(jobs, settings);
    PlanJobs(endpoints, 0, requested);
    forall i, j | 0 <= i < j < |files| ensures files[i].name != files[j].name {
      RenderAllAt(jobs, settings, i);
      RenderAllAt(jobs, settings, j);
      NumberedFileNamesDistinct(pre, post, jobs[i].number, jobs[i].endpoint, jobs[j].number, jobs[j].endpoint);
    }
  }

  /** The location setting, "Canada,UnitedStates" when unset, parsed. */
  function ConfiguredLocations(rawLocations: Option<string>): seq<CountryId> {
    match rawLocations
    case None => RecognisedCountries(Split(DefaultLocations, ','))
    case Some(raw) => RecognisedCountries(Split(raw, ','))
  }

  /** The whole run. The directory is the list the API client returned; the
      settings are the environment's values after the defaults of lines
      29-42 are applied. The exit code is 1 when the private key is empty or
      no endpoint is left after filtering, and then nothing is written;
      otherwise it is 0 and the files are those the loop produces from the
      selected endpoints. */
  method Run(rawLocations: Option<string>, rawGroups: Option<string>, preferLeastLoaded: bool,
             requested: int, settings: RenderSettings, directory: seq<Endpoint>)
    returns (exitCode: int, files: seq<ConfigFile>)
    ensures exitCode == 0 || exitCode == 1
    ensures var selection := Select(directory, ParseGroups(rawGroups), ConfiguredLocations(rawLocations), preferLeastLoaded);
      exitCode == 1 <==> settings.privateKey == [] || selection.NoMatch?
    ensures exitCode == 1 ==> files == []
    ensures var selection := Select(directory, ParseGroups(rawGroups), ConfiguredLocations(rawLocations), preferLeastLoaded);
      exitCode == 0 ==> selection.Found? && files == RenderAll(Plan(selection.endpoints, 0, requested), settings)
  {
    if settings.privateKey == [] {
      return 1, [];
    }
    var locations := ParseLocations(match rawLocations case None => DefaultLocations case Some(raw) => raw);
    var groups := ParseGroups(rawGroups);
    var selection := Select(directory, groups, locations, preferLeastLoaded);
    if selection.NoMatch? {
      return 1, [];
    }
    files := Generate(selection.endpoints, requested, settings);
    exitCode := 0;
  }
}
