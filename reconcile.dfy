/** `main`: the pass over the `.env` files of the node repository that compares
    each loaded hotkey's registered endpoint with this host's "ip:NODE_PORT"
    and posts an update where they differ, keeping three counters and one
    cached snapshot for the whole run. */
module Reconcile {
  import opened Wrappers
  import opened Text
  import opened Metagraph

  /** What loading a file's wallet hotkey gives: a keypair (whose `ss58_address`
      may be `None`), or an exception. */
  datatype KeyLoad = Loaded(ss58Address: Option<string>) | LoadRaised

  /** What posting the new endpoint gives: the returned flag, or an exception
      (connection, coldkey load, `int()` of a NETUID or NODE_PORT text it
      rejects, the extrinsic). An unset NETUID or NODE_PORT is not left to this
      answer: see `PostOutcome`. */
  datatype PostReply = PostReturned(success: bool) | PostRaised

  /** One entry of the repository directory: its file name, the variables
      `dotenv_values` reads from it (a key without '=' has value `None`), and
      what the external collaborators answer when this entry is processed. */
  datatype ConfigFile = ConfigFile(
    name: string,
    env: map<string, Option<string>>,
    keyLoad: KeyLoad,
    fetchReply: FetchReply,
    postReply: PostReply)

  /** How the processing of one directory entry ends. */
  datatype Status =
    | NotConfig        // the name does not end in ".env"
    | KeyLoadFailed    // loading the keypair raised
    | NoAddress        // the keypair has no ss58 address
    | FetchFailed      // the snapshot fetch raised: the run aborts here
    | Deregistered     // no row carries the hotkey
    | Matched          // the registered endpoint is the desired one
    | Updated          // posted, and the post returned true
    | UpdateRejected   // posted, and the post returned false
    | UpdateRaised     // posted, and the post raised
    | EmptyEndpoint    // the matching row's endpoint is the empty string

  /** The registry's view of one hotkey against the desired endpoint. */
  datatype Drift = NotRegistered | NoEndpoint | InSync | OutOfSync(current: string)

  /** The outcome of one entry, with the cache slot after it and whether a fetch was made. */
  datatype Step = Step(status: Status, cache: Option<seq<Row>>, fetched: bool)

  /** Everything the loop of `main` keeps: the three counters, the cached
      snapshot, the statuses of the entries seen so far, the positions whose
      configuration was used for a fetch, and whether an exception escaped. */
  datatype RunState = RunState(
    hotkeys: nat,
    registered: nat,
    updated: nat,
    cache: Option<seq<Row>>,
    trail: seq<Status>,
    fetches: seq<nat>,
    aborted: bool)

  /** The whole of `main`: the repository directory is unset or missing, or the loop ran. */
  datatype RunResult = RepositoryMissing | Ran(final: RunState)

  /** `file.endswith(".env")`: the name ".env" itself counts. */
  predicate IsConfigFile(name: string) {
    EndsWith(name, ".env")
  }

  /** `env_vars.get(key)`. */
  function EnvGet(env: map<string, Option<string>>, key: string): Option<string> {
    if key in env then env[key] else None
  }

  /** `f"{NODE_EXTERNAL_IP}:{NODE_PORT}"`, where a missing NODE_PORT prints as "None". */
  function DesiredEndpoint(externalIp: string, env: map<string, Option<string>>): (r: string)
    ensures |r| > |externalIp| && r[..|externalIp|] == externalIp && r[|externalIp|] == ':'
    ensures EnvGet(env, "NODE_PORT").Some? ==> r[|externalIp| + 1..] == EnvGet(env, "NODE_PORT").value
    ensures EnvGet(env, "NODE_PORT").None? ==> r[|externalIp| + 1..] == "None"
  {
    externalIp + ":" + match EnvGet(env, "NODE_PORT") case Some(port) => port case None => "None"
  }

  predicate CountsHotkey(status: Status) {
    !(status.NotConfig? || status.KeyLoadFailed? || status.NoAddress?)
  }

  predicate CountsRegistered(status: Status) {
    status.Matched? || status.Updated? || status.UpdateRejected? || status.UpdateRaised? || status.EmptyEndpoint?
  }

  predicate IsUpdated(status: Status) {
    status.Updated?
  }

  /** The statuses that follow a call of `post_node_ip_to_chain`. */
  predicate Submitted(status: Status) {
    status.Updated? || status.UpdateRejected? || status.UpdateRaised?
  }

  /** The first row for the hotkey, its endpoint's truthiness, then exact string comparison. */
  function Detect(snapshot: seq<Row>, hotkey: string, desired: string): (d: Drift)
    ensures d.NotRegistered? <==> forall i :: 0 <= i < |snapshot| ==> snapshot[i].hotkey != hotkey
    ensures var k := FirstMatch(snapshot, hotkey);
            d.InSync? <==> k.Some? && snapshot[k.value].axonIp == desired && desired != ""
    ensures var k := FirstMatch(snapshot, hotkey);
            d.OutOfSync? ==> k.Some? && d.current == snapshot[k.value].axonIp
                             && d.current != "" && d.current != desired
  {
    match FirstMatch(snapshot, hotkey)
    case None => NotRegistered
    case Some(k) =>
      if snapshot[k].axonIp == "" then NoEndpoint
      else if snapshot[k].axonIp != desired then OutOfSync(snapshot[k].axonIp)
      else InSync
  }

  /** The status a post ends in. */
  function PostStatus(reply: PostReply): Status {
    match reply
    case PostReturned(success) => if success then Updated else UpdateRejected
    case PostRaised => UpdateRaised
  }

  /** The reply the post step ends with. `int(NETUID)` and `int(axon_port)` are
      evaluated inside the `try` around the post, so when the file leaves either
      unset, `int(None)` raises and the step ends as a raising post, whatever
      the chain would have answered. */
  function PostOutcome(file: ConfigFile): PostReply {
    if EnvGet(file.env, "NETUID").None? || EnvGet(file.env, "NODE_PORT").None? then PostRaised
    else file.postReply
  }

  /** The status of a loaded hotkey against an available snapshot. */
  function Decide(snapshot: seq<Row>, hotkey: string, desired: string, reply: PostReply): (status: Status)
    ensures status == Deregistered <==> Detect(snapshot, hotkey, desired).NotRegistered?
    ensures Submitted(status) <==> Detect(snapshot, hotkey, desired).OutOfSync?
    ensures status == Updated <==> Detect(snapshot, hotkey, desired).OutOfSync? && reply == PostReturned(true)
  {
    match Detect(snapshot, hotkey, desired)
    case NotRegistered => Deregistered
    case NoEndpoint => EmptyEndpoint
    case InSync => Matched
    case OutOfSync(_) => PostStatus(reply)
  }

  /** One iteration of the loop, given the cache slot before it. */
  function Process(cache: Option<seq<Row>>, file: ConfigFile, externalIp: string): (step: Step)
    ensures !IsConfigFile(file.name) ==> step == Step(NotConfig, cache, false)
    ensures step.fetched ==> cache.None?
    ensures cache.Some? ==> step.cache == cache
    ensures step.status.FetchFailed? <==> step.fetched && step.cache.None?
  {
    if !IsConfigFile(file.name) then Step(NotConfig, cache, false)
    else if file.keyLoad.LoadRaised? then Step(KeyLoadFailed, cache, false)
    else if file.keyLoad.ss58Address.None? then Step(NoAddress, cache, false)
    else
      var snapshot := if cache.Some? then cache else SnapshotOf(file.fetchReply);
      if snapshot.None? then Step(FetchFailed, cache, true)
      else
        var status := Decide(snapshot.value, file.keyLoad.ss58Address.value,
                             DesiredEndpoint(externalIp, file.env), PostOutcome(file));
        Step(status, snapshot, cache.None?)
  }

  function Inc(count: nat, counted: bool): nat {
    if counted then count + 1 else count
  }

  /** The loop state after one more entry. */
  function Apply(state: RunState, file: ConfigFile, externalIp: string): RunState {
    var step := Process(state.cache, file, externalIp);
    RunState(
      Inc(state.hotkeys, CountsHotkey(step.status)),
      Inc(state.registered, CountsRegistered(step.status)),
      Inc(state.updated, IsUpdated(step.status)),
      step.cache,
      state.trail + [step.status],
      if step.fetched then state.fetches + [|state.trail|] else state.fetches,
      step.status.FetchFailed?)
  }

  const Initial: RunState := RunState(0, 0, 0, None, [], [], false)

  /** The loop state after the entries `files`, in order, stopping at an abort. */
  function Run(files: seq<ConfigFile>, externalIp: string): (s: RunState)
    ensures |s.trail| <= |files|
    ensures !s.aborted ==> |s.trail| == |files|
    decreases |files|
  {
    if files == [] then Initial
    else
      var before := Run(files[..|files| - 1], externalIp);
      if before.aborted then before else Apply(before, files[|files| - 1], externalIp)
  }

  function RunSpec(externalIp: string, repository: Option<seq<ConfigFile>>): RunResult {
    match repository
    case None => RepositoryMissing
    case Some(files) => Ran(Run(files, externalIp))
  }

  /** One more entry extends the run, unless it has already aborted. */
  lemma RunSnoc(files: seq<ConfigFile>, i: nat, externalIp: string)
    requires i < |files|
    requires !Run(files[..i], externalIp).aborted
    ensures Run(files[..i + 1], externalIp) == Apply(Run(files[..i], externalIp), files[i], externalIp)
  {
    assert files[..i + 1][..i] == files[..i];
  }

  /** An aborted run stays as it is, whatever entries follow. */
  lemma {:induction false} AbortIsFinal(files: seq<ConfigFile>, n: nat, externalIp: string)
    requires n <= |files|
    requires Run(files[..n], externalIp).aborted
    ensures Run(files, externalIp) == Run(files[..n], externalIp)
    decreases |files| - n
  {
    if n < |files| {
      assert files[..n + 1][..n] == files[..n];
      AbortIsFinal(files, n + 1, externalIp);
    } else {
      assert files[..n] == files;
    }
  }

  /** The body of the loop of `main` for one directory entry: the early exits
      of the source's `continue` statements become returns. Each of the three
      counters it receives rises by at most one; the cache slot is filled by
      the first loaded hotkey and then kept; a fetch that raises is reported
      as `FetchFailed`, on which the caller stops. */
  method ProcessEntry(file: ConfigFile, externalIp: string, cache: Option<seq<Row>>,
                      hotkeys: nat, registered: nat, updated: nat)
    returns (status: Status, cache': Option<seq<Row>>, fetched: bool,
             hotkeys': nat, registered': nat, updated': nat)
    ensures Step(status, cache', fetched) == Process(cache, file, externalIp)
    ensures hotkeys' == Inc(hotkeys, CountsHotkey(status))
    ensures registered' == Inc(registered, CountsRegistered(status))
    ensures updated' == Inc(updated, IsUpdated(status))
  {
    cache', fetched := cache, false;
    hotkeys', registered', updated' := hotkeys, registered, updated;
    if !IsConfigFile(file.name) {
      return NotConfig, cache', fetched, hotkeys', registered', updated';
    }
    if file.keyLoad.LoadRaised? {
      return KeyLoadFailed, cache', fetched, hotkeys', registered', updated';
    }
    if file.keyLoad.ss58Address.None? {
      return NoAddress, cache', fetched, hotkeys', registered', updated';
    }
    var hotkey := file.keyLoad.ss58Address.value;
    hotkeys' := hotkeys' + 1;
    if cache'.None? {
      fetched := true;
      cache' := FetchMetagraph(file.fetchReply);
      if cache'.None? {
        return FetchFailed, cache', fetched, hotkeys', registered', updated';
      }
    }
    var desired := DesiredEndpoint(externalIp, file.env);
    var reply := file.postReply;
    if EnvGet(file.env, "NETUID").None? || EnvGet(file.env, "NODE_PORT").None? {
      reply := PostRaised;
    }
    status, registered', updated' :=
      CompareAndPost(cache'.value, hotkey, desired, reply, registered', updated');
  }

  /** The second half of the loop body, for a loaded hotkey and an available
      snapshot: the first matching row, the truthiness test of its endpoint,
      the comparison with the desired endpoint and the post. */
  method CompareAndPost(snapshot: seq<Row>, hotkey: string, desired: string, reply: PostReply,
                        registered: nat, updated: nat)
    returns (status: Status, registered': nat, updated': nat)
    ensures status == Decide(snapshot, hotkey, desired, reply)
    ensures registered' == Inc(registered, CountsRegistered(status))
    ensures updated' == Inc(updated, IsUpdated(status))
  {
    registered', updated' := registered, updated;
    var row := FirstMatch(snapshot, hotkey);
    if row.None? {
      return Deregistered, registered', updated';
    }
    registered' := registered' + 1;
    var axonIpPort := snapshot[row.value].axonIp;
    if axonIpPort != "" {
      if axonIpPort != desired {
        match reply
        case PostReturned(success) =>
          if success {
            updated' := updated' + 1;
            status := Updated;
          } else {
            status := UpdateRejected;
          }
        case PostRaised =>
          status := UpdateRaised;
      } else {
        status := Matched;
      }
    } else {
      status := EmptyEndpoint;
    }
  }

  /** `main` from the point where the external IP is known. The directory
      listing is `repository` (`None` when NINETEEN_REPO_DIRECTORY is unset or
      does not exist). The result is the run `RunSpec` defines, and
      the counters keep updated <= registered <= hotkeys. The locals `trail`
      (each entry's status) and `fetches` (the positions whose configuration
      was fetched with) have no counterpart in `main`: they record the run so
      that its properties can be stated. */
  method ReconcileRun(externalIp: string, repository: Option<seq<ConfigFile>>) returns (result: RunResult)
    ensures result == RunSpec(externalIp, repository)
    ensures result.Ran? ==> result.final.updated <= result.final.registered <= result.final.hotkeys
  {
    if repository.None? {
      return RepositoryMissing;
    }
    var files := repository.value;
    var countHotkeys, countRegistered, countUpdated := 0, 0, 0;
    var parsedMetagraph: Option<seq<Row>> := None;
    var trail: seq<Status> := [];
    var fetches: seq<nat> := [];
    for i := 0 to |files|
      invariant Run(files[..i], externalIp)
                == RunState(countHotkeys, countRegistered, countUpdated, parsedMetagraph, trail, fetches, false)
      invariant |trail| == i
      invariant countUpdated <= countRegistered <= countHotkeys
    {
      RunSnoc(files, i, externalIp);
      var status, fetched;
      status, parsedMetagraph, fetched, countHotkeys, countRegistered, countUpdated :=
        ProcessEntry(files[i], externalIp, parsedMetagraph, countHotkeys, countRegistered, countUpdated);
      trail := trail + [status];
      if fetched {
        fetches := fetches + [i];
      }
      if status.FetchFailed? {
        AbortIsFinal(files, i + 1, externalIp);
        assert files[..|files|] == files;
        return Ran(RunState(countHotkeys, countRegistered, countUpdated, parsedMetagraph, trail, fetches, true));
      }
    }
    assert files[..|files|] == files;
    result := Ran(RunState(countHotkeys, countRegistered, countUpdated, parsedMetagraph, trail, fetches, false));
  }
}
