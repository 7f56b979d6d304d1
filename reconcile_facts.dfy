/** What a run of `main` does, stated without the loop: which entries are
    processed, how each one ends, where the one snapshot comes from, and what
    the three counters count. */
module ReconcileFacts {
  import opened Wrappers
  import opened Text
  import opened Metagraph
  import opened Reconcile

  /** An entry whose hotkey loads: a `.env` file whose keypair has an address. */
  predicate LoadsHotkey(file: ConfigFile) {
    IsConfigFile(file.name) && file.keyLoad.Loaded? && file.keyLoad.ss58Address.Some?
  }

  /** The position of the first entry whose hotkey loads. */
  function FirstLoader(files: seq<ConfigFile>): (k: Option<nat>)
    ensures k.None? <==> forall i :: 0 <= i < |files| ==> !LoadsHotkey(files[i])
    ensures k.Some? ==> k.value < |files| && LoadsHotkey(files[k.value])
                        && forall j :: 0 <= j < k.value ==> !LoadsHotkey(files[j])
  {
    if files == [] then None
    else if LoadsHotkey(files[0]) then Some(0)
    else
      match FirstLoader(files[1..])
      case None => None
      case Some(k) => Some(k + 1)
  }

  /** The number of `.env` entries. */
  function ConfigCount(files: seq<ConfigFile>): nat {
    if files == [] then 0
    else ConfigCount(files[..|files| - 1]) + if IsConfigFile(files[|files| - 1].name) then 1 else 0
  }

  /** How many statuses of a trail satisfy `p`. */
  function CountOf(trail: seq<Status>, p: Status -> bool): nat {
    if trail == [] then 0
    else CountOf(trail[..|trail| - 1], p) + if p(trail[|trail| - 1]) then 1 else 0
  }

  /** Whether the one fetch of the run, made with the first loaded entry's
      configuration, raises. */
  predicate FetchRaises(files: seq<ConfigFile>) {
    FirstLoader(files).Some? && SnapshotOf(files[FirstLoader(files).value].fetchReply).None?
  }

  /** How entry `i` ends, stated without the loop: the snapshot every loaded
      hotkey is compared against is the one built from the configuration of
      the first loaded entry, whatever the entry's own NETUID. */
  function InstanceStatus(files: seq<ConfigFile>, externalIp: string, i: nat): Status
    requires i < |files|
  {
    var file := files[i];
    if !IsConfigFile(file.name) then NotConfig
    else if file.keyLoad.LoadRaised? then KeyLoadFailed
    else if file.keyLoad.ss58Address.None? then NoAddress
    else
      var k := FirstLoader(files).value;
      match SnapshotOf(files[k].fetchReply)
      case None => FetchFailed
      case Some(snapshot) =>
        Decide(snapshot, file.keyLoad.ss58Address.value, DesiredEndpoint(externalIp, file.env), PostOutcome(file))
  }

  /** The entries a run gets through: all of them, or up to and including the
      first loaded one when its fetch raises. */
  function ProcessedCount(files: seq<ConfigFile>): (n: nat)
    ensures n <= |files|
  {
    if FetchRaises(files) then FirstLoader(files).value + 1 else |files|
  }

  /** The first loader is determined by its defining property. */
  lemma FirstLoaderIs(files: seq<ConfigFile>, k: nat)
    requires k < |files| && LoadsHotkey(files[k])
    requires forall j :: 0 <= j < k ==> !LoadsHotkey(files[j])
    ensures FirstLoader(files) == Some(k)
  {
    var f := FirstLoader(files);
    assert f.Some?;
    assert !(f.value < k);
  }

  lemma FirstLoaderSnoc(files: seq<ConfigFile>)
    requires files != []
    ensures var p := files[..|files| - 1];
            FirstLoader(files) == if FirstLoader(p).Some? then FirstLoader(p)
                                  else if LoadsHotkey(files[|files| - 1]) then Some(|files| - 1) else None
  {
    var p := files[..|files| - 1];
    assert forall i :: 0 <= i < |p| ==> p[i] == files[i];
    var f := FirstLoader(p);
    if f.Some? {
      FirstLoaderIs(files, f.value);
    } else if LoadsHotkey(files[|files| - 1]) {
      FirstLoaderIs(files, |files| - 1);
    } else {
      assert forall i :: 0 <= i < |files| ==> !LoadsHotkey(files[i]);
    }
  }

  lemma InstanceStatusSnoc(files: seq<ConfigFile>, externalIp: string, i: nat)
    requires i < |files| - 1
    ensures InstanceStatus(files, externalIp, i) == InstanceStatus(files[..|files| - 1], externalIp, i)
  {
    FirstLoaderSnoc(files);
  }

  /** The lengths, the cache slot, the fetch positions and the abort flag a
      run over `files` ends with. */
  predicate HasShape(s: RunState, files: seq<ConfigFile>) {
    && |s.trail| == ProcessedCount(files)
    && (s.aborted <==> FetchRaises(files))
    && s.fetches == (if FirstLoader(files).Some? then [FirstLoader(files).value] else [])
    && s.cache == CacheAfter(files)
  }

  /** An aborted run keeps its shape when more entries follow. */
  lemma AbortedShape(files: seq<ConfigFile>, before: RunState)
    requires files != []
    requires HasShape(before, files[..|files| - 1]) && before.aborted
    ensures HasShape(before, files)
  {
    var p := files[..|files| - 1];
    FirstLoaderSnoc(files);
    assert files[FirstLoader(p).value] == p[FirstLoader(p).value];
  }

  /** An entry processed with a filled cache keeps it and fetches nothing. */
  lemma StepWithCache(cache: Option<seq<Row>>, file: ConfigFile, externalIp: string)
    requires cache.Some?
    ensures var step := Process(cache, file, externalIp);
            step.cache == cache && !step.fetched && !step.status.FetchFailed?
  {
  }

  /** An entry whose hotkey does not load leaves the cache alone and fetches nothing. */
  lemma StepWithoutHotkey(cache: Option<seq<Row>>, file: ConfigFile, externalIp: string)
    requires !LoadsHotkey(file)
    ensures var step := Process(cache, file, externalIp);
            step.cache == cache && !step.fetched && !step.status.FetchFailed?
  {
  }

  /** The first loaded hotkey fills the empty cache from its own fetch, which
      fails exactly when the query raises. */
  lemma StepFirstLoad(file: ConfigFile, externalIp: string)
    requires LoadsHotkey(file)
    ensures var step := Process(None, file, externalIp);
            step.fetched && step.cache == SnapshotOf(file.fetchReply)
            && (step.status.FetchFailed? <==> SnapshotOf(file.fetchReply).None?)
  {
  }

  /** One more entry after a run that has not aborted gives the shape of the longer run. */
  lemma NextShape(files: seq<ConfigFile>, externalIp: string, before: RunState)
    requires files != []
    requires HasShape(before, files[..|files| - 1]) && !before.aborted
    ensures HasShape(Apply(before, files[|files| - 1], externalIp), files)
  {
    var p := files[..|files| - 1];
    var x := files[|files| - 1];
    FirstLoaderSnoc(files);
    if FirstLoader(p).Some? {
      assert files[FirstLoader(p).value] == p[FirstLoader(p).value];
      StepWithCache(before.cache, x, externalIp);
    } else if LoadsHotkey(x) {
      StepFirstLoad(x, externalIp);
    } else {
      StepWithoutHotkey(before.cache, x, externalIp);
    }
  }

  /** The lengths, the cache slot, the fetch positions and the abort flag of a run. */
  lemma {:induction false} RunShape(files: seq<ConfigFile>, externalIp: string)
    ensures HasShape(Run(files, externalIp), files)
    decreases |files|
  {
    if files != [] {
      var p := files[..|files| - 1];
      RunShape(p, externalIp);
      var before := Run(p, externalIp);
      if before.aborted {
        AbortedShape(files, before);
      } else {
        NextShape(files, externalIp, before);
      }
    }
  }

  /** The cache slot after the entries `files`, as `RunShape` states it. */
  function CacheAfter(files: seq<ConfigFile>): Option<seq<Row>> {
    if FirstLoader(files).Some? then SnapshotOf(files[FirstLoader(files).value].fetchReply) else None
  }

  /** The entry after a run that has not aborted ends as `InstanceStatus` says. */
  lemma NextStatus(files: seq<ConfigFile>, externalIp: string)
    requires files != []
    requires !FetchRaises(files[..|files| - 1])
    ensures Process(CacheAfter(files[..|files| - 1]), files[|files| - 1], externalIp).status
            == InstanceStatus(files, externalIp, |files| - 1)
  {
    var p := files[..|files| - 1];
    FirstLoaderSnoc(files);
    if FirstLoader(p).Some? {
      assert files[FirstLoader(p).value] == p[FirstLoader(p).value];
    }
  }

  /** Statuses of earlier entries stay as `InstanceStatus` gives them when an entry is appended. */
  lemma TrailPrefix(files: seq<ConfigFile>, externalIp: string, trail: seq<Status>)
    requires files != [] && |trail| <= |files| - 1
    requires forall i :: 0 <= i < |trail| ==> trail[i] == InstanceStatus(files[..|files| - 1], externalIp, i)
    ensures forall i :: 0 <= i < |trail| ==> trail[i] == InstanceStatus(files, externalIp, i)
  {
    forall i | 0 <= i < |trail|
      ensures trail[i] == InstanceStatus(files, externalIp, i)
    {
      InstanceStatusSnoc(files, externalIp, i);
    }
  }

  /** One more entry after a live run whose trail is right gives a trail that is right. */
  lemma TrailStep(files: seq<ConfigFile>, externalIp: string, before: RunState)
    requires files != []
    requires HasShape(before, files[..|files| - 1]) && !before.aborted
    requires forall i :: 0 <= i < |before.trail| ==> before.trail[i] == InstanceStatus(files[..|files| - 1], externalIp, i)
    ensures var s := Apply(before, files[|files| - 1], externalIp);
            forall i :: 0 <= i < |s.trail| ==> i < |files| && s.trail[i] == InstanceStatus(files, externalIp, i)
  {
    var p := files[..|files| - 1];
    var s := Apply(before, files[|files| - 1], externalIp);
    var last := Process(CacheAfter(p), files[|files| - 1], externalIp).status;
    assert s.trail == before.trail + [last];
    assert |before.trail| == |files| - 1;
    NextStatus(files, externalIp);
    TrailPrefix(files, externalIp, before.trail);
    forall i | 0 <= i < |s.trail|
      ensures i < |files| && s.trail[i] == InstanceStatus(files, externalIp, i)
    {
      if i < |before.trail| {
        assert s.trail[i] == before.trail[i];
      } else {
        assert s.trail[i] == last;
      }
    }
  }

  /** Every status in a run's trail is the one `InstanceStatus` gives. */
  lemma {:induction false} RunTrail(files: seq<ConfigFile>, externalIp: string)
    ensures var s := Run(files, externalIp);
            forall i :: 0 <= i < |s.trail| ==> i < |files| && s.trail[i] == InstanceStatus(files, externalIp, i)
    decreases |files|
  {
    if files != [] {
      var p := files[..|files| - 1];
      var before := Run(p, externalIp);
      RunTrail(p, externalIp);
      RunShape(p, externalIp);
      var s := Run(files, externalIp);
      if before.aborted {
        assert s == before;
        TrailPrefix(files, externalIp, before.trail);
        assert forall i :: 0 <= i < |s.trail| ==> s.trail[i] == InstanceStatus(files, externalIp, i);
      } else {
        assert s == Apply(before, files[|files| - 1], externalIp);
        TrailStep(files, externalIp, before);
      }
    }
  }

  /** Each counter counts the statuses of its kind in the trail. */
  lemma {:induction false} RunCounters(files: seq<ConfigFile>, externalIp: string)
    ensures var s := Run(files, externalIp);
            && s.hotkeys == CountOf(s.trail, CountsHotkey)
            && s.registered == CountOf(s.trail, CountsRegistered)
            && s.updated == CountOf(s.trail, IsUpdated)
    decreases |files|
  {
    if files != [] {
      var p := files[..|files| - 1];
      RunCounters(p, externalIp);
      var before := Run(p, externalIp);
      var s := Run(files, externalIp);
      if !before.aborted {
        assert s.trail[..|s.trail| - 1] == before.trail;
      }
    }
  }

  /** count_updated <= count_registered <= count_hotkeys <= the number of `.env` files. */
  lemma {:induction false} CountersBounded(files: seq<ConfigFile>, externalIp: string)
    ensures var s := Run(files, externalIp);
            s.updated <= s.registered <= s.hotkeys <= ConfigCount(files)
    decreases |files|
  {
    if files != [] {
      CountersBounded(files[..|files| - 1], externalIp);
    }
  }

  /** One entry raises each counter by at most one; count_updated rises
      exactly when a post was made and returned true; an entry whose keypair
      fails to load leaves counters and cache as they were. */
  lemma StepCounters(state: RunState, file: ConfigFile, externalIp: string)
    ensures var next := Apply(state, file, externalIp);
            && next.hotkeys - state.hotkeys in {0, 1}
            && next.registered - state.registered in {0, 1}
            && next.updated - state.updated in {0, 1}
            && (next.updated == state.updated + 1
                <==> Submitted(next.trail[|state.trail|]) && PostOutcome(file) == PostReturned(true))
            && (!LoadsHotkey(file) ==> next.hotkeys == state.hotkeys && next.registered == state.registered
                                       && next.updated == state.updated && next.cache == state.cache)
  {
  }

  /** The snapshot is fetched at most once, with the configuration of the first
      entry whose hotkey loads, and only if the run gets that far. */
  lemma FetchAtMostOnce(files: seq<ConfigFile>, externalIp: string)
    ensures var s := Run(files, externalIp);
            && |s.fetches| <= 1
            && (s.fetches != [] <==> FirstLoader(files).Some?)
            && (forall k :: k in s.fetches ==>
                  && k < |s.trail| <= |files|
                  && LoadsHotkey(files[k])
                  && forall j :: 0 <= j < k ==> !LoadsHotkey(files[j]))
  {
    RunShape(files, externalIp);
  }

  /** Once fetched, the snapshot stays in the slot for every later entry. */
  lemma SnapshotReused(files: seq<ConfigFile>, externalIp: string, i: nat)
    requires FirstLoader(files).Some? && FirstLoader(files).value < i <= |files|
    ensures Run(files[..i], externalIp).cache == SnapshotOf(files[FirstLoader(files).value].fetchReply)
  {
    var p := files[..i];
    var k := FirstLoader(files).value;
    assert forall j :: 0 <= j < i ==> p[j] == files[j];
    assert FirstLoader(p) == Some(k);
    RunShape(p, externalIp);
  }

  /** A fetch that raises ends the run: no later entry is looked at. */
  lemma FetchFailureIsFatal(files: seq<ConfigFile>, more: seq<ConfigFile>, externalIp: string)
    requires Run(files, externalIp).aborted
    ensures Run(files + more, externalIp) == Run(files, externalIp)
  {
    var all := files + more;
    assert all[..|files|] == files;
    AbortIsFinal(all, |files|, externalIp);
  }

  /** A load failure, a missing address, a rejected or a raising post at entry
      `i` does not stop the run: entry `i + 1`, if there is one, is processed. */
  lemma FailuresAreIsolated(files: seq<ConfigFile>, externalIp: string, i: nat)
    requires i + 1 < |files|
    requires var s := Run(files, externalIp);
             i < |s.trail| && !s.trail[i].FetchFailed?
    ensures i + 1 < |Run(files, externalIp).trail|
  {
    RunShape(files, externalIp);
    RunTrail(files, externalIp);
  }

  /** The drift decision: no row means no post; a post is made exactly when the
      first matching row's endpoint is non-empty and differs, as a string, from
      the desired one; the result counts as updated only when the post returns true. */
  lemma DecideOutcomes(snapshot: seq<Row>, hotkey: string, desired: string, reply: PostReply)
    ensures var status := Decide(snapshot, hotkey, desired, reply);
            var k := FirstMatch(snapshot, hotkey);
            && (k.None? <==> status == Deregistered)
            && (k.None? ==> !Submitted(status) && !CountsRegistered(status))
            && (Submitted(status) <==> k.Some? && snapshot[k.value].axonIp != "" && snapshot[k.value].axonIp != desired)
            && (status == Matched <==> k.Some? && desired != "" && snapshot[k.value].axonIp == desired)
            && (status == Updated <==> Submitted(status) && reply == PostReturned(true))
  {
  }

  /** Which entries are posted for, over a whole run: exactly the processed
      entries whose hotkey loads, whose hotkey has a row in the snapshot of the
      first loaded entry, and whose first such row's endpoint differs from
      "external_ip:NODE_PORT". */
  lemma SubmissionsExactly(files: seq<ConfigFile>, externalIp: string, i: nat)
    requires i < |Run(files, externalIp).trail|
    ensures i < |files|
    ensures Submitted(Run(files, externalIp).trail[i])
            <==> && LoadsHotkey(files[i])
                 && var snapshot := SnapshotOf(files[FirstLoader(files).value].fetchReply);
                 && snapshot.Some?
                 && var k := FirstMatch(snapshot.value, files[i].keyLoad.ss58Address.value);
                 && k.Some?
                 && snapshot.value[k.value].axonIp != DesiredEndpoint(externalIp, files[i].env)
  {
    RunShape(files, externalIp);
    RunTrail(files, externalIp);
    InstanceSubmitted(files, externalIp, i);
  }

  /** Which entries `InstanceStatus` posts for, stated without the run. */
  lemma InstanceSubmitted(files: seq<ConfigFile>, externalIp: string, i: nat)
    requires i < |files|
    ensures Submitted(InstanceStatus(files, externalIp, i))
            <==> && LoadsHotkey(files[i])
                 && var snapshot := SnapshotOf(files[FirstLoader(files).value].fetchReply);
                 && snapshot.Some?
                 && var k := FirstMatch(snapshot.value, files[i].keyLoad.ss58Address.value);
                 && k.Some?
                 && snapshot.value[k.value].axonIp != DesiredEndpoint(externalIp, files[i].env)
  {
    if LoadsHotkey(files[i]) {
      var reply := files[FirstLoader(files).value].fetchReply;
      if reply.Fetched? {
        EndpointsNonEmpty(reply.nodes);
        var hotkey := files[i].keyLoad.ss58Address.value;
        DecideOutcomes(NodeRows(reply.nodes), hotkey, DesiredEndpoint(externalIp, files[i].env), PostOutcome(files[i]));
      }
    }
  }

  /** An entry whose file leaves NETUID or NODE_PORT unset never counts as
      updated: the `int(None)` in the post's `try` raises before any post. */
  lemma UnsetSettingNeverUpdated(files: seq<ConfigFile>, externalIp: string, i: nat)
    requires i < |Run(files, externalIp).trail|
    requires EnvGet(files[i].env, "NETUID").None? || EnvGet(files[i].env, "NODE_PORT").None?
    ensures Run(files, externalIp).trail[i] != Updated
  {
    RunShape(files, externalIp);
    RunTrail(files, externalIp);
  }

  /** The branch for a matching row with an empty endpoint is never taken. */
  lemma NoEmptyEndpoint(files: seq<ConfigFile>, externalIp: string)
    ensures var s := Run(files, externalIp);
            forall i :: 0 <= i < |s.trail| ==> !s.trail[i].EmptyEndpoint?
  {
    RunShape(files, externalIp);
    RunTrail(files, externalIp);
    forall i | 0 <= i < |Run(files, externalIp).trail|
      ensures !InstanceStatus(files, externalIp, i).EmptyEndpoint?
    {
      InstanceNotEmpty(files, externalIp, i);
    }
  }

  /** No entry ends on the empty-endpoint branch. */
  lemma InstanceNotEmpty(files: seq<ConfigFile>, externalIp: string, i: nat)
    requires i < |files|
    ensures !InstanceStatus(files, externalIp, i).EmptyEndpoint?
  {
    if LoadsHotkey(files[i]) {
      var reply := files[FirstLoader(files).value].fetchReply;
      if reply.Fetched? {
        EndpointsNonEmpty(reply.nodes);
      }
    }
  }
}
