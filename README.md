# Miner axon reconciliation, modelled in Dafny

`update_miner_axon_on_chain.py` keeps the endpoints ("axons") that a set of
local miner instances have registered on a Bittensor subnet in line with the
host's current public address. It walks the `.env` files of a node
repository and loads each file's wallet hotkey. On the first loaded hotkey it
fetches one snapshot of the subnet's registered nodes, as rows of
(UID, "ip:port", hotkey). It then compares the hotkey's registered endpoint
with `"<external ip>:<NODE_PORT>"` and posts an update when the two differ. It
counts loaded hotkeys, registered hotkeys and successful updates.

The model has these modules:

- `Text`: decimal text and its inverse, and `str.endswith`. It also has a
  split on one character, in the manner of `str.split`. The script itself never
  splits a string: the split serves only the dotted-quad parser and the
  statement that an endpoint reads back.
- `PyValues`: the dynamically typed values a node record carries, with
  Python's `isinstance(v, int)` (`bool` included) and `str(v)`.
- `Ipv4`: `int_to_ip`. This covers `struct.pack('!L')` with its range
  error, `socket.inet_ntoa` with its length error, and the `"0.0.0.0"`
  sentinel. It also holds an independent dotted-quad parser, which the
  round trip is proved against.
- `Metagraph`: the node-to-row extraction of `fetch_metagraph_using_fiber`.
  It is a method with a loop over three column sequences, proved to give one
  row per node, in node order. The module also holds the first-match hotkey
  lookup `main` does on the table.
- `Reconcile`: the loop of `main`. The method `ReconcileRun` carries the
  source's counters, its single cached snapshot and its `continue` exits, and
  it treats the escaping fetch exception as an abort. It is proved equal to
  the recursive definition `Run` over prefixes of the directory listing.
- `ReconcileFacts`: what a run does, stated without the loop. It covers
  which entries are processed and how each entry ends (`InstanceStatus`, a
  stateless reference). It also covers where the one snapshot comes from and
  what the counters count.

Every collaborator outside the script is an input. The directory listing is
a sequence of `ConfigFile` values, in the order `os.listdir` returns. Each
value carries the file name and the variables `dotenv_values` reads. It also
carries what loading the keypair, fetching the snapshot and posting the
update answer when that entry is processed. The external IP is a string
parameter.

Points where the code may surprise a reader; the model follows the code:

- The code keeps a single cached snapshot for the whole run. It is fetched
  with the configuration of the first loaded hotkey and reused for every
  later hotkey, whatever that entry's NETUID or subtensor address. It is not
  a memo keyed by partition.
- An exception from the fetch is re-raised by `fetch_metagraph_using_fiber`
  and is not caught in `main`. It ends the run before any later entry and
  before the summary. It is not a per-instance outcome.
- `count_hotkeys` counts loaded hotkeys, not configured instances.
  `count_registered` counts hotkeys with at least one row.
- Lookup uses the first row whose hotkey matches (`values[0]`). No
  uniqueness of hotkeys in the snapshot is assumed.

## Model

| member | source | states |
|---|---|---|
| PyValues.AsInt | update_miner_axon_on_chain.py:40 | `isinstance(v, int)` holds exactly for ints and bools; an int stands for itself, `True` for 1 and `False` for 0 |
| PyValues.ToStr | update_miner_axon_on_chain.py:81-84 | `str(v)` and f-string interpolation: an int's text starts with '-' exactly when it is negative, and a string is its own text; `StrOfIntReadsBack` reads an int's text back |
| PyValues.StrOfIntReadsBack | update_miner_axon_on_chain.py:81 | the text of an int is decimal digits that denote it, after a '-' when it is negative |
| Ipv4.PackUnsignedLong | update_miner_axon_on_chain.py:41 | `struct.pack('!L', n)` succeeds exactly for 0 <= n < 2^32, with four bytes; `BigEndianFour` says which |
| Ipv4.InetNtoa | update_miner_axon_on_chain.py:41 | `socket.inet_ntoa` succeeds exactly on four bytes; `NtoaAlphabet` states its alphabet |
| Ipv4.IntToIp | update_miner_axon_on_chain.py:37-44 | `int_to_ip`: every input that is not an int in 0 < n < 2^32 gives "0.0.0.0", and a convertible one gives `inet_ntoa` of its packed bytes, so no exception escapes; `IntToIpParsesBack` and `IntToIpSentinelExactly` are its round trip and its error cases |
| Ipv4.BigEndianFour | update_miner_axon_on_chain.py:41 | packing a number below 2^32 gives its four octets, most significant first |
| Ipv4.IntToIpOctets | update_miner_axon_on_chain.py:40-41 | for 0 < n < 2^32 the text is the octets (n>>24)%256, (n>>16)%256, (n>>8)%256, n%256 in decimal, joined by dots |
| Ipv4.OctetsOf | update_miner_axon_on_chain.py:40-41 | a convertible number has four octets below 256 that make it up again and that its text consists of |
| Ipv4.DottedQuadRoundTrip | update_miner_axon_on_chain.py:41 | the dotted text of four octets parses back as the number they form |
| Ipv4.NumberParsesBack | update_miner_axon_on_chain.py:40-41 | the text of a number in 0 < n < 2^32 parses back as n |
| Ipv4.SentinelParses | update_miner_axon_on_chain.py:42-44 | the sentinel "0.0.0.0" parses as the address 0 |
| Ipv4.IntToIpParsesBack | update_miner_axon_on_chain.py:37-44 | round trip: the text of every input parses back, as the input when it converts and as 0 otherwise |
| Ipv4.IntToIpSentinelExactly | update_miner_axon_on_chain.py:37-44 | the result is "0.0.0.0" iff the input is not an int, is <= 0, or is >= 2^32 (both directions) |
| Ipv4.IntToIpInjective | update_miner_axon_on_chain.py:40-41 | two convertible inputs with the same text are the same number |
| Ipv4.NtoaAlphabet | update_miner_axon_on_chain.py:41 | the text of four bytes holds only digits and dots |
| Ipv4.IntToIpAlphabet | update_miner_axon_on_chain.py:37-44 | the result holds only digits and dots, so never ':' |
| Ipv4.IntToIpExample | update_miner_axon_on_chain.py:40-41 | 0xCB007105 becomes "203.0.113.5" |
| Ipv4.IntToIpOfTrue | update_miner_axon_on_chain.py:40 | `True` passes the int test and becomes "0.0.0.1" |
| Metagraph.GetAttr | update_miner_axon_on_chain.py:74-84 | `getattr(node, name, default)`: the attribute when present, else the default; `NodeRowDefaults` states the defaults the extraction uses |
| Metagraph.IpText | update_miner_axon_on_chain.py:79-81 | the address part of the endpoint: an int (or bool) through `int_to_ip`, anything else through `str()`; `EndpointReadsBack` states that an int address reads back from the endpoint |
| Metagraph.NodeRow | update_miner_axon_on_chain.py:74-84 | the row of one node under the `getattr` defaults; its endpoint is never empty; `NodeRowDefaults`, `EndpointReadsBack` and `EndpointsNonEmpty` state the rest |
| Metagraph.SnapshotOf | update_miner_axon_on_chain.py:51-95 | the snapshot of a registry reply: none exactly when the query raised, else one `NodeRow` per node, in order |
| Metagraph.ExtractRows | update_miner_axon_on_chain.py:64-84 | one row per node, in node order, each with the node's UID, "ip:port" and `str(hotkey)` under the `getattr` defaults |
| Metagraph.FetchMetagraph | update_miner_axon_on_chain.py:51-95 | a raising query gives no snapshot (the exception is re-raised); otherwise the snapshot is the rows of the nodes |
| Metagraph.FirstMatch | update_miner_axon_on_chain.py:201-210 | no result iff no row has the hotkey; otherwise the least index of a row with the hotkey |
| Metagraph.NodeRowDefaults | update_miner_axon_on_chain.py:74-84 | a missing UID gives 0, a missing ip and port give "0.0.0.0:0", a missing hotkey gives "" |
| Metagraph.EndpointReadsBack | update_miner_axon_on_chain.py:78-81 | for an int ip, the endpoint splits at its first ':' into `int_to_ip(ip)`, which parses back to the address, and `str(port)` |
| Metagraph.EndpointsNonEmpty | update_miner_axon_on_chain.py:81 | every endpoint in a snapshot holds ':' |
| Reconcile.IsConfigFile | update_miner_axon_on_chain.py:171 | `filename.endswith(".env")`; `Process` states that any other entry is skipped with nothing changed |
| Reconcile.EnvGet | update_miner_axon_on_chain.py:177-183 | `env_vars.get(key)`: the file's value for the key, and `None` both for a missing key and for a key written without '='; `DesiredEndpoint` and `SubmissionsExactly` use it for NODE_PORT |
| Reconcile.DesiredEndpoint | update_miner_axon_on_chain.py:212-213 | the desired endpoint is the external IP, then ':', then the NODE_PORT text when the file sets it and "None" when it does not |
| Reconcile.Detect | update_miner_axon_on_chain.py:201-213 | not registered exactly when no row carries the hotkey; in sync exactly when the first matching row's endpoint is non-empty and equals the desired one; out of sync carries that first row's endpoint, which is non-empty and differs from the desired one |
| Reconcile.PostOutcome | update_miner_axon_on_chain.py:218-246 | the post step's reply: a raise when the file leaves NETUID or NODE_PORT unset, because `int(None)` at lines 234 and 236 raises inside the `try`, else the chain's answer; `UnsetSettingNeverUpdated` and `StepCounters` state what follows |
| Reconcile.PostStatus | update_miner_axon_on_chain.py:231-246 | a post that returns true is `Updated`, one that returns false is `UpdateRejected`, and one that raises is `UpdateRaised`; `DecideOutcomes` and `StepCounters` state that only the first raises count_updated |
| Reconcile.Decide | update_miner_axon_on_chain.py:201-250 | the status is `Deregistered` exactly when no row matches, a post is made exactly when the endpoint is out of sync, and `Updated` holds exactly when that post returned true; `DecideOutcomes` spells this out on rows |
| Reconcile.Process | update_miner_axon_on_chain.py:171-250 | one entry: a non-`.env` entry changes nothing; a fetch is made only with an empty cache; a filled cache is kept; the entry ends `FetchFailed` exactly when it fetched and got nothing; `StepWithCache`, `StepWithoutHotkey` and `StepFirstLoad` state the cases |
| Reconcile.Run | update_miner_axon_on_chain.py:170-250 | the run over a listing processes at most every entry, and all of them unless it aborted; `RunShape`, `RunTrail` and `RunCounters` state the rest |
| Reconcile.Apply | update_miner_axon_on_chain.py:170-250 | one iteration's effect on the counters, the cache slot and the record of the run; `StepCounters` states that each counter rises by at most one and count_updated exactly for a post that returned true |
| Reconcile.RunSpec | update_miner_axon_on_chain.py:161-170 | no run when NINETEEN_REPO_DIRECTORY is unset or missing, else `Run` over the listing; `ReconcileRun` is proved equal to it |
| Reconcile.CompareAndPost | update_miner_axon_on_chain.py:201-250 | the second half of the loop body ends as `Decide` says, and count_registered and count_updated rise by one exactly for their status kinds |
| Reconcile.RunSnoc | update_miner_axon_on_chain.py:170 | a run that has not aborted extends by the next entry's step |
| Reconcile.AbortIsFinal | update_miner_axon_on_chain.py:199-200 | once a fetch has raised, later entries change nothing |
| Reconcile.ProcessEntry | update_miner_axon_on_chain.py:171-250 | one loop iteration: its status, cache and fetch flag are those of `Process`, and each counter rises by one exactly when its status kind says so |
| Reconcile.ReconcileRun | update_miner_axon_on_chain.py:156-255 | the loop's final counters, cache, trail and abort flag are `Run` over the listing (nothing when the directory is missing), with updated <= registered <= hotkeys |
| ReconcileFacts.FirstLoader | update_miner_axon_on_chain.py:186-193 | no result iff no entry loads a hotkey; otherwise the least such index |
| ReconcileFacts.FirstLoaderIs | update_miner_axon_on_chain.py:186-199 | an index that loads a hotkey, with no loading entry before it, is the first loader |
| ReconcileFacts.ProcessedCount | update_miner_axon_on_chain.py:170-200 | the run reaches at most every entry |
| ReconcileFacts.FirstLoaderSnoc | update_miner_axon_on_chain.py:186-193 | the first loader of a longer listing is the old one, or else the new last entry if it loads |
| ReconcileFacts.InstanceStatusSnoc | update_miner_axon_on_chain.py:170-250 | appending an entry does not change how the earlier entries end |
| ReconcileFacts.StepWithCache | update_miner_axon_on_chain.py:199-200 | with a snapshot already cached, an entry keeps it, fetches nothing and cannot fail a fetch |
| ReconcileFacts.StepWithoutHotkey | update_miner_axon_on_chain.py:171-196 | an entry whose hotkey does not load keeps the cache and fetches nothing |
| ReconcileFacts.StepFirstLoad | update_miner_axon_on_chain.py:199-200 | the first loaded hotkey fetches, caches the result and fails exactly when the query raises |
| ReconcileFacts.AbortedShape | update_miner_axon_on_chain.py:199-200 | an aborted run keeps the length, cache, fetches and flag it has, whatever follows |
| ReconcileFacts.NextShape | update_miner_axon_on_chain.py:170-200 | one entry more after a live run gives the shape `RunShape` states for the longer listing |
| ReconcileFacts.RunShape | update_miner_axon_on_chain.py:159-200 | a run processes all entries or stops right after a raising first fetch; it aborts iff that fetch raises; it fetches once, at the first loaded entry, or never; the cache then holds that fetch's snapshot |
| ReconcileFacts.NextStatus | update_miner_axon_on_chain.py:171-250 | the next entry of a live run ends as the stateless `InstanceStatus` says |
| ReconcileFacts.TrailPrefix | update_miner_axon_on_chain.py:170-250 | appending an entry leaves the earlier trail statuses equal to `InstanceStatus` of the longer listing |
| ReconcileFacts.TrailStep | update_miner_axon_on_chain.py:170-250 | one more entry after a live run whose trail agrees with `InstanceStatus` gives a trail that agrees for the longer listing |
| ReconcileFacts.RunTrail | update_miner_axon_on_chain.py:170-250 | every status of a run's trail is `InstanceStatus` of that entry |
| ReconcileFacts.RunCounters | update_miner_axon_on_chain.py:193-242 | each counter is the number of trail statuses of its kind |
| ReconcileFacts.CountersBounded | update_miner_axon_on_chain.py:171-244 | count_updated <= count_registered <= count_hotkeys <= the number of `.env` entries |
| ReconcileFacts.StepCounters | update_miner_axon_on_chain.py:193-244 | one entry raises each counter by at most one; count_updated rises iff a post was made and returned true, which needs NETUID and NODE_PORT set; an entry without a loaded hotkey changes no counter and no cache |
| ReconcileFacts.FetchAtMostOnce | update_miner_axon_on_chain.py:199-200 | at most one fetch per run, made iff some entry loads a hotkey, at the first such entry |
| ReconcileFacts.SnapshotReused | update_miner_axon_on_chain.py:199-201 | after the first loaded entry the cache holds that entry's snapshot, whatever the later entries' NETUID |
| ReconcileFacts.FetchFailureIsFatal | update_miner_axon_on_chain.py:91-95 | after a raising fetch, entries appended later change nothing |
| ReconcileFacts.FailuresAreIsolated | update_miner_axon_on_chain.py:186-246 | a processed entry that does not end in a fetch failure is followed by the processing of the next entry |
| ReconcileFacts.DecideOutcomes | update_miner_axon_on_chain.py:201-248 | no row means no post and no registration; a post happens iff the first row's endpoint is non-empty and differs, as a string, from the desired one; the result counts as updated iff the post returns true |
| ReconcileFacts.SubmissionsExactly | update_miner_axon_on_chain.py:198-248 | over a run, entry i is posted for iff its hotkey loads, the shared snapshot exists and has a row for it, and that first row's endpoint differs from "external_ip:NODE_PORT" (both directions) |
| ReconcileFacts.InstanceSubmitted | update_miner_axon_on_chain.py:198-248 | `InstanceStatus` posts for entry i iff its hotkey loads, the first loader's snapshot exists and has a row for it, and that first row's endpoint differs from "external_ip:NODE_PORT" (both directions) |
| ReconcileFacts.UnsetSettingNeverUpdated | update_miner_axon_on_chain.py:218-246 | an entry whose file leaves NETUID or NODE_PORT unset never ends `Updated`, whatever the chain would answer |
| ReconcileFacts.InstanceNotEmpty | update_miner_axon_on_chain.py:249-250 | no entry ends on the branch for an empty endpoint |
| ReconcileFacts.NoEmptyEndpoint | update_miner_axon_on_chain.py:249-250 | no status of a run's trail is the empty-endpoint one, because every endpoint holds ':' |

## Left out

- The lookup of the external IP through `requests` (line 154) and its failures: the IP is a string parameter.
- `load_env_files` and the checks of NINETEEN_REPO_DIRECTORY (lines 153-168): the model has only the missing-directory answer, as `None` for the listing.
- `os.listdir`: its order is whatever the input sequence says. A NINETEEN_REPO_DIRECTORY that exists but cannot be listed (a regular file, or one without read permission) makes `os.listdir` at line 170 raise out of `main` before any entry. The listing parameter cannot express that.
- `dotenv_values`: a file's variables are a map given with the entry. A `.env` entry that cannot be read (one the process may not open, or one that does not decode) is not modelled.
- `load_hotkey_keypair` and `Keypair`: a loaded keypair, with or without an address, or an exception, given with the entry.
- The substrate connection, `get_nodes_for_netuid`, `int(netuid)` in the fetch, the coldkey load and `post_node_ip_to_chain`: each is the answer given with the entry, so a raise, a list of nodes, or a boolean.
- `int(NETUID)` and `int(axon_port)` at lines 234 and 236 are modelled only for an unset value, which raises (`PostOutcome`). A set value that `int()` rejects (say "abc") is left to the post reply given with the entry, so the model admits replies other than a raise for it. The same holds for an unset or non-numeric NETUID in the fetch at line 61: it is left to the fetch reply.
- Truthiness of a non-boolean value returned by the post: the post answers a boolean.
- The pandas DataFrame: it is a sequence of rows, and the boolean-mask lookup is the first matching row.
- Printing, the traceback and the final summary lines: they have no effect on the state.
- `test_metagraph_retrieval` and the argparse entry point: they are not part of the reconciliation.
- The chain's state: a post does not change a later snapshot, so idempotence across runs is not modelled.
- Python `int` versus `bool` node ids: these are carried as values and never inspected.
