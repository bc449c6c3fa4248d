# Armada core, modelled in Dafny

Armada runs microservices in Docker containers on a cluster of "ships". Consul
is the service directory and the key/value store. This project models five
pieces of that system as pure Dafny functions over immutable data, and proves
properties about them:

- **Service listing** (`List.GET` in the backend API). It lists the live
  instances that Consul's catalog and health endpoints report, and the
  inactive services kept in the key/value store under `service/`. Both kinds
  pass through the same name glob and the same `env` and `app_id` tag
  filters. Modules `ApiList`, `Glob` and `Text`.
- **Consul runtime settings** (`_get_runtime_settings`). The base settings are
  overlaid by the override settings. The agent mode (bootstrap, server or
  client) is decided from `is_commander` and `ships`, and the datacenter is
  either configured or generated as `dc-<n>`. Module `RunConsul`.
- **Running-container snapshot** (`save_running_containers.py`). Once recovery
  is complete (or when forced), the parameters of each local container are
  collected and sorted. They are written through a temporary file and
  published to the key/value store. An all-failed collection never overwrites
  the saved list. Modules `SaveRunningContainers` and `Sorting`.
- **Docker-version compatibility** (`docker_utils/compatibility.py`). The
  installed version is parsed from `docker --version`. The one backend whose
  half-open version range contains it is selected. That backend decides the
  `docker tag` command line and the static-client download. Module
  `Compatibility`.
- **`armada stop`** (`command_stop.py`). The microservice name comes from the
  argument or from `MICROSERVICE_NAME`. More than one match needs `--all`.
  Each match gets a stop request sent to its ship. A failure is remembered and
  the remaining matches are still tried. Module `CommandStop`.

The program's inputs are parameters of the model:
- Consul's answers, the node's files and containers, and the environment.
- The output of `docker --version`.
- The random draw for the datacenter name.
- The replies of the ships.

The exceptions the code raises or catches are modelled as error values of a
`Result` or as failure flags, except those listed under "Left out".
`Wrappers` holds the `Option` and `Result` types.

## Model

| member | source | states |
|---|---|---|
| Text.SplitFirst | armada_backend/api_list.py:17 | `split(':', 1)`. The head never contains the separator. There is no tail exactly when the separator is absent, and then the head is the whole string. Otherwise the string is head, separator, tail. |
| Text.SplitFirstOfJoin | armada_backend/api_list.py:17 | Splitting `head + sep + tail` where the head has no separator gives back exactly that head and tail. |
| Text.FirstField | armada_backend/api_list.py:54 | `split(sep)[0]`. The result holds no separator, and it is either the whole string or a prefix followed by the separator. |
| Text.NatToString | armada_backend/api_list.py:52 | `str(n)` for a natural number. The result is non-empty, all decimal digits, and has no leading zero unless it is `0`. |
| Text.DigitsValueOfNatToString | armada_backend/run_consul.py:35 | Reading back the decimal digits of `str(n)` gives `n`. |
| Text.NatToStringLength | armada_backend/run_consul.py:35 | A number below `10^k` prints in at most `k` digits. This bounds the generated datacenter name. |
| Text.WordsOfWordThenSpace | armada_command/docker_utils/compatibility.py:143 | `str.split()`. A blank-free word followed by a blank splits off as the first word of the rest. |
| Text.WordsOfWord | armada_command/docker_utils/compatibility.py:143 | `str.split()` of one non-empty blank-free word is that word alone. |
| Text.Words | armada_command/docker_utils/compatibility.py:143 | `str.split()` with no separator: every word is non-empty and blank-free. A computation; `WordsOfJoin`, `WordsOfWord` and `WordsOfWordThenSpace` state which words it yields. |
| Text.WordsOfJoin | armada_command/docker_utils/compatibility.py:143 | `str.split()` undoes joining non-empty blank-free words with blanks: the word list comes back unchanged. |
| Glob.Matches | armada_backend/api_list.py:32 | The wildcard match itself: `*` matches any run, `?` any one character, every other character itself. It is a computation; the lemmas below state its meaning. |
| Glob.Filter | armada_backend/api_list.py:32 | `fnmatch.filter`. It keeps exactly the names that match the pattern, each as often as it was given, so distinct names stay distinct. |
| Glob.FilterAppend | armada_backend/api_list.py:32 | Filtering a list piece by piece gives the pieces' results in order, so the kept names keep their order. |
| Glob.LiteralMatchesOnlyItself | armada_backend/api_list.py:32 | A pattern without wildcards matches exactly the name equal to it. |
| Glob.StarMatchesAll | armada_backend/api_list.py:32 | `*` matches every name. |
| Glob.PrefixStarMatchesPrefixed | armada_backend/api_list.py:32 | For a literal prefix, `prefix*` matches exactly the names that start with that prefix. |
| ApiList.TagsToDict | armada_backend/api_list.py:14-17 | The dictionary has one key per distinct tag key. Each value comes from the last tag with that key: the text after the first `:`, or `None` for a bare tag. An empty or `None` tag list gives `{}`. |
| ApiList.TagParts | armada_backend/api_list.py:17 | `key:value` parses to that key and the whole rest, colons included. A bare tag parses to itself and `None`. |
| ApiList.ComputedStatus | armada_backend/api_list.py:45-49 | The status is `critical` iff a check is critical. It is `warning` iff one warns and none is critical, and `passing` iff one passes and none is worse. Otherwise it is `-`. |
| ApiList.ComputedStatusIgnoresOrderAndOthers | armada_backend/api_list.py:45-49 | The status depends only on which of the three known statuses occur: not on order, multiplicity or other status strings. |
| ApiList.ContainerId | armada_backend/api_list.py:54 | The container id is the service id up to its first `:`. It holds no `:`, and it is a prefix of the service id. |
| ApiList.ContainerIdOfJoin | armada_backend/api_list.py:54 | A service id `<cid>:<rest>` gives back `cid`. |
| ApiList.NamePattern | armada_backend/api_list.py:30-34 | The name glob is in force exactly when the filter is given and non-empty. |
| ApiList.CandidateNames | armada_backend/api_list.py:30-34 | The queried names are exactly the catalog names that match the glob, when one is in force. |
| ApiList.Admits | armada_backend/api_list.py:58-62 | The test an instance passes: `env` and `app_id` are absent or equal to the tag's value, and with `local` set the id is one the local agent knows. A computation; `ListHonoursTagFilters` states its effect. |
| ApiList.LiveRecord | armada_backend/api_list.py:45-76 | The record of one live instance: the computed status, `address:port`, the service id, the container id before the first `:`, the tag dictionary and the timestamp or `None`. A computation; `ComputedStatus`, `ContainerId` and `TagsToDict` state its parts. |
| ApiList.LiveForInstances | armada_backend/api_list.py:44-77 | Every record comes from an admitted instance, and every admitted instance has its record. All instances are listed iff all are admitted. |
| ApiList.LiveForInstancesAppend | armada_backend/api_list.py:44-77 | Instances are handled one at a time: two runs of instances list their records one after the other. |
| ApiList.LiveCountIsAdmittedCount | armada_backend/api_list.py:44-77 | Exactly one record per admitted instance: the count of records is the number of positions whose instance is admitted, duplicates included. |
| ApiList.LiveCountIgnoresTimestamps | armada_backend/api_list.py:64-67 | A failing timestamp lookup only blanks `start_timestamp`. It never changes how many records are listed. |
| ApiList.LiveRecords | armada_backend/api_list.py:38-77 | `consul` is skipped. The listing fails iff some other candidate's health query fails. Every admitted instance of every candidate is listed, and every record comes from one. `LiveRecordsCount` gives the exact count. |
| ApiList.LiveRecordsCount | armada_backend/api_list.py:38-77 | Across all candidates other than `consul`, there is exactly one live record per admitted instance: no service is listed twice and none is skipped. |
| ApiList.InactiveTags | armada_backend/api_list.py:108-112 | Inactive tags hold only `env` and `app_id`, each present iff the stored parameter is truthy, with that value. |
| ApiList.InactiveRecord | armada_backend/api_list.py:102-126 | The record of one stored entry: its own `ServiceName` and `Status`, `n/a` address and id, the container id or `n/a`, the inactive tags and the timestamp. A computation; `InactiveTags` states its tags. |
| ApiList.ServiceNames | armada_backend/api_list.py:92 | The distinct second `/`-segments of the `service/` keys, without repetition. It fails iff some key has no second segment. |
| ApiList.InactiveForKeys | armada_backend/api_list.py:100-127 | It fails iff an entry cannot be read, naming a key whose entry is missing. Otherwise there is exactly one record per key whose entry passes the tag filters: every such entry is listed and every record comes from one. |
| ApiList.InactiveRecords | armada_backend/api_list.py:96-127 | It fails iff a name's key listing raises or an entry under a listed name cannot be read. Names whose listing is `None` contribute nothing. Every admitted entry stored under a name is listed, and every record comes from such an entry. `InactiveRecordsCount` gives the exact count. |
| ApiList.InactiveRecordsCount | armada_backend/api_list.py:96-127 | Across all names, there is exactly one inactive record per listed key whose entry passes the tag filters. |
| ApiList.InactiveServices | armada_backend/api_list.py:87-128 | A raising `kv_list("service/")` is the error; `None` or no keys means no records. Otherwise it succeeds iff every key has a second segment and every chosen name's listing and entries can be read, where a chosen name is the second segment of some key that matches the glob in force. Every admitted entry under a chosen name is listed, and every record comes from one, has `n/a` address and id and passes the tag filters. `InactiveServicesCount` gives the exact count. |
| ApiList.InactiveServicesCount | armada_backend/api_list.py:87-128 | Each chosen service is read once, as `set(...)` makes it: the record count is the sum, over a repetition-free list of exactly the chosen names, of their admitted entries. |
| ApiList.List | armada_backend/api_list.py:27-81 | The listing succeeds iff each of its queries does: the local ids, the catalog, the live records and the inactive ones. It is the live records followed by the inactive ones, with no deduplication. |
| ApiList.ListCount | armada_backend/api_list.py:27-81 | The listing holds one record per admitted live instance of each candidate, then one per admitted entry of each chosen service, each service counted once. |
| ApiList.ListHonoursTagFilters | armada_backend/api_list.py:58-62 | Every listed record, live or inactive, passes the `env` and `app_id` filters. |
| ApiList.ListHonoursNamePattern | armada_backend/api_list.py:30-34 | With a glob in force every listed name matches it, provided each stored entry records the name it is filed under. |
| RunConsul.LoadSettings | armada_backend/run_consul.py:10-22 | The key set is the union of both files' keys. The override's value wins, and a missing or unreadable file contributes nothing. |
| RunConsul.ConsulModeFor | armada_backend/run_consul.py:24-30 | The mode fails exactly when `is_commander` is `true` and `ships` is truthy but has no length. |
| RunConsul.ConsulModeMatchesTable | armada_backend/run_consul.py:24-30 | The chain of identity checks agrees with the role table: server for a commander with peers, bootstrap for one without peers, client for a non-commander, bootstrap otherwise. |
| RunConsul.Datacenter | armada_backend/run_consul.py:32-35 | A truthy configured datacenter is used as is. Otherwise the name is `dc-` followed by the decimal draw, 4 to 9 characters long, with no leading zero, and it reads back to the draw, so it is `'dc-' + str(r)`. |
| RunConsul.RuntimeSettings | armada_backend/run_consul.py:10-37 | The result succeeds iff the mode does. It carries the table's mode, the `ships` value and the datacenter. |
| RunConsul.ConfiguredDatacenterIsStable | armada_backend/run_consul.py:32-33 | A configured datacenter does not depend on the random draw. |
| RunConsul.GeneratedDatacenterIsInjective | armada_backend/run_consul.py:34-35 | Distinct draws give distinct generated datacenter names. |
| Sorting.Insert | armada_backend/save_running_containers.py:66 | Inserting into a sorted list keeps it sorted and adds exactly that element. |
| Sorting.Sort | armada_backend/save_running_containers.py:66 | `list.sort()` returns a sorted permutation of its input. |
| Sorting.SortedUnique | armada_backend/save_running_containers.py:66 | Two sorted permutations of the same elements are equal. |
| Sorting.SortIgnoresOrder | armada_backend/save_running_containers.py:66 | Sorting two arrangements of the same elements gives the same list. |
| SaveRunningContainers.IsRecoveryCompleted | armada_backend/save_running_containers.py:36-43 | Recovery is complete iff the marker can be read and holds exactly `1`. |
| SaveRunningContainers.Successes | armada_backend/save_running_containers.py:57-61 | The collected mappings are exactly the truthy fetch results. |
| SaveRunningContainers.ErrorCount | armada_backend/save_running_containers.py:62-63 | The error count is zero iff no fetch raised. |
| SaveRunningContainers.CollectParameters | armada_backend/save_running_containers.py:55-65 | The loop collects exactly the truthy results and counts exactly the raising fetches. |
| SaveRunningContainers.FetchesAreAccountedFor | armada_backend/save_running_containers.py:57-65 | Every container counts as collected, skipped (falsy) or failed. |
| SaveRunningContainers.ErrorCountIsRaisedCount | armada_backend/save_running_containers.py:62-63 | The error count is the number of raising fetches. |
| SaveRunningContainers.SuccessesCount | armada_backend/save_running_containers.py:60-61 | Each mapping is collected as often as it was fetched. |
| SaveRunningContainers.SaveInFile | armada_backend/save_running_containers.py:23-28 | Without a fault, the destination holds the serialized list and the temporary file is gone. A fault before the copy leaves the destination untouched, and a fault after it leaves the temporary file. No other path changes. |
| SaveRunningContainers.Snapshot | armada_backend/save_running_containers.py:46-80 | Without recovery and without force: nothing happens, exit 0. A readiness or listing failure exits 1. The file is written iff something was collected or nothing failed, with the sorted collected list. A skipped write leaves the files alone. Exit 1 iff a step raised. The list is published iff the write succeeded and the store was reachable. |
| SaveRunningContainers.AllFailedLeavesFileAlone | armada_backend/save_running_containers.py:67-69 | When every fetch raises, the saved file is not touched, nothing is published and the exit code is 0. |
| SaveRunningContainers.NoContainersWritesEmptyList | armada_backend/save_running_containers.py:67-69 | With no containers at all, an empty list is written. |
| SaveRunningContainers.SnapshotIgnoresContainerOrder | armada_backend/save_running_containers.py:57-66 | The whole run does not depend on the order in which the containers are listed. |
| Compatibility.LessEqIsNotGreater | armada_command/docker_utils/compatibility.py:75 | The strict-version order is total: `v <= w` iff not `w < v`. |
| Compatibility.LessTransitive | armada_command/docker_utils/compatibility.py:75 | The strict-version order is transitive. |
| Compatibility.DigitRun | armada_command/docker_utils/compatibility.py:17 | The greedy `\d+` takes a run of digits that is not followed by a digit. |
| Compatibility.ParseDockerVersion | armada_command/docker_utils/compatibility.py:15-21 | A successful parse read an output that starts with `Docker version `, and its version has no prerelease. |
| Compatibility.ParseOfMatch | armada_command/docker_utils/compatibility.py:15-21 | When the pattern matches with digit groups `a`, `b`, `c` (the last taken whole), the parsed version is `int(a).int(b).int(c)`. |
| Compatibility.ParseSucceedsIffPatternMatches | armada_command/docker_utils/compatibility.py:17-21 | The parse succeeds iff `^Docker version \d+\.\d+\.\d+` matches the output. |
| Compatibility.VersionString | armada_command/docker_utils/compatibility.py:41-45 | All three numeric components joined by `.`, a zero patch included, then the prerelease letter and number. A computation; `ParseOfPrintedVersion` and `VersionStringInjective` state its meaning. |
| Compatibility.ParseOfPrintedVersion | armada_command/docker_utils/compatibility.py:40-45 | Parsing the banner, the printed release and any non-digit tail gives back that release. |
| Compatibility.VersionStringInjective | armada_command/docker_utils/compatibility.py:40-45 | Distinct release versions print differently. |
| Compatibility.IsSupportedVersion | armada_command/docker_utils/compatibility.py:71-79 | With both bounds: `min <= v < max`. With only a minimum: `min <= v`. Without a minimum: the configuration error. |
| Compatibility.RangeOf | armada_command/docker_utils/compatibility.py:89-120 | The half-open ranges `[1.6.0, 1.10.0)`, `[1.10.0, 1.11.0)` and `[1.11.0, ...)` of V1, V2 and V3. A computation; the lemmas below state how the ranges fit together. |
| Compatibility.BackendsAreConfigured | armada_command/docker_utils/compatibility.py:89-120 | No backend's range check raises. |
| Compatibility.SupportsIffBackendFor | armada_command/docker_utils/compatibility.py:89-120 | A backend supports `v` iff it is the one that comparing `v` with 1.6.0, 1.10.0 and 1.11.0 picks. |
| Compatibility.BackendRangesDisjoint | armada_command/docker_utils/compatibility.py:89-120 | No version is supported by two backends. |
| Compatibility.BackendRangesCover | armada_command/docker_utils/compatibility.py:89-120 | Some backend supports `v` iff `v >= 1.6.0`. |
| Compatibility.SelectBackend | armada_command/docker_utils/compatibility.py:33-35 | The chosen backend supports the version. None is chosen iff no backend does. |
| Compatibility.SelectionIgnoresTableOrder | armada_command/docker_utils/compatibility.py:33 | The order in which the backends are scanned does not change the choice. |
| Compatibility.DockerBackend | armada_command/docker_utils/compatibility.py:31-37 | An unparsable output is the version error. Otherwise the result is the unique supporting backend, or, iff `v < 1.6.0`, the message `Docker version <v> is unsupported.`. |
| Compatibility.BuildTagCommand | armada_command/docker_utils/compatibility.py:107-116 | `docker tag -f SRC DST` for V1, `docker tag SRC DST` for V2 and, inherited, V3. A computation; `TagCommandIsJoined` and `TagCommandArguments` state its meaning. |
| Compatibility.TagCommandIsJoined | armada_command/docker_utils/compatibility.py:107-116 | Each backend's tag command is its argument vector joined by blanks: `-f` is present under V1 and absent under V2 and V3. |
| Compatibility.TagCommandArguments | armada_command/docker_utils/compatibility.py:107-116 | For blank-free image names the split tag command is `docker tag -f <src> <dst>` under V1 and `docker tag <src> <dst>` under V2 and V3. |
| Compatibility.StaticClientDownload | armada_command/docker_utils/compatibility.py:96-105 | Nothing is fetched when the cached client exists. Otherwise the output path is the cached name in the client directory, and the download is an archive iff the backend is V3. |
| Compatibility.DownloadUrlIdentifiesVersion | armada_command/docker_utils/compatibility.py:100-104 | Two release versions never share a download URL. |
| Compatibility.ArchiveUrlExtendsBinaryUrl | armada_command/docker_utils/compatibility.py:122-124 | V3's URL is the V1/V2 URL with `.tgz` appended. |
| CommandStop.ResolveName | armada_command/command_stop.py:27-29 | A non-empty argument is the name. Otherwise the variable is used: missing is the key error, empty is the value error. A resolved name is never empty. |
| CommandStop.RequestFor | armada_command/command_stop.py:48-50 | A request is sent iff the record has both keys. It goes to the record's ship, with a colon-free container id. |
| CommandStop.Requests | armada_command/command_stop.py:43-60 | At most one request per match, and one for every match exactly when every match has both keys. `RequestsAreThoseOfTargets` and `RequestsOfWellFormed` give the requests themselves. |
| CommandStop.RequestsAreThoseOfTargets | armada_command/command_stop.py:43-60 | The requests sent are exactly those of the records with both keys. |
| CommandStop.StopEach | armada_command/command_stop.py:43-60 | The loop sends exactly those requests. Its error flag is set iff some match was not stopped with status `ok`. |
| CommandStop.Stop | armada_command/command_stop.py:26-63 | A name error aborts. More than one match without `--all` is the too-many error, before any request. Otherwise all requests are sent, and the exit code is 1 iff some match failed, else 0. |
| CommandStop.RequestsOfWellFormed | armada_command/command_stop.py:48-50 | With well-formed records, the i-th request goes to the i-th match's ship with its service id up to the first `:`. |
| CommandStop.RequestsIgnoreReplies | armada_command/command_stop.py:58-60 | A failing ship does not stop later matches from being tried: the requests do not depend on the replies. |
| CommandStop.NoMatchesStopsNothing | armada_command/command_stop.py:43-63 | No match means no request and exit code 0. |
| CommandStop.SingleMatchNeedsNoFlag | armada_command/command_stop.py:34-41 | A single match is stopped the same way with or without `--all`. |

## Left out

- Glob.Matches: fnmatch's `[seq]` and `[!seq]` character classes are not modelled; `[` is an ordinary character here. Only `*`, `?` and literals are.
- ApiList.ListHonoursNamePattern: for inactive records the glob is applied to the service name taken from the key's second segment, while the record carries the entry's own `ServiceName`. So the property needs the hypothesis that each entry is filed under its own name.
- ApiList.ComputedStatus: the default status is `-`, as in the code, not a word such as `unknown`.
- Python set iteration order is not modelled. Service names from the catalog and the store, and the set of backend classes, are scanned in a fixed order. The results shown not to depend on that order are `SelectionIgnoresTableOrder` and `ComputedStatusIgnoresOrderAndOthers`.
- Reading the request (`web.input`, `strtobool` of `local`) is not modelled; the model starts from the decoded query.
- `status_ok` and `status_exception` formatting is not modelled; the listing ends in `Ok` or in an error value.
- Malformed Consul answers are not modelled: a health instance or a stored entry missing a key the code indexes without a default. Records are assumed to carry those keys. Exceptions from `get_matched_containers` are left out too.
- JSON floats and non-object settings files are not modelled. Settings are objects, and numbers are integers.
- Copying the live settings file before reading it is not modelled; a failed copy shows up as an unreadable base file.
- SaveRunningContainers.Snapshot: the container parameters are represented by their serialized form, compared in string order. Python 2 compares the dicts themselves, and `json.dump` uses `indent=4, sort_keys=True`. `Serialize` stands in for both.
- SaveRunningContainers.SaveInFile: partial or truncated writes inside a step are not modelled. The code copies the temporary file over the destination with `copyfile`, which is not an atomic replace, so the write is not atomic; the model keeps the code's three steps.
- Compatibility.StaticClientDownload: `mkdir`, `curl`, `tar`, `mv` and `chmod` are not modelled, and neither is a failing archive download, which V3 only prints. The model says what is fetched and where.
- Running `docker --version` (`check_output`) is not modelled: `ParseDockerVersion` receives its output. A missing `docker` binary (`OSError`) or a non-zero exit (`CalledProcessError`) is not represented.
- Running the tag command (`check_call`) is not modelled; only its argument vector is.
- Logging, `print` and `traceback` output are not modelled.
- Argument parsing (`argparse`) and the `__main__` entry points are not modelled.
- `consul_config` and the `os.execv` start of the agent in `run_consul.main` are not part of this model.
- The datacenter draw is a parameter below 1000000 instead of `random.randrange`.
- StrictVersion's own string parsing is not modelled. Backend bounds are written as version values, and the Docker version comes from the three digit runs the pattern matched.
