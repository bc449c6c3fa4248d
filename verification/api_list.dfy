/** The service directory listing (`List.GET` in the backend API): the live
    instances that Consul's catalog and health endpoints report, followed by
    the inactive services stored in the key/value store under `service/`,
    both narrowed by the same name, `env` and `app_id` filters. */
module ApiList {
  import opened Wrappers
  import opened Text
  import Glob

  // ------------------------------------------------------------------ tags

  /** A parsed tag list: `key:value` gives `key -> Some(value)`, a bare tag
      gives `key -> None`. */
  type Tags = map<string, Option<string>>

  function TagKey(tag: string): string {
    SplitFirst(tag, ':').head
  }

  function TagValue(tag: string): Option<string> {
    SplitFirst(tag, ':').tail
  }

  /** `i` is the last position in `tags` of a tag whose key is `k`. */
  ghost predicate LastTagWithKey(tags: seq<string>, k: string, i: int) {
    && 0 <= i < |tags|
    && TagKey(tags[i]) == k
    && forall j :: i < j < |tags| ==> TagKey(tags[j]) != k
  }

  /** The dictionary built from a tag list: one entry per distinct key, whose
      value comes from the LAST tag carrying that key. */
  function TagsToDict(tags: seq<string>): (d: Tags)
    ensures forall k :: k in d <==> exists i :: 0 <= i < |tags| && TagKey(tags[i]) == k
    ensures forall k :: k in d ==> exists i :: LastTagWithKey(tags, k, i) && d[k] == TagValue(tags[i])
  {
    if |tags| == 0 then map[]
    else
      var front := tags[..|tags| - 1];
      var last := tags[|tags| - 1];
      var prev := TagsToDict(front);
      var d := prev[TagKey(last) := TagValue(last)];
      assert tags == front + [last];
      forall k ensures k in d <==> exists i :: 0 <= i < |tags| && TagKey(tags[i]) == k {
        TagsToDictKey(front, last, prev, k);
      }
      forall k | k in d ensures exists i :: LastTagWithKey(tags, k, i) && d[k] == TagValue(tags[i]) {
        TagsToDictValue(front, last, prev, k);
      }
      d
  }

  /** One key, after adding a last tag to the dictionary of the others. */
  lemma TagsToDictKey(front: seq<string>, last: string, prev: Tags, k: string)
    requires k in prev <==> exists i :: 0 <= i < |front| && TagKey(front[i]) == k
    ensures var tags := front + [last];
      k in prev[TagKey(last) := TagValue(last)] <==> exists i :: 0 <= i < |tags| && TagKey(tags[i]) == k
  {
    var tags := front + [last];
    if exists i :: 0 <= i < |tags| && TagKey(tags[i]) == k {
      var i :| 0 <= i < |tags| && TagKey(tags[i]) == k;
      if i < |front| {
        assert TagKey(front[i]) == k;
      }
    }
    if k in prev {
      var i :| 0 <= i < |front| && TagKey(front[i]) == k;
      assert TagKey(tags[i]) == k;
    }
    if k == TagKey(last) {
      assert TagKey(tags[|front|]) == k;
    }
  }

  /** One value, after adding a last tag to the dictionary of the others. */
  lemma TagsToDictValue(front: seq<string>, last: string, prev: Tags, k: string)
    requires k in prev ==> exists i :: LastTagWithKey(front, k, i) && prev[k] == TagValue(front[i])
    requires k in prev[TagKey(last) := TagValue(last)]
    ensures var tags := front + [last];
      exists i :: LastTagWithKey(tags, k, i) && prev[TagKey(last) := TagValue(last)][k] == TagValue(tags[i])
  {
    var tags := front + [last];
    if k == TagKey(last) {
      assert LastTagWithKey(tags, k, |front|);
    } else {
      var i :| LastTagWithKey(front, k, i) && prev[k] == TagValue(front[i]);
      assert tags[i] == front[i];
      assert LastTagWithKey(tags, k, i);
    }
  }

  /** A `key:value` tag whose key has no colon parses to that key and the
      whole rest, colons included (`path:/a:b` gives `path -> /a:b`); a
      bare tag parses to its text and no value. */
  lemma TagParts(key: string, value: string)
    requires ':' !in key
    ensures TagKey(key + ":" + value) == key
    ensures TagValue(key + ":" + value) == Some(value)
    ensures TagKey(key) == key && TagValue(key) == None
  {
    SplitFirstOfJoin(key, ':', value);
  }

  // ---------------------------------------------------------------- status

  /** The status computed from the statuses of an instance's checks. The
      code scans `passing`, `warning`, `critical` in that order and keeps the
      last one present, which makes the worst status present win; any other
      status string is ignored and the default is `-`. */
  function ComputedStatus(statuses: seq<string>): (r: string)
    ensures r == "critical" <==> "critical" in statuses
    ensures r == "warning" <==> "warning" in statuses && "critical" !in statuses
    ensures r == "passing" <==> "passing" in statuses && "warning" !in statuses && "critical" !in statuses
    ensures r == "-" <==> "passing" !in statuses && "warning" !in statuses && "critical" !in statuses
  {
    var present := set s | s in statuses;
    var afterPassing := if "passing" in present then "passing" else "-";
    var afterWarning := if "warning" in present then "warning" else afterPassing;
    if "critical" in present then "critical" else afterWarning
  }

  /** The computed status depends only on which of the three known statuses
      occur: not on the order of the checks, their multiplicity, or any other
      status string among them. */
  lemma ComputedStatusIgnoresOrderAndOthers(a: seq<string>, b: seq<string>)
    requires "passing" in a <==> "passing" in b
    requires "warning" in a <==> "warning" in b
    requires "critical" in a <==> "critical" in b
    ensures ComputedStatus(a) == ComputedStatus(b)
  {
  }

  // ------------------------------------------------------------- instances

  /** The container id embedded in a Consul service id: its text before the
      first `:`. */
  function ContainerId(serviceId: string): (cid: string)
    ensures ':' !in cid
    ensures cid == serviceId || cid + ":" <= serviceId
  {
    FirstField(serviceId, ':')
  }

  /** A service id built as `<container id>:<rest>` yields that container
      id back. */
  lemma ContainerIdOfJoin(cid: string, rest: string)
    requires ':' !in cid
    ensures ContainerId(cid + ":" + rest) == cid
  {
    SplitFirstOfJoin(cid, ':', rest);
  }

  /** One element of Consul's `health/service/<name>` answer. `tags` and
      `checks` are `None` where the answer holds `null`; `checks` lists the
      checks' statuses. */
  datatype HealthInstance = HealthInstance(
    nodeAddress: string,
    port: nat,
    serviceId: string,
    tags: Option<seq<string>>,
    checks: Option<seq<string>>)

  /** A value stored in the key/value store under `service/<name>/<key>`:
      the fields the listing reads. `containerId` is `None` when the key is
      missing; `microserviceEnv`/`microserviceAppId` are the entry's
      `params` values (`None` for `null`). */
  datatype InactiveEntry = InactiveEntry(
    serviceName: string,
    status: string,
    containerId: Option<string>,
    startTimestamp: Option<string>,
    microserviceEnv: Option<string>,
    microserviceAppId: Option<string>)

  /** One element of the listing. */
  datatype ServiceRecord = ServiceRecord(
    name: string,
    status: string,
    address: string,
    microserviceId: string,
    containerId: string,
    tags: Tags,
    startTimestamp: Option<string>)

  /** What `kv_list` gave for a prefix: an exception, `None` (nothing
      stored under it), or the keys found. */
  datatype KvListing = ListRaised | NoListing | Listed(keys: seq<string>)

  /** The answers of Consul, as the listing would receive them. A missing
      answer (`None`, or a key absent from a map) is a query that raised,
      except for `startTimestamps`, where an absent container id is a
      timestamp lookup that raised and so a missing timestamp. */
  datatype Consul = Consul(
    catalog: Option<seq<string>>,              // keys of `catalog/services`, in iteration order
    health: map<string, seq<HealthInstance>>,  // `health/service/<name>`
    agentServices: Option<set<string>>,        // keys of `agent/services`
    startTimestamps: map<string, string>,      // value under `start_timestamp/<container id>`
    serviceKeys: KvListing,                    // `kv_list("service/")`
    instanceKeys: map<string, KvListing>,      // `kv_list("service/<name>/")`
    entries: map<string, InactiveEntry>)       // `kv_get(<key>)`

  /** The answer of `kv_list("service/<name>/")`. */
  function InstanceListing(c: Consul, name: string): KvListing {
    if name in c.instanceKeys then c.instanceKeys[name] else ListRaised
  }

  datatype ListError =
    | QueryFailed(query: string)
    | BadServiceKey(key: string)
    | MissingEntry(key: string)

  // --------------------------------------------------------------- filters

  /** The request's filters. `name` is a glob; the listing applies it only
      when it is a non-empty string, while `env` and `app_id` are in force
      whenever they are given, even when empty. */
  datatype Query = Query(local: bool, name: Option<string>, env: Option<string>, appId: Option<string>)

  function NamePattern(q: Query): (p: Option<string>)
    ensures p.Some? <==> q.name.Some? && q.name.value != ""
    ensures p.Some? ==> p == q.name
  {
    if q.name.Some? && q.name.value != "" then q.name else None
  }

  /** An `env`/`app_id` filter: absent, or equal to the tag's value. A tag
      that is missing or bare never equals a given filter. */
  predicate TagFilter(filter: Option<string>, tags: Tags, key: string) {
    filter.None? || (key in tags && tags[key] == Some(filter.value))
  }

  function InstanceTags(inst: HealthInstance): Tags {
    TagsToDict(inst.tags.GetOr([]))
  }

  /** The test a live instance passes to be listed. */
  predicate Admits(q: Query, localIds: set<string>, inst: HealthInstance) {
    && TagFilter(q.env, InstanceTags(inst), "env")
    && TagFilter(q.appId, InstanceTags(inst), "app_id")
    && (!q.local || inst.serviceId in localIds)
  }

  /** The catalog names whose instances are queried. */
  function CandidateNames(catalog: seq<string>, q: Query): (names: seq<string>)
    ensures forall n :: n in names <==>
      n in catalog && (NamePattern(q).Some? ==> Glob.Matches(NamePattern(q).value, n))
  {
    if NamePattern(q).Some? then Glob.Filter(catalog, NamePattern(q).value) else catalog
  }

  // ---------------------------------------------------------- live records

  function StartTimestamp(timestamps: map<string, string>, cid: string): Option<string> {
    if cid in timestamps then Some(timestamps[cid]) else None
  }

  /** The record listed for a live instance of service `name`. */
  function LiveRecord(name: string, inst: HealthInstance, timestamps: map<string, string>): ServiceRecord {
    var cid := ContainerId(inst.serviceId);
    ServiceRecord(
      name,
      ComputedStatus(inst.checks.GetOr([])),
      inst.nodeAddress + ":" + NatToString(inst.port),
      inst.serviceId,
      cid,
      InstanceTags(inst),
      StartTimestamp(timestamps, cid))
  }

  /** The positions of `s` whose element satisfies `keep`. */
  ghost function Positions<T>(s: seq<T>, keep: T -> bool): set<int> {
    set i | 0 <= i < |s| && keep(s[i])
  }

  lemma PositionsSnoc<T>(front: seq<T>, last: T, keep: T -> bool)
    ensures |Positions(front + [last], keep)| == |Positions(front, keep)| + (if keep(last) then 1 else 0)
  {
    var s := front + [last];
    var before, after := Positions(front, keep), Positions(s, keep);
    var added: set<int> := if keep(last) then {|front|} else {};
    forall i ensures i in after <==> i in before || i in added {
      if 0 <= i < |front| {
        assert s[i] == front[i];
      }
    }
    assert after == before + added;
    assert before * added == {};
  }

  /** The test of `Admits` as a function value. */
  function AdmitsTest(q: Query, localIds: set<string>): HealthInstance -> bool {
    inst => Admits(q, localIds, inst)
  }

  /** The records listed for the instances of one service: one for each
      admitted instance, in order; an instance is never dropped for any
      other reason and never listed twice. */
  function LiveForInstances(
    name: string, instances: seq<HealthInstance>, q: Query, localIds: set<string>, timestamps: map<string, string>
  ): (r: seq<ServiceRecord>)
    ensures |r| <= |instances|
    ensures |r| == |instances| <==> forall inst :: inst in instances ==> Admits(q, localIds, inst)
    ensures forall rec :: rec in r ==>
      exists inst :: inst in instances && Admits(q, localIds, inst) && rec == LiveRecord(name, inst, timestamps)
    ensures forall inst :: inst in instances && Admits(q, localIds, inst) ==> LiveRecord(name, inst, timestamps) in r
  {
    if |instances| == 0 then []
    else
      var first := instances[0];
      var rest := LiveForInstances(name, instances[1..], q, localIds, timestamps);
      assert forall inst :: inst in instances <==> inst == first || inst in instances[1..];
      if Admits(q, localIds, first) then
        var r := [LiveRecord(name, first, timestamps)] + rest;
        assert forall rec :: rec in r <==> rec == LiveRecord(name, first, timestamps) || rec in rest;
        r
      else rest
  }

  /** The instances are handled one at a time: listing two runs of
      instances one after the other lists their records one after the
      other. */
  lemma {:induction false} LiveForInstancesAppend(
    name: string, a: seq<HealthInstance>, b: seq<HealthInstance>, q: Query, localIds: set<string>, timestamps: map<string, string>)
    ensures LiveForInstances(name, a + b, q, localIds, timestamps)
         == LiveForInstances(name, a, q, localIds, timestamps) + LiveForInstances(name, b, q, localIds, timestamps)
  {
    if |a| == 0 {
      assert a + b == b;
    } else {
      assert (a + b)[0] == a[0];
      assert (a + b)[1..] == a[1..] + b;
      LiveForInstancesAppend(name, a[1..], b, q, localIds, timestamps);
    }
  }

  lemma LiveCountOfOne(name: string, inst: HealthInstance, q: Query, localIds: set<string>, timestamps: map<string, string>)
    ensures |LiveForInstances(name, [inst], q, localIds, timestamps)| == if Admits(q, localIds, inst) then 1 else 0
  {
    assert [inst][1..] == [];
  }

  /** Exactly one record is listed per admitted instance. */
  lemma {:induction false} LiveCountIsAdmittedCount(
    name: string, instances: seq<HealthInstance>, q: Query, localIds: set<string>, timestamps: map<string, string>)
    ensures |LiveForInstances(name, instances, q, localIds, timestamps)| == |Positions(instances, AdmitsTest(q, localIds))|
  {
    if |instances| > 0 {
      var front := instances[..|instances| - 1];
      var last := instances[|instances| - 1];
      assert instances == front + [last];
      LiveCountIsAdmittedCount(name, front, q, localIds, timestamps);
      LiveForInstancesAppend(name, front, [last], q, localIds, timestamps);
      LiveCountOfOne(name, last, q, localIds, timestamps);
      PositionsSnoc(front, last, AdmitsTest(q, localIds));
    }
  }

  /** The timestamp lookups decide only the `startTimestamp` field: how many
      records are listed does not depend on them. */
  lemma {:induction false} LiveCountIgnoresTimestamps(
    name: string, instances: seq<HealthInstance>, q: Query, localIds: set<string>,
    timestamps: map<string, string>, others: map<string, string>)
    ensures |LiveForInstances(name, instances, q, localIds, timestamps)|
         == |LiveForInstances(name, instances, q, localIds, others)|
  {
    LiveCountIsAdmittedCount(name, instances, q, localIds, timestamps);
    LiveCountIsAdmittedCount(name, instances, q, localIds, others);
  }

  /** The live records for the candidate names, in catalog order; the
      service `consul` is skipped; a health query that raises aborts. */
  function LiveRecords(names: seq<string>, c: Consul, q: Query, localIds: set<string>): (r: Result<seq<ServiceRecord>, ListError>)
    ensures r.Ok? <==> forall n :: n in names && n != "consul" ==> n in c.health
    ensures r.Ok? ==> forall rec :: rec in r.value ==>
      && rec.name in names && rec.name != "consul" && rec.name in c.health
      && exists inst :: inst in c.health[rec.name] && Admits(q, localIds, inst)
                     && rec == LiveRecord(rec.name, inst, c.startTimestamps)
    ensures r.Ok? ==> forall n, inst ::
      n in names && n != "consul" && n in c.health && inst in c.health[n] && Admits(q, localIds, inst)
      ==> LiveRecord(n, inst, c.startTimestamps) in r.value
  {
    if |names| == 0 then Ok([])
    else
      assert forall n :: n in names <==> n == names[0] || n in names[1..];
      if names[0] == "consul" then LiveRecords(names[1..], c, q, localIds)
      else if names[0] !in c.health then Err(QueryFailed("health/service/" + names[0]))
      else
        var rest :- LiveRecords(names[1..], c, q, localIds);
        Ok(LiveForInstances(names[0], c.health[names[0]], q, localIds, c.startTimestamps) + rest)
  }

  /** How many live records the names call for: for each name other than
      `consul` that has a health listing, the number of its admitted
      instances. */
  ghost function AdmittedCount(names: seq<string>, c: Consul, q: Query, localIds: set<string>): nat {
    if |names| == 0 then 0
    else
      var here := if names[0] != "consul" && names[0] in c.health
        then |Positions(c.health[names[0]], AdmitsTest(q, localIds))|
        else 0;
      here + AdmittedCount(names[1..], c, q, localIds)
  }

  /** Across all names, exactly one live record is listed per admitted
      instance: no service is listed twice and none is left out. */
  lemma {:induction false} LiveRecordsCount(names: seq<string>, c: Consul, q: Query, localIds: set<string>)
    ensures LiveRecords(names, c, q, localIds).Ok? ==>
      |LiveRecords(names, c, q, localIds).value| == AdmittedCount(names, c, q, localIds)
  {
    if |names| > 0 {
      LiveRecordsCount(names[1..], c, q, localIds);
      if names[0] != "consul" && names[0] in c.health {
        LiveCountIsAdmittedCount(names[0], c.health[names[0]], q, localIds, c.startTimestamps);
      }
    }
  }

  // ------------------------------------------------------ inactive records

  predicate TruthyParam(s: Option<string>) {
    s.Some? && s.value != ""
  }

  /** The tags of an inactive record: only `env` and `app_id`, each present
      when the stored parameter is truthy. */
  function InactiveTags(e: InactiveEntry): (t: Tags)
    ensures forall k :: k in t ==> k == "env" || k == "app_id"
    ensures "env" in t <==> TruthyParam(e.microserviceEnv)
    ensures "app_id" in t <==> TruthyParam(e.microserviceAppId)
    ensures "env" in t ==> t["env"] == e.microserviceEnv
    ensures "app_id" in t ==> t["app_id"] == e.microserviceAppId
  {
    var withEnv: Tags := if TruthyParam(e.microserviceEnv) then map["env" := e.microserviceEnv] else map[];
    if TruthyParam(e.microserviceAppId) then withEnv["app_id" := e.microserviceAppId] else withEnv
  }

  function InactiveRecord(e: InactiveEntry): ServiceRecord {
    ServiceRecord(e.serviceName, e.status, "n/a", "n/a", e.containerId.GetOr("n/a"), InactiveTags(e), e.startTimestamp)
  }

  predicate InactiveAdmits(q: Query, e: InactiveEntry) {
    TagFilter(q.env, InactiveTags(e), "env") && TagFilter(q.appId, InactiveTags(e), "app_id")
  }

  /** The service name a `service/` key is filed under: its second
      `/`-separated segment, or `None` when the key has no `/`. */
  function ServiceNameOfKey(key: string): Option<string> {
    var s := SplitFirst(key, '/');
    if s.tail.None? then None else Some(FirstField(s.tail.value, '/'))
  }

  /** The set of service names under `service/`, in order of first
      occurrence; a key without a second segment aborts. */
  function ServiceNames(keys: seq<string>): (r: Result<seq<string>, ListError>)
    ensures r.Ok? <==> forall k :: k in keys ==> ServiceNameOfKey(k).Some?
    ensures r.Ok? ==> forall n :: n in r.value <==> exists k :: k in keys && ServiceNameOfKey(k) == Some(n)
    ensures r.Ok? ==> forall i, j :: 0 <= i < j < |r.value| ==> r.value[i] != r.value[j]
  {
    if |keys| == 0 then Ok([])
    else
      var front := keys[..|keys| - 1];
      var last := keys[|keys| - 1];
      assert forall k :: k in keys <==> k in front || k == last;
      var names :- ServiceNames(front);
      match ServiceNameOfKey(last)
      case None => Err(BadServiceKey(last))
      case Some(n) => if n in names then Ok(names) else Ok(names + [n])
  }

  /** `key` is listed by `kv_list("service/<name>/")`. */
  ghost predicate StoredUnder(c: Consul, name: string, key: string) {
    InstanceListing(c, name).Listed? && key in InstanceListing(c, name).keys
  }

  /** The test an inactive entry's key passes to be listed, as a function
      value: its entry is readable and passes the tag filters. */
  function EntryTest(c: Consul, q: Query): string -> bool {
    k => k in c.entries && InactiveAdmits(q, c.entries[k])
  }

  /** The inactive records for the entries under the given keys, one for
      each entry that passes the tag filters, in key order; the first entry
      that cannot be read aborts. */
  function InactiveForKeys(keys: seq<string>, c: Consul, q: Query): (r: Result<seq<ServiceRecord>, ListError>)
    ensures r.Ok? <==> forall k :: k in keys ==> k in c.entries
    ensures r.Err? ==> exists i :: 0 <= i < |keys| && keys[i] !in c.entries && r.error == MissingEntry(keys[i])
    ensures r.Ok? ==> |r.value| == |Positions(keys, EntryTest(c, q))|
    ensures r.Ok? ==> forall rec :: rec in r.value ==>
      exists k :: k in keys && k in c.entries && InactiveAdmits(q, c.entries[k]) && rec == InactiveRecord(c.entries[k])
    ensures r.Ok? ==> forall k :: k in keys && InactiveAdmits(q, c.entries[k]) ==> InactiveRecord(c.entries[k]) in r.value
  {
    if |keys| == 0 then Ok([])
    else
      var front := keys[..|keys| - 1];
      var last := keys[|keys| - 1];
      assert keys == front + [last];
      assert forall k :: k in keys <==> k in front || k == last;
      var prev :- InactiveForKeys(front, c, q);
      if last !in c.entries then Err(MissingEntry(last))
      else
        PositionsSnoc(front, last, EntryTest(c, q));
        var e := c.entries[last];
        Ok(if InactiveAdmits(q, e) then prev + [InactiveRecord(e)] else prev)
  }

  /** The inactive records of the given service names, name by name; a name
      whose key listing is `None` contributes nothing, and a listing that
      raises aborts. */
  function InactiveRecords(names: seq<string>, c: Consul, q: Query): (r: Result<seq<ServiceRecord>, ListError>)
    ensures r.Ok? <==>
      && (forall n :: n in names ==> !InstanceListing(c, n).ListRaised?)
      && (forall n, k :: n in names && StoredUnder(c, n, k) ==> k in c.entries)
    ensures r.Ok? ==> forall rec :: rec in r.value ==>
      exists n, k :: n in names && StoredUnder(c, n, k) && k in c.entries
                  && InactiveAdmits(q, c.entries[k]) && rec == InactiveRecord(c.entries[k])
    ensures r.Ok? ==> forall n, k ::
      (n in names && StoredUnder(c, n, k) && InactiveAdmits(q, c.entries[k]) ==> InactiveRecord(c.entries[k]) in r.value)
  {
    if |names| == 0 then Ok([])
    else
      var n0 := names[0];
      assert forall n :: n in names <==> n == n0 || n in names[1..];
      var here := match InstanceListing(c, n0)
        case ListRaised => Err(QueryFailed("service/" + n0 + "/"))
        case NoListing => Ok([])
        case Listed(keys) => InactiveForKeys(keys, c, q);
      var rest := InactiveRecords(names[1..], c, q);
      if here.Err? then
        assert InstanceListing(c, n0).ListRaised? || exists k :: StoredUnder(c, n0, k) && k !in c.entries;
        Err(here.error)
      else if rest.Err? then rest
      else
        assert forall rec :: rec in here.value ==>
          exists k :: StoredUnder(c, n0, k) && k in c.entries
                   && InactiveAdmits(q, c.entries[k]) && rec == InactiveRecord(c.entries[k]);
        Ok(here.value + rest.value)
  }

  /** How many inactive records the names call for: for each name whose key
      listing returned keys, the number of those keys whose entry passes the
      tag filters. */
  ghost function AdmittedEntryCount(names: seq<string>, c: Consul, q: Query): nat {
    if |names| == 0 then 0
    else
      var listing := InstanceListing(c, names[0]);
      var here := if listing.Listed? then |Positions(listing.keys, EntryTest(c, q))| else 0;
      here + AdmittedEntryCount(names[1..], c, q)
  }

  /** Across all names, exactly one inactive record is listed per stored
      entry that passes the filters. */
  lemma {:induction false} InactiveRecordsCount(names: seq<string>, c: Consul, q: Query)
    ensures InactiveRecords(names, c, q).Ok? ==>
      |InactiveRecords(names, c, q).value| == AdmittedEntryCount(names, c, q)
  {
    if |names| > 0 {
      InactiveRecordsCount(names[1..], c, q);
    }
  }

  ghost predicate Distinct<T>(s: seq<T>) {
    forall i, j :: 0 <= i < j < |s| ==> s[i] != s[j]
  }

  /** A service name whose entries the inactive listing reads: the second
      segment of some `service/` key, matching the name glob when one is in
      force. */
  ghost predicate ChosenName(c: Consul, q: Query, n: string) {
    && c.serviceKeys.Listed?
    && (exists key :: key in c.serviceKeys.keys && ServiceNameOfKey(key) == Some(n))
    && (NamePattern(q).Some? ==> Glob.Matches(NamePattern(q).value, n))
  }

  /** `_get_inactive_services_list`: the records kept under `service/`,
      their names narrowed by the same glob as the live ones. A raising
      `kv_list` aborts, and so do a key without a second segment and an
      entry that cannot be read. */
  function InactiveServices(c: Consul, q: Query): (r: Result<seq<ServiceRecord>, ListError>)
    ensures c.serviceKeys.ListRaised? ==> r == Err(QueryFailed("service/"))
    ensures c.serviceKeys.NoListing? || c.serviceKeys == Listed([]) ==> r == Ok([])
    ensures c.serviceKeys.Listed? && |c.serviceKeys.keys| > 0 ==>
      (r.Ok? <==>
        && (forall key :: key in c.serviceKeys.keys ==> ServiceNameOfKey(key).Some?)
        && (forall n :: ChosenName(c, q, n) ==> !InstanceListing(c, n).ListRaised?)
        && (forall n, k :: ChosenName(c, q, n) && StoredUnder(c, n, k) ==> k in c.entries))
    ensures r.Ok? ==> forall rec :: rec in r.value ==>
      && rec.address == "n/a" && rec.microserviceId == "n/a"
      && TagFilter(q.env, rec.tags, "env") && TagFilter(q.appId, rec.tags, "app_id")
      && exists n, k :: ChosenName(c, q, n) && StoredUnder(c, n, k) && k in c.entries && rec == InactiveRecord(c.entries[k])
    ensures r.Ok? ==> forall n, k ::
      ChosenName(c, q, n) && StoredUnder(c, n, k) && k in c.entries && InactiveAdmits(q, c.entries[k])
      ==> InactiveRecord(c.entries[k]) in r.value
  {
    match c.serviceKeys
    case ListRaised => Err(QueryFailed("service/"))
    case NoListing => Ok([])
    case Listed(keys) =>
      if |keys| == 0 then Ok([])
      else
        var names :- ServiceNames(keys);
        var chosen := if NamePattern(q).Some? then Glob.Filter(names, NamePattern(q).value) else names;
        assert forall n :: n in chosen <==> ChosenName(c, q, n);
        InactiveRecords(chosen, c, q)
  }

  /** Each chosen service is read once, as the `set()` of names makes it:
      the inactive records number, summed over the chosen names each taken
      once, the entries that pass the tag filters. */
  lemma InactiveServicesCount(c: Consul, q: Query)
    ensures InactiveServices(c, q).Ok? ==> exists chosen: seq<string> ::
      && Distinct(chosen)
      && (forall n :: n in chosen <==> ChosenName(c, q, n))
      && |InactiveServices(c, q).value| == AdmittedEntryCount(chosen, c, q)
  {
    if InactiveServices(c, q).Ok? {
      match c.serviceKeys
      case ListRaised =>
      case NoListing =>
        assert AdmittedEntryCount([], c, q) == 0;
      case Listed(keys) =>
        if |keys| == 0 {
          assert AdmittedEntryCount([], c, q) == 0;
        } else {
          var names := ServiceNames(keys).value;
          var chosen := if NamePattern(q).Some? then Glob.Filter(names, NamePattern(q).value) else names;
          assert forall n :: n in chosen <==> ChosenName(c, q, n);
          InactiveRecordsCount(chosen, c, q);
          assert Distinct(chosen);
        }
    }
  }

  // --------------------------------------------------------------- listing

  function LocalIds(c: Consul, q: Query): Result<set<string>, ListError> {
    if !q.local then Ok({})
    else if c.agentServices.Some? then Ok(c.agentServices.value)
    else Err(QueryFailed("agent/services"))
  }

  function Catalog(c: Consul): Result<seq<string>, ListError> {
    if c.catalog.Some? then Ok(c.catalog.value) else Err(QueryFailed("catalog/services"))
  }

  /** The listing: the live records followed by the inactive ones, without
      deduplication; any failing query aborts the whole listing. */
  function List(c: Consul, q: Query): (r: Result<seq<ServiceRecord>, ListError>)
    ensures r.Ok? <==>
      && LocalIds(c, q).Ok? && Catalog(c).Ok?
      && LiveRecords(CandidateNames(Catalog(c).value, q), c, q, LocalIds(c, q).value).Ok?
      && InactiveServices(c, q).Ok?
    ensures r.Ok? ==>
      var live := LiveRecords(CandidateNames(Catalog(c).value, q), c, q, LocalIds(c, q).value).value;
      && |r.value| == |live| + |InactiveServices(c, q).value|
      && r.value[..|live|] == live
      && r.value[|live|..] == InactiveServices(c, q).value
  {
    var localIds :- LocalIds(c, q);
    var catalog :- Catalog(c);
    var live :- LiveRecords(CandidateNames(catalog, q), c, q, localIds);
    var inactive :- InactiveServices(c, q);
    assert (live + inactive)[..|live|] == live;
    assert (live + inactive)[|live|..] == inactive;
    Ok(live + inactive)
  }

  /** The listing holds one record per admitted live instance of each
      candidate service, then one per admitted inactive entry of each chosen
      service, each service taken once. */
  lemma ListCount(c: Consul, q: Query)
    ensures List(c, q).Ok? ==> exists chosen: seq<string> ::
      && Distinct(chosen)
      && (forall n :: n in chosen <==> ChosenName(c, q, n))
      && |List(c, q).value|
         == AdmittedCount(CandidateNames(Catalog(c).value, q), c, q, LocalIds(c, q).value) + AdmittedEntryCount(chosen, c, q)
  {
    if List(c, q).Ok? {
      LiveRecordsCount(CandidateNames(Catalog(c).value, q), c, q, LocalIds(c, q).value);
      InactiveServicesCount(c, q);
      var chosen: seq<string> :| && Distinct(chosen)
        && (forall n :: n in chosen <==> ChosenName(c, q, n))
        && |InactiveServices(c, q).value| == AdmittedEntryCount(chosen, c, q);
    }
  }

  /** Every listed record, live or inactive, passes the `env` and `app_id`
      filters; so a given filter excludes records without that tag. */
  lemma ListHonoursTagFilters(c: Consul, q: Query)
    ensures List(c, q).Ok? ==> forall rec :: rec in List(c, q).value ==>
      TagFilter(q.env, rec.tags, "env") && TagFilter(q.appId, rec.tags, "app_id")
  {
  }

  /** Each inactive entry is filed under the name it records. */
  ghost predicate ConsistentStore(c: Consul) {
    forall n, k :: StoredUnder(c, n, k) && k in c.entries ==> c.entries[k].serviceName == n
  }

  /** With a name glob in force, every listed record's name matches it: for
      live records always, for inactive ones when each entry is filed under
      its own name (the glob is applied to the key, not to the entry). */
  lemma ListHonoursNamePattern(c: Consul, q: Query)
    requires ConsistentStore(c)
    requires NamePattern(q).Some?
    ensures List(c, q).Ok? ==> forall rec :: rec in List(c, q).value ==> Glob.Matches(NamePattern(q).value, rec.name)
  {
  }
}
