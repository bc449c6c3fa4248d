/** The runtime-settings resolution done before the Consul agent is started
    (`_get_runtime_settings`): the base settings overlaid by the override
    settings, the agent mode decided from `is_commander` and `ships`, and
    the datacenter name, configured or generated. */
module RunConsul {
  import opened Wrappers
  import opened Text

  /** A JSON value as `json.load` produces it (numbers restricted to
      integers). */
  datatype Json =
    | JNull
    | JBool(b: bool)
    | JNum(n: int)
    | JStr(s: string)
    | JArray(items: seq<Json>)
    | JObject(fields: map<string, Json>)

  /** Python truthiness of a loaded JSON value. */
  predicate Truthy(j: Json) {
    match j
    case JNull => false
    case JBool(b) => b
    case JNum(n) => n != 0
    case JStr(s) => s != ""
    case JArray(items) => |items| > 0
    case JObject(fields) => |fields| > 0
  }

  /** Python's `len(j)`, or `None` where `len` raises `TypeError`. */
  function Len(j: Json): Option<nat> {
    match j
    case JStr(s) => Some(|s|)
    case JArray(items) => Some(|items|)
    case JObject(fields) => Some(|fields|)
    case _ => None
  }

  type Settings = map<string, Json>

  /** The settings read from both files: the base mapping updated by the
      override mapping. A file that is missing, unreadable or not valid JSON
      is `None` and contributes nothing. */
  function LoadSettings(base: Option<Settings>, override: Option<Settings>): (s: Settings)
    ensures s.Keys == base.GetOr(map[]).Keys + override.GetOr(map[]).Keys
    ensures forall k :: k in override.GetOr(map[]) ==> s[k] == override.value[k]
    ensures forall k :: k in base.GetOr(map[]) && k !in override.GetOr(map[]) ==> s[k] == base.value[k]
  {
    base.GetOr(map[]) + override.GetOr(map[])
  }

  /** `settings.get(key, default)`. */
  function Get(s: Settings, key: string, default: Json): Json {
    if key in s then s[key] else default
  }

  datatype ConsulMode = Bootstrap | Server | Client

  datatype SettingsError = ShipsHaveNoLength(ships: Json)

  /** The mode as the code decides it: start from bootstrap; if
      `is_commander is True` and `ships` is non-empty, server; then if
      `is_commander is False`, client. `ships and len(ships) > 0` raises when
      `ships` is truthy but has no length (a number or `true`). */
  function ConsulModeFor(s: Settings): (r: Result<ConsulMode, SettingsError>)
    ensures r.Err? <==> Get(s, "is_commander", JNull) == JBool(true)
                        && Truthy(Get(s, "ships", JArray([]))) && Len(Get(s, "ships", JArray([]))).None?
  {
    var ships := Get(s, "ships", JArray([]));
    var isCommander := Get(s, "is_commander", JNull);
    var afterTrue :-
      if isCommander == JBool(true) then
        if !Truthy(ships) then Ok(Bootstrap)
        else if Len(ships).None? then Err(ShipsHaveNoLength(ships))
        else if Len(ships).value > 0 then Ok(Server)
        else Ok(Bootstrap)
      else Ok(Bootstrap);
    Ok(if isCommander == JBool(false) then Client else afterTrue)
  }

  /** The three readings of `is_commander` that the identity checks tell
      apart: the JSON value `true`, the JSON value `false`, and anything else
      (absent, `null`, `1`, `"true"`, ...). */
  datatype Commander = IsTrue | IsFalse | Unknown

  function CommanderOf(s: Settings): Commander {
    match Get(s, "is_commander", JNull)
    case JBool(b) => if b then IsTrue else IsFalse
    case _ => Unknown
  }

  /** The role of the agent as a decision table: server for a commander
      with peers, bootstrap for a commander without peers, client for a
      non-commander, bootstrap when unknown. */
  function RoleTable(commander: Commander, hasPeers: bool): ConsulMode {
    match commander
    case IsTrue => if hasPeers then Server else Bootstrap
    case IsFalse => Client
    case Unknown => Bootstrap
  }

  /** The code's sequence of identity checks agrees with the decision table,
      where "has peers" is `ships` being truthy (a truthy value with a length
      always has a positive length). */
  lemma ConsulModeMatchesTable(s: Settings)
    requires ConsulModeFor(s).Ok?
    ensures ConsulModeFor(s).value == RoleTable(CommanderOf(s), Truthy(Get(s, "ships", JArray([]))))
  {
    var ships := Get(s, "ships", JArray([]));
    if Truthy(ships) && Len(ships).Some? {
      assert Len(ships).value > 0;
    }
  }

  /** The datacenter: the configured value when truthy, otherwise `dc-`
      followed by the decimal form of `r`, the draw of
      `random.randrange(1000000)`. */
  function Datacenter(s: Settings, r: nat): (dc: Json)
    requires r < 1000000
    ensures Truthy(Get(s, "datacenter", JNull)) ==> dc == Get(s, "datacenter", JNull)
    ensures !Truthy(Get(s, "datacenter", JNull)) ==>
      && dc.JStr?
      && 4 <= |dc.s| <= 9
      && dc.s[..3] == "dc-"
      && AllDigits(dc.s[3..])
      && DigitsValue(dc.s[3..]) == r
      && (dc.s[3] == '0' ==> |dc.s| == 4)
  {
    var configured := Get(s, "datacenter", JNull);
    if Truthy(configured) then configured
    else
      var digits := NatToString(r);
      DigitsValueOfNatToString(r);
      NatToStringLength(r, 6);
      var name := "dc-" + digits;
      assert name[3..] == digits;
      JStr(name)
  }

  /** What the agent is configured with. */
  datatype Resolution = Resolution(mode: ConsulMode, ships: Json, datacenter: Json)

  /** `_get_runtime_settings`, with the two files' parsed contents and the
      random draw passed in. Reading the files never fails; only a truthy
      `ships` without a length makes the resolution raise. */
  function RuntimeSettings(base: Option<Settings>, override: Option<Settings>, r: nat): (res: Result<Resolution, SettingsError>)
    requires r < 1000000
    ensures var s := LoadSettings(base, override);
      && (res.Ok? <==> ConsulModeFor(s).Ok?)
      && (res.Ok? ==> res.value.mode == RoleTable(CommanderOf(s), Truthy(Get(s, "ships", JArray([])))))
      && (res.Ok? ==> res.value.ships == Get(s, "ships", JArray([])))
      && (res.Ok? ==> res.value.datacenter == Datacenter(s, r))
  {
    var s := LoadSettings(base, override);
    var mode :- ConsulModeFor(s);
    ConsulModeMatchesTable(s);
    Ok(Resolution(mode, Get(s, "ships", JArray([])), Datacenter(s, r)))
  }

  /** With an explicit datacenter, the random draw makes no difference. */
  lemma ConfiguredDatacenterIsStable(s: Settings, r1: nat, r2: nat)
    requires r1 < 1000000 && r2 < 1000000
    requires Truthy(Get(s, "datacenter", JNull))
    ensures Datacenter(s, r1) == Datacenter(s, r2)
  {
  }

  /** Without one, distinct draws give distinct datacenter names. */
  lemma GeneratedDatacenterIsInjective(s: Settings, r1: nat, r2: nat)
    requires r1 < 1000000 && r2 < 1000000
    requires !Truthy(Get(s, "datacenter", JNull))
    requires Datacenter(s, r1) == Datacenter(s, r2)
    ensures r1 == r2
  {
  }
}
