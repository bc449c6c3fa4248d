/** The `stop` command (`command_stop.py`): the microservice name comes from
    the argument or the environment, the matching containers are looked up,
    more than one match needs `--all`, and every match is sent a stop request
    for its ship; a failure is remembered and the remaining matches are still
    stopped, and the exit code says whether anything failed. */
module CommandStop {
  import opened Wrappers
  import ApiList

  const NameVariable: string := "MICROSERVICE_NAME"

  datatype StopError =
    | NoNameVariable          // `KeyError`: no argument and no environment variable
    | NoNameSupplied          // `ValueError`: the name is empty
    | TooManyMatches(count: nat)

  /** The microservice name: a non-empty argument, otherwise the environment
      variable, which must be present and non-empty. */
  function ResolveName(arg: Option<string>, env: map<string, string>): (r: Result<string, StopError>)
    ensures r.Ok? ==> r.value != ""
    ensures arg.Some? && arg.value != "" ==> r == Ok(arg.value)
    ensures r == Err(NoNameVariable) <==> (arg.None? || arg.value == "") && NameVariable !in env
    ensures r == Err(NoNameSupplied) <==> (arg.None? || arg.value == "") && NameVariable in env && env[NameVariable] == ""
    ensures r.Ok? && (arg.None? || arg.value == "") ==> NameVariable in env && r.value == env[NameVariable]
  {
    var name :-
      if arg.Some? && arg.value != "" then Ok(arg.value)
      else if NameVariable in env then Ok(env[NameVariable])
      else Err(NoNameVariable);
    if name == "" then Err(NoNameSupplied) else Ok(name)
  }

  /** What `armada_api.post('stop', ...)` gave: a result with its `status`
      field (`None` when the field is missing), or an exception. */
  datatype Reply = Answered(status: Option<string>) | Raised

  /** One matched container as `get_matched_containers` reports it, with
      the reply its ship gives to a stop request. A missing `ServiceID` or
      `Node` key is `None`. */
  datatype Target = Target(serviceId: Option<string>, node: Option<string>, reply: Reply)

  /** The request `{'container_id': ...}` posted to a ship. */
  datatype StopRequest = StopRequest(ship: string, containerId: string)

  /** The request sent for one target; none when a key lookup raises first. */
  function RequestFor(t: Target): (q: Option<StopRequest>)
    ensures q.Some? <==> t.serviceId.Some? && t.node.Some?
    ensures q.Some? ==> q.value.ship == t.node.value && ':' !in q.value.containerId
  {
    if t.serviceId.Some? && t.node.Some? then
      Some(StopRequest(t.node.value, ApiList.ContainerId(t.serviceId.value)))
    else None
  }

  /** A target was stopped: its request was sent and the status was `ok`. */
  predicate Stopped(t: Target) {
    RequestFor(t).Some? && t.reply == Answered(Some("ok"))
  }

  /** The requests sent, in match order: one per target, unless some
      target lacks a key. `RequestsOfWellFormed` gives each request. */
  function Requests(targets: seq<Target>): (rs: seq<StopRequest>)
    ensures |rs| <= |targets|
    ensures |rs| == |targets| <==> forall i :: 0 <= i < |targets| ==> RequestFor(targets[i]).Some?
  {
    if |targets| == 0 then []
    else
      var last := RequestFor(targets[|targets| - 1]);
      Requests(targets[..|targets| - 1]) + (if last.Some? then [last.value] else [])
  }

  /** The requests sent are exactly those of the targets with both keys. */
  lemma {:induction false} RequestsAreThoseOfTargets(targets: seq<Target>)
    ensures forall q :: q in Requests(targets) <==> exists i :: 0 <= i < |targets| && RequestFor(targets[i]) == Some(q)
  {
    if |targets| > 0 {
      var front := targets[..|targets| - 1];
      var last := targets[|targets| - 1];
      RequestsAreThoseOfTargets(front);
      assert forall i :: 0 <= i < |front| ==> front[i] == targets[i];
      assert forall q :: (exists i :: 0 <= i < |targets| && RequestFor(targets[i]) == Some(q)) ==>
        (exists i :: 0 <= i < |front| && RequestFor(front[i]) == Some(q)) || RequestFor(last) == Some(q);
    }
  }

  /** Whether some target was not stopped. */
  predicate AnyFailed(targets: seq<Target>) {
    exists i :: 0 <= i < |targets| && !Stopped(targets[i])
  }

  /** The loop of `command_stop`: each target is tried in turn and a failure
      only sets the error flag. */
  method StopEach(targets: seq<Target>) returns (requests: seq<StopRequest>, wereErrors: bool)
    ensures requests == Requests(targets)
    ensures wereErrors <==> AnyFailed(targets)
  {
    requests := [];
    wereErrors := false;
    var i := 0;
    while i < |targets|
      invariant 0 <= i <= |targets|
      invariant requests == Requests(targets[..i])
      invariant wereErrors <==> AnyFailed(targets[..i])
    {
      var t := targets[i];
      PrefixStep(targets, i);
      var request := RequestFor(t);
      if request.Some? {
        requests := requests + [request.value];
      }
      if !Stopped(t) {
        wereErrors := true;
      }
      i := i + 1;
    }
    assert targets[..|targets|] == targets;
  }

  /** One more target of the loop: the requests and the error flag of the
      longer prefix. */
  lemma PrefixStep(targets: seq<Target>, i: nat)
    requires i < |targets|
    ensures Requests(targets[..i + 1]) == Requests(targets[..i]) + (if RequestFor(targets[i]).Some? then [RequestFor(targets[i]).value] else [])
    ensures AnyFailed(targets[..i + 1]) <==> AnyFailed(targets[..i]) || !Stopped(targets[i])
  {
    assert targets[..i + 1] == targets[..i] + [targets[i]];
    RequestsSnoc(targets[..i], targets[i]);
    AnyFailedSnoc(targets[..i], targets[i]);
  }

  lemma RequestsSnoc(front: seq<Target>, t: Target)
    ensures Requests(front + [t]) == Requests(front) + (if RequestFor(t).Some? then [RequestFor(t).value] else [])
  {
    assert (front + [t])[..|front|] == front;
  }

  lemma AnyFailedSnoc(front: seq<Target>, t: Target)
    ensures AnyFailed(front + [t]) <==> AnyFailed(front) || !Stopped(t)
  {
    var s := front + [t];
    if AnyFailed(front) {
      var k :| 0 <= k < |front| && !Stopped(front[k]);
      assert s[k] == front[k];
    }
    if !Stopped(t) {
      assert s[|front|] == t;
    }
  }

  /** The outcome of a run that got past the checks. */
  datatype StopRun = StopRun(requests: seq<StopRequest>, exitCode: nat)

  /** `command_stop`, with the environment and the container lookup passed
      in. */
  function Stop(arg: Option<string>, env: map<string, string>, all: bool, lookup: string -> seq<Target>): (r: Result<StopRun, StopError>)
    ensures ResolveName(arg, env).Err? ==> r == Err(ResolveName(arg, env).error)
    ensures ResolveName(arg, env).Ok? ==>
      var targets := lookup(ResolveName(arg, env).value);
      && (r.Err? <==> |targets| > 1 && !all)
      && (r.Err? ==> r.error == TooManyMatches(|targets|))
      && (r.Ok? ==> r.value.requests == Requests(targets))
      && (r.Ok? ==> (r.value.exitCode == 1 <==> AnyFailed(targets)))
      && (r.Ok? ==> (r.value.exitCode == 0 <==> !AnyFailed(targets)))
  {
    var name :- ResolveName(arg, env);
    var targets := lookup(name);
    if |targets| > 1 && !all then Err(TooManyMatches(|targets|))
    else Ok(StopRun(Requests(targets), if AnyFailed(targets) then 1 else 0))
  }

  /** When every record has both keys, the i-th request goes to the i-th
      match's ship with the part of its service id before the first `:`,
      whatever the earlier replies were. */
  lemma {:induction false} RequestsOfWellFormed(targets: seq<Target>)
    requires forall i :: 0 <= i < |targets| ==> targets[i].serviceId.Some? && targets[i].node.Some?
    ensures |Requests(targets)| == |targets|
    ensures forall i :: 0 <= i < |targets| ==>
      Requests(targets)[i] == StopRequest(targets[i].node.value, ApiList.ContainerId(targets[i].serviceId.value))
  {
    if |targets| > 0 {
      var front := targets[..|targets| - 1];
      var last := targets[|targets| - 1];
      assert targets == front + [last];
      RequestsOfWellFormed(front);
      RequestsSnoc(front, last);
      assert Requests(targets) == Requests(front) + [RequestFor(last).value];
      forall i | 0 <= i < |targets|
        ensures Requests(targets)[i] == StopRequest(targets[i].node.value, ApiList.ContainerId(targets[i].serviceId.value))
      {
        if i < |front| {
          assert targets[i] == front[i];
        }
      }
    }
  }

  /** The requests sent do not depend on the replies: a failing ship does
      not stop the later matches from being tried. */
  lemma {:induction false} RequestsIgnoreReplies(a: seq<Target>, b: seq<Target>)
    requires |a| == |b|
    requires forall i :: 0 <= i < |a| ==> a[i].serviceId == b[i].serviceId && a[i].node == b[i].node
    ensures Requests(a) == Requests(b)
  {
    if |a| > 0 {
      RequestsIgnoreReplies(a[..|a| - 1], b[..|b| - 1]);
    }
  }

  /** No match: nothing is sent and the exit code is 0. */
  lemma NoMatchesStopsNothing(arg: Option<string>, env: map<string, string>, all: bool, lookup: string -> seq<Target>)
    requires ResolveName(arg, env).Ok?
    requires lookup(ResolveName(arg, env).value) == []
    ensures Stop(arg, env, all, lookup) == Ok(StopRun([], 0))
  {
  }

  /** A single match is stopped with or without `--all`. */
  lemma SingleMatchNeedsNoFlag(arg: Option<string>, env: map<string, string>, lookup: string -> seq<Target>)
    requires ResolveName(arg, env).Ok?
    requires |lookup(ResolveName(arg, env).value)| == 1
    ensures Stop(arg, env, false, lookup) == Stop(arg, env, true, lookup)
  {
  }
}
