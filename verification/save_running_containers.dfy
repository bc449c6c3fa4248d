/** The snapshot of running containers (`save_running_containers.py`): once
    recovery has completed (or when forced), the parameters of every local
    container are collected, sorted and written to the saved-containers
    file through a temporary file, then published to the key/value store on
    a best-effort basis. */
module SaveRunningContainers {
  import opened Wrappers
  import Sorting
  import Text

  /** A container's parameter mapping, in its canonical serialized form. */
  type Params = string

  /** What `get_container_parameters` gave for one container id: a truthy
      mapping, a falsy one (`None` or `{}`), or an exception. */
  datatype Fetch = Fetched(params: Params) | Empty | Raised

  /** The recovery marker counts only when the file holds exactly `1`;
      `None` is a marker that cannot be read. */
  function IsRecoveryCompleted(marker: Option<string>): (done: bool)
    ensures done <==> marker == Some("1")
  {
    match marker
    case Some(content) => content == "1"
    case None => false
  }

  /** The truthy mappings, in fetch order. */
  function Successes(fetches: seq<Fetch>): (ps: seq<Params>)
    ensures |ps| <= |fetches|
    ensures forall p :: p in ps <==> Fetched(p) in fetches
  {
    if |fetches| == 0 then []
    else
      var front := fetches[..|fetches| - 1];
      var last := fetches[|fetches| - 1];
      assert forall f :: f in fetches <==> f in front || f == last;
      match last
      case Fetched(p) => Successes(front) + [p]
      case _ => Successes(front)
  }

  /** The number of fetches that raised. */
  function ErrorCount(fetches: seq<Fetch>): (n: nat)
    ensures n <= |fetches|
    ensures n == 0 <==> Raised !in fetches
  {
    if |fetches| == 0 then 0
    else
      var front := fetches[..|fetches| - 1];
      assert forall f :: f in fetches <==> f in front || f == fetches[|fetches| - 1];
      ErrorCount(front) + (if fetches[|fetches| - 1] == Raised then 1 else 0)
  }

  /** The per-container loop of `main`: falsy results are skipped, an
      exception is counted and the loop goes on with the next container. */
  method CollectParameters(fetches: seq<Fetch>) returns (list: seq<Params>, errors: nat)
    ensures list == Successes(fetches)
    ensures errors == ErrorCount(fetches)
  {
    list := [];
    errors := 0;
    var i := 0;
    while i < |fetches|
      invariant 0 <= i <= |fetches|
      invariant list == Successes(fetches[..i])
      invariant errors == ErrorCount(fetches[..i])
    {
      assert fetches[..i + 1] == fetches[..i] + [fetches[i]];
      SuccessesSnoc(fetches[..i], fetches[i]);
      ErrorCountSnoc(fetches[..i], fetches[i]);
      match fetches[i] {
        case Fetched(p) => list := list + [p];
        case Empty =>
        case Raised => errors := errors + 1;
      }
      i := i + 1;
    }
    assert fetches[..|fetches|] == fetches;
  }

  lemma SuccessesSnoc(front: seq<Fetch>, f: Fetch)
    ensures Successes(front + [f]) == Successes(front) + (if f.Fetched? then [f.params] else [])
  {
    assert (front + [f])[..|front|] == front;
  }

  lemma ErrorCountSnoc(front: seq<Fetch>, f: Fetch)
    ensures ErrorCount(front + [f]) == ErrorCount(front) + (if f == Raised then 1 else 0)
  {
    assert (front + [f])[..|front|] == front;
  }

  /** Every fetch is a success, a skip or an error. */
  lemma {:induction false} FetchesAreAccountedFor(fetches: seq<Fetch>)
    ensures |Successes(fetches)| + ErrorCount(fetches) + multiset(fetches)[Empty] == |fetches|
  {
    if |fetches| > 0 {
      var front := fetches[..|fetches| - 1];
      assert fetches == front + [fetches[|fetches| - 1]];
      FetchesAreAccountedFor(front);
    }
  }

  // ------------------------------------------------------------ file write

  type FileSystem = map<string, string>

  function TempPath(path: string): string {
    path + ".tmp"
  }

  /** Which step of the write raises: opening the temporary file, copying it
      over the destination, or removing it. */
  datatype WriteFault = NoFault | TempOpenFails | CopyFails | RemoveFails

  /** The list as the JSON array of its serialized mappings. */
  function Serialize(list: seq<Params>): string {
    "[" + Text.Join(list, ", ") + "]"
  }

  datatype Written = Written(fs: FileSystem, raised: bool)

  /** `_save_containers_parameters_list_in_file`: write the temporary file,
      copy it over the destination, remove it. The steps are not atomic: a
      fault leaves the steps before it done. No path other than the
      destination and the temporary file changes. */
  function SaveInFile(list: seq<Params>, path: string, fs: FileSystem, fault: WriteFault): (w: Written)
    ensures w.raised <==> fault != NoFault
    ensures fault == NoFault ==>
      path in w.fs && w.fs[path] == Serialize(list) && TempPath(path) !in w.fs
    ensures fault == TempOpenFails || fault == CopyFails ==>
      (path in w.fs <==> path in fs) && (path in fs ==> w.fs[path] == fs[path])
    ensures fault == CopyFails || fault == RemoveFails ==>
      TempPath(path) in w.fs && w.fs[TempPath(path)] == Serialize(list)
    ensures fault == RemoveFails ==> path in w.fs && w.fs[path] == Serialize(list)
    ensures forall p :: p != path && p != TempPath(path) ==>
      (p in w.fs <==> p in fs) && (p in fs ==> w.fs[p] == fs[p])
  {
    var text := Serialize(list);
    var tmp := TempPath(path);
    assert tmp != path by { assert |tmp| != |path|; }
    var staged := fs[tmp := text];
    var copied := staged[path := text];
    match fault
    case TempOpenFails => Written(fs, true)
    case CopyFails => Written(staged, true)
    case RemoveFails => Written(copied, true)
    case NoFault => Written(copied - {tmp}, false)
  }

  // ------------------------------------------------------------------ main

  /** What the script finds on the node. */
  datatype Node = Node(
    marker: Option<string>,          // content of the recovery marker, `None` if unreadable
    consulReady: bool,               // `wait_for_consul_ready` returns without raising
    containers: Option<seq<Fetch>>,  // one fetch per local container id; `None` if listing the ids raised
    fs: FileSystem,
    writeFault: WriteFault,
    kvReachable: bool)               // the ship name and the `kv_set` both succeed

  /** The outcome of one run: the exit code, the files afterwards, the list
      handed to the file write (if the write was attempted) and the list
      published to the key/value store (if that succeeded). */
  datatype Run = Run(exitCode: nat, fs: FileSystem, saved: Option<seq<Params>>, published: Option<seq<Params>>)

  predicate Proceeds(force: bool, node: Node) {
    force || IsRecoveryCompleted(node.marker)
  }

  /** The guard against overwriting: write when something was collected or
      nothing failed. */
  predicate MayWrite(fetches: seq<Fetch>) {
    |Successes(fetches)| > 0 || ErrorCount(fetches) == 0
  }

  /** `main`, with the node's state passed in. */
  function Snapshot(path: string, force: bool, node: Node): (run: Run)
    ensures !Proceeds(force, node) ==> run == Run(0, node.fs, None, None)
    ensures Proceeds(force, node) && (!node.consulReady || node.containers.None?) ==> run == Run(1, node.fs, None, None)
    ensures run.saved.Some? <==>
      Proceeds(force, node) && node.consulReady && node.containers.Some? && MayWrite(node.containers.value)
    ensures run.saved.Some? ==>
      && Sorting.Sorted(run.saved.value)
      && multiset(run.saved.value) == multiset(Successes(node.containers.value))
      && run.fs == SaveInFile(run.saved.value, path, node.fs, node.writeFault).fs
    ensures run.saved.None? && run.exitCode == 0 ==> run.fs == node.fs
    ensures run.exitCode == 1 <==>
      Proceeds(force, node) && (!node.consulReady || node.containers.None? || (run.saved.Some? && node.writeFault != NoFault))
    ensures run.exitCode == 0 || run.exitCode == 1
    ensures run.published.Some? <==> run.saved.Some? && node.writeFault == NoFault && node.kvReachable
    ensures run.published.Some? ==> run.published == run.saved
  {
    if !Proceeds(force, node) then Run(0, node.fs, None, None)
    else if !node.consulReady || node.containers.None? then Run(1, node.fs, None, None)
    else
      var fetches := node.containers.value;
      var list := Sorting.Sort(Successes(fetches));
      if !MayWrite(fetches) then Run(0, node.fs, None, None)
      else
        var w := SaveInFile(list, path, node.fs, node.writeFault);
        if w.raised then Run(1, w.fs, Some(list), None)
        else Run(0, w.fs, Some(list), if node.kvReachable then Some(list) else None)
  }

  lemma {:induction false} AllRaisedCollectsNothing(fetches: seq<Fetch>)
    requires forall i :: 0 <= i < |fetches| ==> fetches[i] == Raised
    ensures Successes(fetches) == []
    ensures ErrorCount(fetches) == |fetches|
  {
    if |fetches| > 0 {
      AllRaisedCollectsNothing(fetches[..|fetches| - 1]);
    }
  }

  /** A run in which every fetch raised leaves the saved file exactly as it
      was (or absent), publishes nothing, and exits with 0. */
  lemma AllFailedLeavesFileAlone(path: string, force: bool, node: Node)
    requires Proceeds(force, node) && node.consulReady && node.containers.Some?
    requires |node.containers.value| > 0
    requires forall i :: 0 <= i < |node.containers.value| ==> node.containers.value[i] == Raised
    ensures Snapshot(path, force, node) == Run(0, node.fs, None, None)
  {
    AllRaisedCollectsNothing(node.containers.value);
  }

  /** With no containers at all an empty list is written. */
  lemma NoContainersWritesEmptyList(path: string, force: bool, node: Node)
    requires Proceeds(force, node) && node.consulReady && node.containers == Some([])
    requires node.writeFault == NoFault
    ensures Snapshot(path, force, node).saved == Some([])
    ensures Snapshot(path, force, node).fs[path] == "[]"
  {
  }

  /** The written list depends only on which mappings were collected, not on
      the order in which the containers were listed. */
  lemma SnapshotIgnoresContainerOrder(path: string, force: bool, node: Node, reordered: seq<Fetch>)
    requires node.containers.Some?
    requires multiset(reordered) == multiset(node.containers.value)
    ensures Snapshot(path, force, node) == Snapshot(path, force, node.(containers := Some(reordered)))
  {
    var fetches := node.containers.value;
    SuccessesOfPermutation(fetches, reordered);
    ErrorCountOfPermutation(fetches, reordered);
    Sorting.SortIgnoresOrder(Successes(fetches), Successes(reordered));
  }

  /** Each mapping is collected as often as it was fetched. */
  lemma {:induction false} SuccessesCount(fetches: seq<Fetch>, p: Params)
    ensures multiset(Successes(fetches))[p] == multiset(fetches)[Fetched(p)]
  {
    if |fetches| > 0 {
      var front := fetches[..|fetches| - 1];
      assert fetches == front + [fetches[|fetches| - 1]];
      SuccessesCount(front, p);
    }
  }

  /** The errors counted are the fetches that raised. */
  lemma {:induction false} ErrorCountIsRaisedCount(fetches: seq<Fetch>)
    ensures ErrorCount(fetches) == multiset(fetches)[Raised]
  {
    if |fetches| > 0 {
      var front := fetches[..|fetches| - 1];
      assert fetches == front + [fetches[|fetches| - 1]];
      ErrorCountIsRaisedCount(front);
    }
  }

  lemma SuccessesOfPermutation(a: seq<Fetch>, b: seq<Fetch>)
    requires multiset(a) == multiset(b)
    ensures multiset(Successes(a)) == multiset(Successes(b))
  {
    forall p ensures multiset(Successes(a))[p] == multiset(Successes(b))[p] {
      SuccessesCount(a, p);
      SuccessesCount(b, p);
    }
  }

  lemma ErrorCountOfPermutation(a: seq<Fetch>, b: seq<Fetch>)
    requires multiset(a) == multiset(b)
    ensures ErrorCount(a) == ErrorCount(b)
  {
    ErrorCountIsRaisedCount(a);
    ErrorCountIsRaisedCount(b);
  }
}
