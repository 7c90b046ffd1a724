/** Running a policy snapshot: thread.Load over the recorded modules
    (pkg/rules/engine.go 108-152, pkg/rules/policy.go 75-79). A module's run is its load statements
    in order; `fails` says of each module before which of them, or after the last, its own code fails. */
module PolicyReplay {
  import opened Text
  import opened PolicyLoader

  type Failing = (Path, nat) -> bool

  // The module's own code runs through, given its loads.
  ghost predicate RunsThrough(w: World, fails: Failing, p: Path) {
    LoadsOf(w, p).Some? && forall i: nat :: i <= |LoadsOf(w, p).value| ==> !fails(p, i)
  }

  // Some module of the snapshot fails.
  ghost predicate SomeFails(w: World, modules: map<Path, string>, fails: Failing) {
    exists p :: p in modules && !RunsThrough(w, fails, p)
  }

  // Every module of the cache has all its loads there too.
  ghost predicate CacheClosed(w: World, cache: set<Path>) {
    forall a, b :: a in cache && Edge(w, a, b) ==> b in cache
  }

  // The modules started so far, each once: those that finished and those under way.
  ghost predicate Logged(log: seq<Path>, cache: set<Path>, loading: set<Path>) {
    NoDup(log) && (forall p :: p in log <==> p in cache || p in loading) && forall p :: p in cache ==> p !in loading
  }

  // The modules under way come at or after place n of the order, the finished ones before the end.
  ghost predicate Placed(order: seq<Path>, cache: set<Path>, loading: set<Path>, n: nat)
    requires n < |order|
  {
    && (forall p :: p in order[..n] ==> p !in loading)
    && (forall p :: p in cache ==> p in order[..|order| - 1])
  }

  class Player {
    const w: World
    const modules: map<Path, string>
    const fails: Failing
    ghost const order: seq<Path>
    var cache: set<Path>
    var loading: set<Path>
    ghost var log: seq<Path>

    constructor (world: World, snapshot: map<Path, string>, failing: Failing, ghost layers: seq<Path>)
      requires Layered(world, snapshot, layers)
      ensures w == world && modules == snapshot && fails == failing && order == layers
      ensures cache == {} && loading == {} && log == []
    {
      w, modules, fails, order := world, snapshot, failing, layers;
      cache, loading, log := {}, {}, [];
    }

    ghost predicate Valid(n: nat)
      reads this
    {
      && Layered(w, modules, order) && n < |order|
      && Logged(log, cache, loading) && CacheClosed(w, cache) && Placed(order, cache, loading, n)
      && forall p :: p in cache ==> RunsThrough(w, fails, p)
    }

    // thread.Load for a load statement of the module at place n.
    method Load(name: string, ghost n: nat) returns (problem: Option<Problem>)
      requires Valid(n) && Ready(w, modules, name) && w.target(name).value in order[..n]
      modifies this
      ensures problem.Some? ==> problem == Some(ScriptError) && NoDup(log) && SomeFails(w, modules, fails)
      ensures problem.None? ==>
        Valid(n) && loading == old(loading) && old(cache) <= cache && w.target(name).value in cache
      decreases n, 2
    {
      var target := w.target(name);
      if target.None? { return Some(BadModule); }
      var path := target.value;
      ghost var k :| 0 <= k < n && order[k] == path;
      assert Grounded(w, modules, order, k);
      if !w.inside(path) { return Some(Escapes); }
      if path in cache { return None; }
      if path in loading { return Some(Cycle); }
      if path !in modules { return Some(Absent); }
      problem := Fresh(path, k, n);
    }

    // A module not run before, at place k.
    method Fresh(path: Path, ghost k: nat, ghost n: nat) returns (problem: Option<Problem>)
      requires Valid(n) && k < n && order[k] == path && path !in cache && path !in loading && path in modules
      modifies this
      ensures problem.Some? ==> problem == Some(ScriptError) && NoDup(log) && SomeFails(w, modules, fails)
      ensures problem.None? ==> Valid(n) && loading == old(loading) && old(cache) <= cache && path in cache
      decreases n, 1
    {
      ghost var outer := loading;
      StartOne(w, order, log, cache, loading, path, k, n);
      loading, log := loading + {path}, log + [path];
      problem := Run(path, modules[path], k);
      if problem.Some? {
        loading := loading - {path};
        return;
      }
      FinishOne(w, order, log, cache, outer, path, k, n);
      loading, cache := loading - {path}, cache + {path};
      assert loading == outer;
    }

    // ExecFile of the module at place k.
    method Run(path: Path, source: string, ghost k: nat) returns (problem: Option<Problem>)
      requires Valid(k) && order[k] == path && path in modules && source == modules[path]
      modifies this
      ensures problem.Some? ==> problem == Some(ScriptError) && NoDup(log) && SomeFails(w, modules, fails)
      ensures problem.None? ==> Valid(k) && loading == old(loading) && old(cache) <= cache
      ensures problem.None? ==> RunsThrough(w, fails, path) && forall b :: Edge(w, path, b) ==> b in cache
      decreases k, 3
    {
      assert Grounded(w, modules, order, k);
      var loads := w.loads(path, source);
      var i := 0;
      while loads.Some? && i < |loads.value|
        invariant Valid(k) && loading == old(loading) && old(cache) <= cache && loads == LoadsOf(w, path) && loads.Some?
        invariant i <= |loads.value|
        invariant forall j: nat :: j < i ==> !fails(path, j)
        invariant forall j :: 0 <= j < i ==> w.target(loads.value[j]).Some? && w.target(loads.value[j]).value in cache
        decreases |loads.value| - i
      {
        if fails(path, i) {
          assert !RunsThrough(w, fails, path);
          return Some(ScriptError);
        }
        assert Ready(w, modules, loads.value[i]);
        problem := Load(loads.value[i], k);
        if problem.Some? { return; }
        i := i + 1;
      }
      if fails(path, i) {
        assert !RunsThrough(w, fails, path);
        return Some(ScriptError);
      }
      return None;
    }
  }

  lemma StartOne(w: World, order: seq<Path>, log: seq<Path>, cache: set<Path>, loading: set<Path>, path: Path, k: nat,
                 n: nat)
    requires NoDup(order) && k < n < |order| && order[k] == path
    requires Logged(log, cache, loading) && Placed(order, cache, loading, n) && path !in cache && path !in loading
    ensures Logged(log + [path], cache, loading + {path}) && Placed(order, cache, loading + {path}, k)
  {
    assert forall p :: p in order[..k] ==> p in order[..n];
  }

  lemma FinishOne(w: World, order: seq<Path>, log: seq<Path>, cache: set<Path>, loading: set<Path>, path: Path,
                  k: nat, n: nat)
    requires NoDup(order) && k < n < |order| && order[k] == path && path !in loading && path !in cache
    requires Logged(log, cache, loading + {path}) && CacheClosed(w, cache) && Placed(order, cache, loading + {path}, k)
    requires forall p :: p in order[..n] ==> p !in loading
    requires forall b :: Edge(w, path, b) ==> b in cache
    ensures Logged(log, cache + {path}, loading) && CacheClosed(w, cache + {path})
    ensures Placed(order, cache + {path}, loading, n)
  {
    assert order[..|order| - 1][k] == path;
  }

  /** Running a loaded policy meets no cycle, no absent module, no bad or escaping name: it succeeds
      exactly when no module fails by its own doing. It starts no module twice; and when it
      succeeds, it has run each module but the root (which is the script itself) exactly once. */
  method Execute(w: World, root: Path, modules: map<Path, string>, fails: Failing, ghost order: seq<Path>)
    returns (problem: Option<Problem>, ghost log: seq<Path>)
    requires Snapshot(w, root, modules, order)
    ensures problem == if SomeFails(w, modules, fails) then Some(ScriptError) else None
    ensures NoDup(log)
    ensures problem.None? ==> forall p :: p in log <==> p in modules && p != root
  {
    var player := new Player(w, modules, fails, order);
    ghost var last := |order| - 1;
    assert order[last] == root && order[..last] == order[..|order| - 1];
    problem := player.Run(root, modules[root], last);
    log := player.log;
    if problem.None? {
      EverythingRan(w, root, modules, order, player.cache);
    }
  }

  lemma EverythingRan(w: World, root: Path, modules: map<Path, string>, order: seq<Path>, cache: set<Path>)
    requires Snapshot(w, root, modules, order) && CacheClosed(w, cache)
    requires (forall p :: p in cache ==> p in order[..|order| - 1]) && forall b :: Edge(w, root, b) ==> b in cache
    ensures forall p :: p in cache <==> p in modules && p != root
  {
    forall p ensures p in cache <==> p in modules && p != root {
      if p in cache {
        var i :| 0 <= i < |order| - 1 && order[i] == p;
        assert p in order;
      }
      if p in modules && p != root {
        var walk :| Walk(w, walk) && walk[0] == root && walk[|walk| - 1] == p;
        ReachedIsCached(w, root, cache, walk, |walk| - 1);
      }
    }
  }

  lemma {:induction false} ReachedIsCached(w: World, root: Path, cache: set<Path>, walk: seq<Path>, i: nat)
    requires Walk(w, walk) && walk[0] == root && 0 < i < |walk| && CacheClosed(w, cache)
    requires forall b :: Edge(w, root, b) ==> b in cache
    ensures walk[i] in cache
  {
    assert Edge(w, walk[i - 1], walk[i]);
    if i > 1 { ReachedIsCached(w, root, cache, walk, i - 1); }
  }
}
