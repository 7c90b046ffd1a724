/** The policy snapshot (pkg/rules/policy.go 20-75). The file system and the Starlark parser are
    fixed functions of a path; a path resolves to itself. */
module PolicyLoader {
  import opened Text

  type Path = string

  datatype World = World(
    exists_: Path -> bool,                              // EvalSymlinks succeeds
    file: Path -> Option<string>,                       // ReadFile
    loads: (Path, string) -> Option<seq<string>>,       // the parsed program's loads; None: it does not compile
    target: string -> Option<Path>,                     // a relative .star name under the root
    inside: Path -> bool)                               // under the root directory

  datatype Problem =
    | Missing | Escapes | Cycle | Unreadable | Limits | Syntax | BadModule | Absent | ScriptError

  datatype Result = Loaded(source: string) | Failed(why: Problem)

  const MAX_SOURCE := 4 * 1024 * 1024
  const MAX_ENTRIES := 256

  // ------------------------------------------------------------- the load graph

  function LoadsOf(w: World, p: Path): Option<seq<string>> {
    match w.file(p)
    case None => None
    case Some(source) => w.loads(p, source)
  }

  ghost predicate Edge(w: World, a: Path, b: Path) {
    LoadsOf(w, a).Some? && exists k :: 0 <= k < |LoadsOf(w, a).value| && w.target(LoadsOf(w, a).value[k]) == Some(b)
  }

  ghost predicate Walk(w: World, walk: seq<Path>) {
    walk != [] && forall i :: 0 < i < |walk| ==> Edge(w, walk[i - 1], walk[i])
  }

  ghost predicate Reach(w: World, a: Path, b: Path) {
    exists walk :: Walk(w, walk) && walk[0] == a && walk[|walk| - 1] == b
  }

  ghost predicate OnCycle(w: World, p: Path) {
    exists walk :: Walk(w, walk) && |walk| >= 2 && walk[0] == p == walk[|walk| - 1]
  }

  ghost predicate AllReached(w: World, root: Path, paths: set<Path>) {
    forall p :: p in paths ==> Reach(w, root, p)
  }

  predicate Oversize(w: World, p: Path) {
    w.file(p).Some? && |w.file(p).value| > MAX_SOURCE
  }

  // A load of p that names no module.
  predicate NamesNone(w: World, p: Path) {
    LoadsOf(w, p).Some? && exists k :: 0 <= k < |LoadsOf(w, p).value| && w.target(LoadsOf(w, p).value[k]).None?
  }

  predicate Faulty(w: World, p: Path, why: Problem) {
    match why
    case Missing => !w.exists_(p)
    case Escapes => !w.inside(p)
    case Unreadable => w.file(p).None?
    case Syntax => w.file(p).Some? && LoadsOf(w, p).None?
    case BadModule => NamesNone(w, p)
    case Limits => Oversize(w, p)
    case _ => false
  }

  /** What there must be among the files that the root transitively loads for a load to fail. */
  ghost predicate Fault(w: World, root: Path, why: Problem) {
    || (exists p :: Reach(w, root, p) && Faulty(w, p, why))
    || (why == Cycle && exists p :: Reach(w, root, p) && OnCycle(w, p))
    || (why == Limits && exists paths: set<Path> :: |paths| > MAX_ENTRIES && AllReached(w, root, paths))
  }

  lemma ReachSelf(w: World, a: Path)
    ensures Reach(w, a, a)
  {
    assert Walk(w, [a]);
  }

  lemma ReachBefore(w: World, a: Path, b: Path, c: Path)
    requires Edge(w, a, b) && Reach(w, b, c)
    ensures Reach(w, a, c)
  {
    var walk :| Walk(w, walk) && walk[0] == b && walk[|walk| - 1] == c;
    var longer := [a] + walk;
    forall i | 0 < i < |longer| ensures Edge(w, longer[i - 1], longer[i]) {
      if i > 1 { assert Edge(w, walk[i - 2], walk[i - 1]); }
    }
    assert Walk(w, longer);
  }

  lemma ReachAfter(w: World, a: Path, b: Path, c: Path)
    requires Reach(w, a, b) && Edge(w, b, c)
    ensures Reach(w, a, c)
  {
    var walk :| Walk(w, walk) && walk[0] == a && walk[|walk| - 1] == b;
    var longer := walk + [c];
    forall i | 0 < i < |longer| ensures Edge(w, longer[i - 1], longer[i]) {
      if i < |walk| { assert Edge(w, walk[i - 1], walk[i]); }
    }
    assert Walk(w, longer);
  }

  // -------------------------------------------------------------- the snapshot

  predicate NoDup(s: seq<Path>) {
    forall i, j :: 0 <= i < j < |s| ==> s[i] != s[j]
  }

  // The file may be a module, and this is what it holds.
  predicate Admissible(w: World, p: Path, source: string) {
    w.exists_(p) && w.inside(p) && w.file(p) == Some(source) && |source| <= MAX_SOURCE
  }

  // Module i is as on disk, and loads only modules that come before it.
  ghost predicate Grounded(w: World, modules: map<Path, string>, order: seq<Path>, i: int)
    requires 0 <= i < |order|
  {
    var p := order[i];
    && p in modules && Admissible(w, p, modules[p]) && LoadsOf(w, p).Some?
    && forall k :: 0 <= k < |LoadsOf(w, p).value| ==>
         var t := w.target(LoadsOf(w, p).value[k]);
         t.Some? && t.value in order[..i]
  }

  // The modules, in an order that puts each after all it loads.
  ghost predicate Layered(w: World, modules: map<Path, string>, order: seq<Path>) {
    && NoDup(order) && |order| == |modules| && (forall p :: p in modules <==> p in order)
    && forall i :: 0 <= i < |order| ==> Grounded(w, modules, order, i)
  }

  /** A snapshot that can be replayed: the root and exactly what it transitively loads, without
      cycles, and no larger than the limits let it grow. */
  ghost predicate Snapshot(w: World, root: Path, modules: map<Path, string>, order: seq<Path>) {
    && Layered(w, modules, order) && order != [] && order[|order| - 1] == root
    && (forall p :: p in modules <==> Reach(w, root, p))
    && |modules| <= 2 * MAX_ENTRIES
  }

  ghost predicate Stacked(w: World, visiting: set<Path>, stack: seq<Path>) {
    && NoDup(stack) && |stack| == |visiting| && (forall p :: p in visiting <==> p in stack)
    && forall i :: 0 < i < |stack| ==> Edge(w, stack[i - 1], stack[i])
  }

  // What is read next is loaded by what is being read.
  ghost predicate Called(w: World, stack: seq<Path>, path: Path) {
    stack != [] ==> Edge(w, stack[|stack| - 1], path)
  }

  lemma VisitingIsCycle(w: World, visiting: set<Path>, stack: seq<Path>, path: Path)
    requires Stacked(w, visiting, stack) && Called(w, stack, path) && path in visiting
    ensures OnCycle(w, path)
  {
    var i :| 0 <= i < |stack| && stack[i] == path;
    var walk := stack[i..] + [path];
    forall k | 0 < k < |walk| ensures Edge(w, walk[k - 1], walk[k]) {
      if k < |walk| - 1 { assert Edge(w, stack[i + k - 1], stack[i + k]); }
    }
    assert Walk(w, walk);
  }

  lemma Push(w: World, visiting: set<Path>, stack: seq<Path>, path: Path)
    requires Stacked(w, visiting, stack) && Called(w, stack, path) && path !in visiting
    ensures Stacked(w, visiting + {path}, stack + [path])
  {
  }

  lemma Pop(w: World, visiting: set<Path>, stack: seq<Path>, path: Path)
    requires Stacked(w, visiting + {path}, stack + [path]) && path !in visiting
    ensures Stacked(w, visiting, stack) && |visiting + {path}| == |visiting| + 1
  {
    var longer := stack + [path];
    assert forall i :: 0 <= i < |stack| ==> longer[i] == stack[i];
    assert longer[|stack|] == path;
    forall p ensures p in visiting <==> p in stack {
      assert p in visiting + {path} <==> p in longer;
      if p in stack { var i :| 0 <= i < |stack| && stack[i] == p; assert longer[i] != longer[|stack|]; }
    }
    forall i | 0 < i < |stack| ensures Edge(w, stack[i - 1], stack[i]) {
      assert Edge(w, longer[i - 1], longer[i]);
    }
  }

  lemma Ground(w: World, modules: map<Path, string>, order: seq<Path>, path: Path, source: string)
    requires Layered(w, modules, order) && path !in modules
    requires Admissible(w, path, source) && LoadsOf(w, path).Some?
    requires forall k :: 0 <= k < |LoadsOf(w, path).value| ==>
      var t := w.target(LoadsOf(w, path).value[k]); t.Some? && t.value in modules
    ensures Layered(w, modules[path := source], order + [path])
  {
    var now, longer := modules[path := source], order + [path];
    assert now.Keys == modules.Keys + {path};
    forall i | 0 <= i < |longer| ensures Grounded(w, now, longer, i) {
      assert longer[..i] == order[..i];
      if i < |order| { assert Grounded(w, modules, order, i); } else { assert order[..i] == order; }
    }
  }

  // What reading a path may add: modules that are reachable from it.
  ghost predicate Grown(w: World, before: map<Path, string>, after: map<Path, string>, path: Path) {
    && before.Keys <= after.Keys
    && forall p :: p in after ==> p in before || Reach(w, path, p)
  }

  lemma GrownTwice(w: World, a: map<Path, string>, b: map<Path, string>, c: map<Path, string>, path: Path)
    requires Grown(w, a, b, path) && Grown(w, b, c, path)
    ensures Grown(w, a, c, path)
  {
  }

  lemma GrownThrough(w: World, a: map<Path, string>, b: map<Path, string>, path: Path, next: Path)
    requires Edge(w, path, next) && Grown(w, a, b, next)
    ensures Grown(w, a, b, path)
  {
    forall p | p in b && p !in a ensures Reach(w, path, p) {
      ReachBefore(w, path, next, p);
    }
  }

  lemma GrownBy(w: World, a: map<Path, string>, b: map<Path, string>, path: Path, source: string)
    requires Grown(w, a, b, path)
    ensures Grown(w, a, b[path := source], path)
  {
    ReachSelf(w, path);
  }

  // A load that has been read.
  predicate Ready(w: World, modules: map<Path, string>, load: string) {
    var t := w.target(load);
    t.Some? && t.value in modules
  }

  predicate AllReady(w: World, modules: map<Path, string>, loads: seq<string>, n: nat)
    requires n <= |loads|
  {
    forall k :: 0 <= k < n ==> Ready(w, modules, loads[k])
  }

  lemma ReadyMore(w: World, before: map<Path, string>, after: map<Path, string>, loads: seq<string>, n: nat)
    requires n < |loads| && before.Keys <= after.Keys && AllReady(w, before, loads, n) && Ready(w, after, loads[n])
    ensures AllReady(w, after, loads, n + 1)
  {
    forall k | 0 <= k < n ensures Ready(w, after, loads[k]) {
      assert Ready(w, before, loads[k]);
    }
  }

  // ---------------------------------------------------------------- the loader

  class Loader {
    const w: World
    ghost const root: Path
    var modules: map<Path, string>
    var visiting: set<Path>
    ghost var stack: seq<Path>
    ghost var order: seq<Path>

    ghost predicate Valid()
      reads this
    {
      && Layered(w, modules, order) && Stacked(w, visiting, stack)
      && (forall p :: p in modules ==> p !in visiting)
      && |modules| + |visiting| <= 2 * MAX_ENTRIES && |visiting| <= MAX_ENTRIES
      && AllReached(w, root, modules.Keys) && AllReached(w, root, visiting)
    }

    constructor (world: World, ghost top: Path)
      ensures w == world && root == top && Valid() && modules == map[] && stack == []
    {
      w, root := world, top;
      modules, visiting, stack, order := map[], {}, [], [];
    }

    method Read(path: Path) returns (r: Result)
      requires Valid() && Called(w, stack, path) && Reach(w, root, path)
      modifies this
      ensures Valid() && stack == old(stack) && visiting == old(visiting) && Grown(w, old(modules), modules, path)
      ensures r.Loaded? ==> path in modules && r.source == modules[path]
      ensures r.Loaded? && path !in old(modules) ==> order != [] && order[|order| - 1] == path
      ensures r.Failed? ==> Fault(w, root, r.why)
      decreases MAX_ENTRIES + 1 - |visiting|, 4
    {
      assert forall why :: Faulty(w, path, why) ==> Fault(w, root, why);
      if !w.exists_(path) { return Failed(Missing); }
      if !w.inside(path) { return Failed(Escapes); }
      if path in visiting {
        VisitingIsCycle(w, visiting, stack, path);
        return Failed(Cycle);
      }
      if path in modules { return Loaded(modules[path]); }
      r := ReadNew(path);
    }

    // A path neither read nor being read. The source marks it as visited first and counts it.
    method ReadNew(path: Path) returns (r: Result)
      requires Valid() && Called(w, stack, path) && Reach(w, root, path) && path !in visiting && path !in modules
      requires w.exists_(path) && w.inside(path)
      modifies this
      ensures Valid() && stack == old(stack) && visiting == old(visiting) && Grown(w, old(modules), modules, path)
      ensures r.Loaded? ==> path in modules && r.source == modules[path] && order != [] && order[|order| - 1] == path
      ensures r.Failed? ==> Fault(w, root, r.why)
      decreases MAX_ENTRIES + 1 - |visiting|, 3
    {
      assert forall why :: Faulty(w, path, why) ==> Fault(w, root, why);
      var source := w.file(path);
      if source.None? { return Failed(Unreadable); }
      TooMany(path);
      if |source.value| > MAX_SOURCE || |modules| > MAX_ENTRIES || |visiting + {path}| > MAX_ENTRIES {
        return Failed(Limits);
      }
      var loads := w.loads(path, source.value);
      if loads.None? { return Failed(Syntax); }
      r := ReadLoads(path, source.value, loads.value);
    }

    lemma TooMany(path: Path)
      requires Valid() && Reach(w, root, path)
      ensures |modules| > MAX_ENTRIES || |visiting + {path}| > MAX_ENTRIES ==> Fault(w, root, Limits)
    {
      assert AllReached(w, root, visiting + {path});
      assert |modules| == |modules.Keys|;
    }

    // A module not read before.
    method ReadLoads(path: Path, source: string, loads: seq<string>) returns (r: Result)
      requires Valid() && Called(w, stack, path) && Reach(w, root, path) && path !in visiting && path !in modules
      requires Admissible(w, path, source) && w.loads(path, source) == Some(loads)
      requires |modules| <= MAX_ENTRIES && |visiting + {path}| <= MAX_ENTRIES
      modifies this
      ensures Valid() && stack == old(stack) && visiting == old(visiting) && Grown(w, old(modules), modules, path)
      ensures r.Loaded? ==> path in modules && r.source == modules[path] && order != [] && order[|order| - 1] == path
      ensures r.Failed? ==> Fault(w, root, r.why)
      decreases MAX_ENTRIES + 1 - |visiting|, 2
    {
      r := Visit(path, loads);
      if r.Failed? { return; }
      GrownBy(w, old(modules), modules, path, source);
      Store(path, source, loads);
      r := Loaded(source);
    }

    // The loads of a module, with the module marked as being visited meanwhile.
    method Visit(path: Path, loads: seq<string>) returns (r: Result)
      requires Valid() && Called(w, stack, path) && Reach(w, root, path) && path !in visiting && path !in modules
      requires LoadsOf(w, path) == Some(loads)
      requires |modules| <= MAX_ENTRIES && |visiting + {path}| <= MAX_ENTRIES
      modifies this
      ensures Valid() && stack == old(stack) && visiting == old(visiting) && Grown(w, old(modules), modules, path)
      ensures path !in modules && |modules| + |visiting| < 2 * MAX_ENTRIES
      ensures r.Loaded? ==> AllReady(w, modules, loads, |loads|)
      ensures r.Failed? ==> Fault(w, root, r.why)
      decreases MAX_ENTRIES + 1 - |visiting|, 1
    {
      ghost var v, s := visiting, stack;
      r := Marked(path, loads);
      Leave(path, v, s);
    }

    method Marked(path: Path, loads: seq<string>) returns (r: Result)
      requires Valid() && Called(w, stack, path) && Reach(w, root, path) && path !in visiting && path !in modules
      requires LoadsOf(w, path) == Some(loads)
      requires |modules| <= MAX_ENTRIES && |visiting + {path}| <= MAX_ENTRIES
      modifies this
      ensures Valid() && stack == old(stack) + [path] && visiting == old(visiting) + {path}
      ensures Grown(w, old(modules), modules, path)
      ensures r.Loaded? ==> AllReady(w, modules, loads, |loads|)
      ensures r.Failed? ==> Fault(w, root, r.why)
      decreases MAX_ENTRIES + 1 - |visiting|, 0
    {
      Enter(path);
      r := ReadAll(path, loads);
    }

    method Enter(path: Path)
      requires Valid() && Called(w, stack, path) && Reach(w, root, path) && path !in visiting && path !in modules
      requires |modules| <= MAX_ENTRIES && |visiting + {path}| <= MAX_ENTRIES
      modifies this`visiting, this`stack
      ensures Valid() && stack == old(stack) + [path] && visiting == old(visiting) + {path}
      ensures |visiting| == |old(visiting)| + 1
    {
      Push(w, visiting, stack, path);
      visiting, stack := visiting + {path}, stack + [path];
    }

    method Leave(path: Path, ghost v: set<Path>, ghost s: seq<Path>)
      requires Valid() && stack == s + [path] && visiting == v + {path} && path !in v
      modifies this`visiting, this`stack
      ensures Valid() && stack == s && visiting == v && path !in modules
      ensures |modules| + |visiting| < 2 * MAX_ENTRIES
    {
      Pop(w, v, s, path);
      visiting, stack := visiting - {path}, stack[..|stack| - 1];
      assert visiting == v;
      assert stack == s;
    }

    method Store(path: Path, source: string, loads: seq<string>)
      requires Valid() && path !in visiting && path !in modules && |modules| + |visiting| < 2 * MAX_ENTRIES
      requires Reach(w, root, path)
      requires Admissible(w, path, source) && w.loads(path, source) == Some(loads)
      requires AllReady(w, modules, loads, |loads|)
      modifies this`modules, this`order
      ensures Valid() && modules == old(modules)[path := source] && order == old(order) + [path]
    {
      Ground(w, modules, order, path, source);
      assert modules[path := source].Keys == modules.Keys + {path};
      modules, order := modules[path := source], order + [path];
    }

    // The load statements of the module being read, in turn.
    method ReadAll(path: Path, loads: seq<string>) returns (r: Result)
      requires Valid() && stack != [] && stack[|stack| - 1] == path && LoadsOf(w, path) == Some(loads)
      requires Reach(w, root, path)
      modifies this
      ensures Valid() && stack == old(stack) && visiting == old(visiting) && Grown(w, old(modules), modules, path)
      ensures r.Loaded? ==> AllReady(w, modules, loads, |loads|)
      ensures r.Failed? ==> Fault(w, root, r.why)
      decreases MAX_ENTRIES + 1 - |visiting|, 6
    {
      r := Loaded("");
      var i := 0;
      while i < |loads|
        invariant Valid() && stack == old(stack) && visiting == old(visiting) && Grown(w, old(modules), modules, path)
        invariant i <= |loads| && r.Loaded? && AllReady(w, modules, loads, i)
        decreases |loads| - i
      {
        ghost var before := modules;
        r := ReadOne(path, loads, i);
        GrownTwice(w, old(modules), before, modules, path);
        if r.Failed? { return; }
        ReadyMore(w, before, modules, loads, i);
        i := i + 1;
      }
    }

    // One load of the module being read.
    method ReadOne(path: Path, loads: seq<string>, i: nat) returns (r: Result)
      requires Valid() && stack != [] && stack[|stack| - 1] == path && i < |loads|
      requires LoadsOf(w, path) == Some(loads) && Reach(w, root, path)
      modifies this
      ensures Valid() && stack == old(stack) && visiting == old(visiting) && Grown(w, old(modules), modules, path)
      ensures r.Loaded? ==> Ready(w, modules, loads[i])
      ensures r.Failed? ==> Fault(w, root, r.why)
      decreases MAX_ENTRIES + 1 - |visiting|, 5
    {
      var t := w.target(loads[i]);
      if t.None? {
        assert Faulty(w, path, BadModule);
        return Failed(BadModule);
      }
      assert Edge(w, path, t.value);
      ReachAfter(w, root, path, t.value);
      r := Read(t.value);
      GrownThrough(w, old(modules), modules, path, t.value);
    }
  }

  /** A successful load leaves exactly the root and what it transitively loads, as on disk, in an
      order without cycles, at most 512 modules; a failed one has the fault it reports. */
  method LoadPolicy(w: World, filename: Path) returns (r: Result, modules: map<Path, string>, ghost order: seq<Path>)
    ensures r.Loaded? ==> Snapshot(w, filename, modules, order) && r.source == modules[filename]
    ensures r.Failed? ==> Fault(w, filename, r.why)
  {
    ReachSelf(w, filename);
    var loader := new Loader(w, filename);
    r := loader.Read(filename);
    modules, order := loader.modules, loader.order;
    if r.Loaded? {
      LayeredIsClosed(w, modules, order);
      forall p ensures p in modules <==> Reach(w, filename, p) {
        if Reach(w, filename, p) { ClosedUnderReach(w, modules, filename, p); }
      }
    }
  }

  ghost predicate Closed(w: World, modules: map<Path, string>) {
    forall a, b :: a in modules && Edge(w, a, b) ==> b in modules
  }

  lemma LayeredIsClosed(w: World, modules: map<Path, string>, order: seq<Path>)
    requires Layered(w, modules, order)
    ensures Closed(w, modules)
  {
    forall a, b | a in modules && Edge(w, a, b) ensures b in modules {
      var i, j := EdgeGoesBack(w, modules, order, a, b);
    }
  }

  // Every load goes to a module earlier in the order.
  lemma EdgeGoesBack(w: World, modules: map<Path, string>, order: seq<Path>, a: Path, b: Path) returns (i: nat, j: nat)
    requires Layered(w, modules, order) && a in modules && Edge(w, a, b)
    ensures j < i < |order| && order[i] == a && order[j] == b
  {
    i :| 0 <= i < |order| && order[i] == a;
    assert Grounded(w, modules, order, i);
    assert b in order[..i];
    j :| 0 <= j < i && order[j] == b;
  }

  lemma {:induction false} ClosedUnderWalk(w: World, modules: map<Path, string>, walk: seq<Path>, i: nat)
    requires Closed(w, modules) && Walk(w, walk) && walk[0] in modules && i < |walk|
    ensures walk[i] in modules
  {
    if i > 0 {
      ClosedUnderWalk(w, modules, walk, i - 1);
      assert Edge(w, walk[i - 1], walk[i]);
    }
  }

  lemma ClosedUnderReach(w: World, modules: map<Path, string>, a: Path, b: Path)
    requires Closed(w, modules) && a in modules && Reach(w, a, b)
    ensures b in modules
  {
    var walk :| Walk(w, walk) && walk[0] == a && walk[|walk| - 1] == b;
    ClosedUnderWalk(w, modules, walk, |walk| - 1);
  }

  // Position of the walk's start, and of its n-th module, at least n places before it.
  lemma {:induction false} WalksGoBack(w: World, modules: map<Path, string>, order: seq<Path>, walk: seq<Path>, n: nat)
    returns (start: nat, i: nat)
    requires Layered(w, modules, order) && Walk(w, walk) && walk[0] in modules && n < |walk|
    ensures i + n <= start < |order| && order[start] == walk[0] && order[i] == walk[n]
  {
    if n == 0 {
      start :| 0 <= start < |order| && order[start] == walk[0];
      i := start;
    } else {
      var k;
      start, k := WalksGoBack(w, modules, order, walk, n - 1);
      assert Edge(w, walk[n - 1], walk[n]);
      var a, b := EdgeGoesBack(w, modules, order, walk[n - 1], walk[n]);
      i := b;
    }
  }

  /** No chain of loads in a snapshot returns to where it began, or is longer than the snapshot. */
  lemma SnapshotHasNoCycle(w: World, root: Path, modules: map<Path, string>, order: seq<Path>, walk: seq<Path>)
    requires Snapshot(w, root, modules, order) && Walk(w, walk) && walk[0] in modules
    ensures |walk| <= |modules| && (|walk| >= 2 ==> walk[|walk| - 1] != walk[0])
  {
    var start, i := WalksGoBack(w, modules, order, walk, |walk| - 1);
  }

  /** Conversely, what loads has none of these faults: the two outcomes tell them apart exactly,
      but for a snapshot that has outgrown the entry limit by its last modules. */
  lemma SnapshotHasNoFault(w: World, root: Path, modules: map<Path, string>, order: seq<Path>, why: Problem)
    requires Snapshot(w, root, modules, order)
    requires why == Limits ==> |modules| <= MAX_ENTRIES
    ensures !Fault(w, root, why)
  {
    forall p | Reach(w, root, p) ensures !Faulty(w, p, why) && !OnCycle(w, p) {
      var i :| 0 <= i < |order| && order[i] == p;
      assert Grounded(w, modules, order, i);
      if OnCycle(w, p) {
        var walk :| Walk(w, walk) && |walk| >= 2 && walk[0] == p == walk[|walk| - 1];
        SnapshotHasNoCycle(w, root, modules, order, walk);
      }
    }
    if why == Limits {
      forall paths: set<Path> | AllReached(w, root, paths) ensures |paths| <= MAX_ENTRIES {
        SmallerSet(paths, modules.Keys);
      }
    }
  }

  lemma {:induction false} SmallerSet(a: set<Path>, b: set<Path>)
    requires forall p :: p in a ==> p in b
    ensures |a| <= |b|
  {
    if p :| p in a { SmallerSet(a - {p}, b - {p}); }
  }
}
