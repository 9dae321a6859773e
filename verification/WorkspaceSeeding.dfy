/**
 Seeding the audit workspace (scripts/live-business-mission-acceptance.ts).

 A repository is a map from package directory ("packages/planning") to the `package.json` found there.
 The worklist of `seedWorkspace` is `DependencyClosure`; what it computes is stated without queue or
 `seen` set, by `BreadthFirst.IsClosure`.
 */
module WorkspaceSeeding {
  import opened Sequences
  import opened BreadthFirst

  type Rel = string

  datatype File =
    | Malformed  // JSON.parse throws
    | Manifest(name: Option<string>, version: Option<string>,
               dependencies: Option<seq<string>>, devDependencies: Option<seq<string>>)

  type Repo = map<Rel, File>

  datatype Failure = CannotLocate(name: string) | BadManifest(rel: Rel) | MissingFile(rel: Rel)

  datatype Result<T> = Ok(value: T) | Err(error: Failure)

  datatype Facts = Facts(name: string, version: string, depCount: nat, gaps: seq<string>)

  const BASES: seq<string> := ["packages", "services", "apps"]
  const SCOPE: string := "@vedmoulya/"

  function Place(base: string, name: string): Rel { base + "/" + name }

  // ---------------------------------------------------------------------------------------------
  // Locating a package
  // ---------------------------------------------------------------------------------------------

  /** The first of `bases` that holds package `name`. */
  function LocateIn(repo: Repo, name: string, bases: seq<string>): (r: Option<Rel>)
    ensures r.Some? ==> r.value in repo
  {
    if bases == [] then None
    else if Place(bases[0], name) in repo then Some(Place(bases[0], name))
    else LocateIn(repo, name, bases[1..])
  }

  function Locate(repo: Repo, name: string): Option<Rel> { LocateIn(repo, name, BASES) }

  ghost predicate HeldOnlyFrom(repo: Repo, name: string, bases: seq<string>, i: nat)
    requires i < |bases|
  {
    Place(bases[i], name) in repo && forall j :: 0 <= j < i ==> Place(bases[j], name) !in repo
  }

  /** The earliest base that holds the package wins, and nothing is found only when no base holds it. */
  lemma {:induction false} LocateIsFirst(repo: Repo, name: string, bases: seq<string>)
    ensures match LocateIn(repo, name, bases)
            case Some(rel) => exists i :: 0 <= i < |bases| && HeldOnlyFrom(repo, name, bases, i) && rel == Place(bases[i], name)
            case None => forall i :: 0 <= i < |bases| ==> Place(bases[i], name) !in repo
  {
    if bases != [] {
      if Place(bases[0], name) in repo {
        assert HeldOnlyFrom(repo, name, bases, 0);
      } else {
        LocateIsFirst(repo, name, bases[1..]);
        if LocateIn(repo, name, bases[1..]).Some? {
          var i :| 0 <= i < |bases[1..]| && HeldOnlyFrom(repo, name, bases[1..], i)
                   && LocateIn(repo, name, bases) == Some(Place(bases[1..][i], name));
          forall j | 0 <= j < i + 1 ensures Place(bases[j], name) !in repo {
            assert j == 0 || bases[j] == bases[1..][j - 1];
          }
          assert HeldOnlyFrom(repo, name, bases, i + 1);
        }
      }
    }
  }

  /** packages/, then services/, then apps/. */
  lemma {:induction false} LocateExactly(repo: Repo, name: string)
    ensures Locate(repo, name) ==
              if "packages/" + name in repo then Some("packages/" + name)
              else if "services/" + name in repo then Some("services/" + name)
              else if "apps/" + name in repo then Some("apps/" + name)
              else None
  {
    assert BASES[0] == "packages" && BASES[1..][0] == "services" && BASES[1..][1..][0] == "apps";
    assert BASES[1..][1..][1..] == [];
    assert "packages/" + name == Place("packages", name);
    assert "services/" + name == Place("services", name);
    assert "apps/" + name == Place("apps", name);
    var after1 := LocateIn(repo, name, BASES[1..]);
    var after2 := LocateIn(repo, name, BASES[1..][1..]);
    assert LocateIn(repo, name, BASES[1..][1..][1..]).None?;
  }

  method TryLocateRepoPackage(repo: Repo, name: string) returns (r: Option<Rel>)
    ensures r == Locate(repo, name)
  {
    for i := 0 to |BASES|
      invariant Locate(repo, name) == LocateIn(repo, name, BASES[i..])
    {
      var rel := Place(BASES[i], name);
      if rel in repo { return Some(rel); }
    }
    return None;
  }

  // ---------------------------------------------------------------------------------------------
  // The dependency graph
  // ---------------------------------------------------------------------------------------------

  function Keys(deps: Option<seq<string>>): seq<string> {
    match deps case None => [] case Some(names) => Extend([], names)
  }

  /** Keys of `{ ...dependencies, ...devDependencies }`, in insertion order. */
  function DependencyNames(m: File): seq<string> {
    if m.Malformed? then [] else Extend(Keys(m.dependencies), Keys(m.devDependencies))
  }

  /** Where an internal dependency is located; nothing for an external or an unknown one. */
  function Target(repo: Repo, dep: string): (r: seq<Rel>)
    ensures forall x :: x in r ==> x in repo
  {
    if SCOPE <= dep then
      match Locate(repo, dep[|SCOPE|..]) case Some(rel) => [rel] case None => []
    else []
  }

  function Targets(repo: Repo, deps: seq<string>): (r: seq<Rel>)
    ensures forall x :: x in r ==> x in repo
  {
    if deps == [] then [] else Targets(repo, deps[..|deps| - 1]) + Target(repo, deps[|deps| - 1])
  }

  function Successors(repo: Repo, rel: Rel): (r: seq<Rel>)
    ensures forall x :: x in r ==> x in repo
  {
    if rel in repo then Targets(repo, DependencyNames(repo[rel])) else []
  }

  lemma {:induction false} TargetsOf(repo: Repo, deps: seq<string>, x: Rel)
    ensures x in Targets(repo, deps) <==> exists dep :: dep in deps && x in Target(repo, dep)
  {
    if deps != [] {
      var init, last := deps[..|deps| - 1], deps[|deps| - 1];
      assert deps == init + [last];
      TargetsOf(repo, init, x);
    }
  }

  ghost predicate Names(deps: Option<seq<string>>, dep: string) { deps.Some? && dep in deps.value }

  /** A package leads to another exactly when either dependency set of its manifest names an internal package located there. */
  lemma {:induction false} SuccessorsExact(repo: Repo, rel: Rel, x: Rel)
    ensures x in Successors(repo, rel) <==>
              rel in repo && repo[rel].Manifest? &&
              exists name :: Locate(repo, name) == Some(x) &&
                (Names(repo[rel].dependencies, "@vedmoulya/" + name) || Names(repo[rel].devDependencies, "@vedmoulya/" + name))
  {
    if rel in repo && repo[rel].Manifest? {
      var deps := DependencyNames(repo[rel]);
      TargetsOf(repo, deps, x);
      if x in Successors(repo, rel) {
        var dep :| dep in deps && x in Target(repo, dep);
        assert dep == "@vedmoulya/" + dep[|SCOPE|..];
        assert Locate(repo, dep[|SCOPE|..]) == Some(x);
      }
      forall name | Locate(repo, name) == Some(x) && "@vedmoulya/" + name in deps ensures x in Successors(repo, rel) {
        assert ("@vedmoulya/" + name)[|SCOPE|..] == name;
        assert x in Target(repo, "@vedmoulya/" + name);
      }
    }
  }

  /** `dependencies` come before `devDependencies`, each in its own order, and a name in both counts once. */
  lemma {:induction false} DependencyOrder(m: File, d: seq<string>, v: seq<string>)
    requires m.Manifest? && m.dependencies == Some(d) && m.devDependencies == Some(v) && NoDup(d) && NoDup(v)
    ensures d <= DependencyNames(m) && NoDup(DependencyNames(m))
    ensures forall x :: x in DependencyNames(m) <==> x in d || x in v
    ensures forall i, j :: 0 <= i < j < |v| && v[i] !in d && v[j] !in d ==> Precedes(DependencyNames(m), v[i], v[j])
  {
    ExtendNothing(d);
    ExtendNothing(v);
    ExtendNoDup(d, v);
    forall i, j | 0 <= i < j < |v| && v[i] !in d && v[j] !in d ensures Precedes(DependencyNames(m), v[i], v[j]) {
      ExtendOrder(d, v, i, j);
    }
  }

  /** The targets of a list of dependencies are those of its parts, in the same order. */
  lemma {:induction false} TargetsInOrder(repo: Repo, a: seq<string>, b: seq<string>)
    ensures Targets(repo, a + b) == Targets(repo, a) + Targets(repo, b)
    decreases |b|
  {
    if b == [] {
      assert a + b == a;
    } else {
      assert (a + b)[..|a + b| - 1] == a + b[..|b| - 1];
      TargetsInOrder(repo, a, b[..|b| - 1]);
    }
  }

  function Dependencies(repo: Repo): Graph<Rel> { rel => Successors(repo, rel) }

  function Roots(repo: Repo, audited: seq<string>): (r: seq<Rel>)
    ensures forall x :: x in r ==> x in repo
  {
    if audited == [] then []
    else Roots(repo, audited[..|audited| - 1]) +
         match Locate(repo, audited[|audited| - 1]) case Some(rel) => [rel] case None => []
  }

  ghost predicate AllLocated(repo: Repo, audited: seq<string>) {
    forall i :: 0 <= i < |audited| ==> Locate(repo, audited[i]).Some?
  }

  /** No manifest that the audited packages lead to is malformed. */
  ghost predicate AllReadable(repo: Repo, audited: seq<string>) {
    forall x :: x in repo && Reachable(Dependencies(repo), Roots(repo, audited), x) ==> repo[x].Manifest?
  }

  // ---------------------------------------------------------------------------------------------
  // The worklist
  // ---------------------------------------------------------------------------------------------

  /** The inner loop: located dependencies not seen before join the queue, in order. */
  method EnqueueDependencies(repo: Repo, deps: seq<string>, queue0: seq<Rel>, seen0: set<Rel>, ghost closure: seq<Rel>)
    returns (queue: seq<Rel>, seen: set<Rel>)
    requires forall x :: x in seen0 <==> x in closure || x in queue0
    requires seen0 <= repo.Keys
    ensures closure + queue == Extend(closure + queue0, Targets(repo, deps))
    ensures forall x :: x in seen <==> x in closure || x in queue
    ensures seen0 <= seen <= repo.Keys
    ensures (queue == queue0 && seen == seen0) || repo.Keys - seen < repo.Keys - seen0
  {
    queue, seen := queue0, seen0;
    ghost var listed := closure + queue0;
    for i := 0 to |deps|
      invariant closure + queue == Extend(listed, Targets(repo, deps[..i]))
      invariant forall x :: x in seen <==> x in closure || x in queue
      invariant seen0 <= seen <= repo.Keys
      invariant (queue == queue0 && seen == seen0) || seen0 < seen
    {
      assert deps[..i + 1][..i] == deps[..i];
      ExtendConcat(listed, Targets(repo, deps[..i]), Target(repo, deps[i]));
      if !(SCOPE <= deps[i]) { continue; }
      var depRel := TryLocateRepoPackage(repo, deps[i][|SCOPE|..]);
      if depRel.None? || depRel.value in seen { continue; }
      ConcatAssoc(closure, queue, [depRel.value]);
      seen := seen + {depRel.value};
      queue := queue + [depRel.value];
    }
    assert deps[..|deps|] == deps;
    if seen0 < seen { FewerLeft(repo.Keys, seen0, seen); }
  }

  method LocateRoots(repo: Repo, audited: seq<string>) returns (r: Result<seq<Rel>>)
    ensures r.Ok? <==> AllLocated(repo, audited)
    ensures r.Ok? ==> r.value == Roots(repo, audited)
    ensures r.Err? ==> exists i :: 0 <= i < |audited| && r.error == CannotLocate(audited[i])
                                   && Locate(repo, audited[i]).None? && AllLocated(repo, audited[..i])
  {
    var queue := [];
    for i := 0 to |audited|
      invariant AllLocated(repo, audited[..i])
      invariant queue == Roots(repo, audited[..i])
    {
      var rel := TryLocateRepoPackage(repo, audited[i]);
      assert audited[..i + 1][..i] == audited[..i];
      if rel.None? { return Err(CannotLocate(audited[i])); }
      queue := queue + [rel.value];
    }
    assert audited[..|audited|] == audited;
    return Ok(queue);
  }

  method DependencyClosure(repo: Repo, audited: seq<string>) returns (r: Result<seq<Rel>>)
    ensures r.Ok? <==> AllLocated(repo, audited) && AllReadable(repo, audited)
    ensures r.Ok? ==> IsClosure(Dependencies(repo), Roots(repo, audited), r.value)
                      && forall x :: x in r.value ==> x in repo && repo[x].Manifest?
    ensures r.Err? ==> if AllLocated(repo, audited)
                       then r.error.BadManifest? && r.error.rel in repo && repo[r.error.rel].Malformed?
                            && Reachable(Dependencies(repo), Roots(repo, audited), r.error.rel)
                       else exists i :: 0 <= i < |audited| && r.error == CannotLocate(audited[i])
                                        && Locate(repo, audited[i]).None? && AllLocated(repo, audited[..i])
  {
    var located := LocateRoots(repo, audited);
    if located.Err? { return located; }
    var closure, queue, seen := [], located.value, set x | x in located.value;
    ghost var g, roots := Dependencies(repo), queue;
    assert forall x :: Within(g, roots, x, 0) <==> x in roots;
    while |queue| > 0
      invariant closure + queue == Extend(roots, AllSuccessors(g, closure))
      invariant forall x :: x in seen <==> x in closure || x in queue
      invariant forall x :: x in closure || x in queue ==> x in repo && Reachable(g, roots, x)
      invariant forall x :: x in closure ==> repo[x].Manifest?
      invariant Grounded(g, roots, closure)
      decreases repo.Keys - seen, |queue|
    {
      var rel := queue[0];
      ghost var before, listed := closure, closure + queue;
      ShiftHead(closure, queue);
      queue := queue[1..];
      closure := closure + [rel];
      if repo[rel].Malformed? { return Err(BadManifest(rel)); }
      queue, seen := EnqueueDependencies(repo, DependencyNames(repo[rel]), queue, seen, closure);
      AppendGrounded(g, roots, before, rel);
      AppendSuccessors(g, roots, before, rel);
      forall x | x in closure + queue && x !in listed ensures x in repo && Reachable(g, roots, x) {
        ReachableStep(g, roots, rel, x);
      }
    }
    assert closure + queue == closure;
    ClosureIsReachable(g, roots, closure);
    return Ok(closure);
  }

  /** With distinct audited names the closure repeats nothing, so the loop runs at most once per package. */
  lemma {:induction false} ClosureIsBounded(repo: Repo, audited: seq<string>, l: seq<Rel>)
    requires NoDup(audited) && AllLocated(repo, audited)
    requires IsClosure(Dependencies(repo), Roots(repo, audited), l)
    ensures NoDup(l) && |l| <= |repo|
  {
    RootsDistinct(repo, audited);
    ClosureIsReachable(Dependencies(repo), Roots(repo, audited), l);
    forall x | x in l ensures x in repo.Keys { ListedInRepo(repo, audited, l, x); }
    NoDupBound(l, repo.Keys);
  }

  lemma FourDistinct(a: string, b: string, c: string, d: string)
    requires a == "mission-runtime" && b == "mission-controller" && c == "planning" && d == "agent-execution"
    ensures NoDup([a, b, c, d])
  {
    assert a[8] == 'r' && b[8] == 'c' && c[0] == 'p' && d[0] == 'a';
  }

  /** The four audited packages in particular. */
  lemma {:induction false} AuditedClosureIsBounded(repo: Repo, audited: seq<string>, l: seq<Rel>)
    requires audited == ["mission-runtime", "mission-controller", "planning", "agent-execution"]
    requires AllLocated(repo, audited) && IsClosure(Dependencies(repo), Roots(repo, audited), l)
    ensures NoDup(l) && |l| <= |repo|
  {
    FourDistinct(audited[0], audited[1], audited[2], audited[3]);
    ClosureIsBounded(repo, audited, l);
  }

  lemma {:induction false} ListedInRepo(repo: Repo, audited: seq<string>, l: seq<Rel>, x: Rel)
    requires IsClosure(Dependencies(repo), Roots(repo, audited), l) && x in l
    ensures x in repo
  {
    if x !in Roots(repo, audited) {
      assert x in AllSuccessors(Dependencies(repo), l);
      AllSuccessorsOf(Dependencies(repo), l, x);
    }
  }

  lemma {:induction false} RootsAt(repo: Repo, audited: seq<string>)
    requires AllLocated(repo, audited)
    ensures |Roots(repo, audited)| == |audited|
    ensures forall i :: 0 <= i < |audited| ==> Locate(repo, audited[i]) == Some(Roots(repo, audited)[i])
  {
    if audited != [] {
      var init := audited[..|audited| - 1];
      assert forall i :: 0 <= i < |init| ==> init[i] == audited[i];
      RootsAt(repo, init);
    }
  }

  /** Distinct names are located in distinct directories, because no base is a prefix of another. */
  lemma RootsDistinct(repo: Repo, audited: seq<string>)
    requires AllLocated(repo, audited) && NoDup(audited)
    ensures NoDup(Roots(repo, audited))
  {
    RootsAt(repo, audited);
    var roots := Roots(repo, audited);
    forall i, j | 0 <= i < j < |roots| ensures roots[i] != roots[j] {
      LocatedNameIsUnique(repo, audited[i], audited[j]);
    }
  }

  lemma LocatedNameIsUnique(repo: Repo, name: string, other: string)
    requires Locate(repo, name).Some? && Locate(repo, other).Some?
    ensures Locate(repo, name) == Locate(repo, other) <==> name == other
  {
    LocateIsFirst(repo, name, BASES);
    LocateIsFirst(repo, other, BASES);
    var i :| 0 <= i < |BASES| && Locate(repo, name) == Some(Place(BASES[i], name));
    var j :| 0 <= j < |BASES| && Locate(repo, other) == Some(Place(BASES[j], other));
    if Locate(repo, name) == Locate(repo, other) {
      PlaceInjective(i, name, j, other);
    }
  }

  lemma PlaceInjective(i: nat, name: string, j: nat, other: string)
    requires i < |BASES| && j < |BASES| && Place(BASES[i], name) == Place(BASES[j], other)
    ensures i == j && name == other
  {
    var p := Place(BASES[i], name);
    assert p[0] == BASES[i][0] == BASES[j][0];
    assert i == j;
    assert name == p[|BASES[i]| + 1..] == other;
  }

  // ---------------------------------------------------------------------------------------------
  // The snapshot
  // ---------------------------------------------------------------------------------------------

  function Snapshot(repo: Repo, listed: seq<Rel>): Repo {
    map rel | rel in listed && rel in repo :: repo[rel]
  }

  lemma {:induction false} LocateInSnapshot(repo: Repo, listed: seq<Rel>, name: string, bases: seq<string>)
    requires LocateIn(repo, name, bases).Some? ==> LocateIn(repo, name, bases).value in listed
    ensures LocateIn(Snapshot(repo, listed), name, bases) == LocateIn(repo, name, bases)
  {
    if bases != [] && Place(bases[0], name) !in repo {
      LocateInSnapshot(repo, listed, name, bases[1..]);
    }
  }

  lemma {:induction false} TargetsInSnapshot(repo: Repo, listed: seq<Rel>, deps: seq<string>)
    requires forall x :: x in Targets(repo, deps) ==> x in listed
    ensures Targets(Snapshot(repo, listed), deps) == Targets(repo, deps)
  {
    if deps != [] {
      var dep := deps[|deps| - 1];
      assert forall x :: x in Target(repo, dep) ==> x in Targets(repo, deps);
      if SCOPE <= dep {
        var name := dep[|SCOPE|..];
        if Locate(repo, name).Some? { assert Locate(repo, name).value in Target(repo, dep); }
        LocateInSnapshot(repo, listed, name, BASES);
      }
      TargetsInSnapshot(repo, listed, deps[..|deps| - 1]);
    }
  }

  lemma {:induction false} RootInSnapshot(repo: Repo, listed: seq<Rel>, name: string)
    requires Locate(repo, name).Some? && Locate(repo, name).value in listed
    ensures Locate(Snapshot(repo, listed), name) == Locate(repo, name)
  {
    LocateInSnapshot(repo, listed, name, BASES);
  }

  lemma {:induction false} RootsInSnapshot(repo: Repo, listed: seq<Rel>, audited: seq<string>)
    requires AllLocated(repo, audited)
    requires forall x :: x in Roots(repo, audited) ==> x in listed
    ensures Roots(Snapshot(repo, listed), audited) == Roots(repo, audited)
  {
    if audited != [] {
      var init, last := audited[..|audited| - 1], audited[|audited| - 1];
      assert forall i :: 0 <= i < |init| ==> init[i] == audited[i];
      RootsInSnapshot(repo, listed, init);
      assert Locate(repo, last).value in Roots(repo, audited);
      RootInSnapshot(repo, listed, last);
    }
  }

  lemma {:induction false} LocatedInSnapshot(repo: Repo, listed: seq<Rel>, audited: seq<string>)
    requires AllLocated(repo, audited)
    requires forall x :: x in Roots(repo, audited) ==> x in listed
    ensures AllLocated(Snapshot(repo, listed), audited)
  {
    RootsAt(repo, audited);
    forall i | 0 <= i < |audited| ensures Locate(Snapshot(repo, listed), audited[i]).Some? {
      assert Locate(repo, audited[i]) == Some(Roots(repo, audited)[i]);
      assert Roots(repo, audited)[i] in listed;
      RootInSnapshot(repo, listed, audited[i]);
    }
  }

  /** Coherence: a copied manifest leads to the same directories inside the snapshot as in the repository. */
  lemma {:induction false} SnapshotCoherent(repo: Repo, audited: seq<string>, l: seq<Rel>, rel: Rel)
    requires IsClosure(Dependencies(repo), Roots(repo, audited), l) && rel in l
    ensures Successors(Snapshot(repo, l), rel) == Successors(repo, rel)
  {
    ListedInRepo(repo, audited, l, rel);
    forall x | x in Targets(repo, DependencyNames(repo[rel])) ensures x in l {
      AllSuccessorsOf(Dependencies(repo), l, x);
    }
    TargetsInSnapshot(repo, l, DependencyNames(repo[rel]));
  }

  /** A list that is a closure in one graph is one in any graph that agrees on its entries. */
  lemma {:induction false} ClosureInAgreeing(g: Graph<Rel>, h: Graph<Rel>, roots: seq<Rel>, l: seq<Rel>)
    requires IsClosure(g, roots, l) && forall x :: x in l ==> h(x) == g(x)
    ensures IsClosure(h, roots, l)
  {
    AllSuccessorsAgree(h, g, l);
    forall k | 0 <= k < |l| ensures l[k] in roots || l[k] in AllSuccessors(h, l[..k]) {
      AllSuccessorsAgree(h, g, l[..k]);
    }
  }

  lemma {:induction false} ClosureInSnapshot(repo: Repo, audited: seq<string>, l: seq<Rel>)
    requires AllLocated(repo, audited) && IsClosure(Dependencies(repo), Roots(repo, audited), l)
    ensures AllLocated(Snapshot(repo, l), audited)
    ensures IsClosure(Dependencies(Snapshot(repo, l)), Roots(Snapshot(repo, l), audited), l)
  {
    RootsInSnapshot(repo, l, audited);
    LocatedInSnapshot(repo, l, audited);
    forall x | x in l ensures Dependencies(Snapshot(repo, l))(x) == Dependencies(repo)(x) {
      SnapshotCoherent(repo, audited, l, x);
    }
    ClosureInAgreeing(Dependencies(repo), Dependencies(Snapshot(repo, l)), Roots(repo, audited), l);
  }

  /** Seeding is a fixpoint: the closure of the snapshot is the closure of the repository, in the same order. */
  lemma {:induction false} SeedingIsFixpoint(repo: Repo, audited: seq<string>, l: seq<Rel>, again: seq<Rel>)
    requires AllLocated(repo, audited) && IsClosure(Dependencies(repo), Roots(repo, audited), l)
    requires IsClosure(Dependencies(Snapshot(repo, l)), Roots(Snapshot(repo, l), audited), again)
    ensures again == l
    ensures Snapshot(Snapshot(repo, l), again) == Snapshot(repo, l)
  {
    ClosureInSnapshot(repo, audited, l);
    ClosureIsUnique(Dependencies(Snapshot(repo, l)), Roots(Snapshot(repo, l), audited), l, again);
  }

  // ---------------------------------------------------------------------------------------------
  // The workspace
  // ---------------------------------------------------------------------------------------------

  ghost predicate AllUnderPackages(repo: Repo, audited: seq<string>) {
    forall i :: 0 <= i < |audited| ==> Place("packages", audited[i]) in repo
  }

  function Gap(field: Option<string>, message: string): seq<string> {
    if field in {None, Some("")} then [message] else []
  }

  /** What the report says about one manifest; an empty name or version counts as a gap but is shown as it is. */
  function FactsOf(m: File): Facts
    requires m.Manifest?
  {
    Facts(if m.name.Some? then m.name.value else "(unnamed)",
          if m.version.Some? then m.version.value else "(unversioned)",
          |Keys(m.dependencies)|,
          Gap(m.name, "missing name") + Gap(m.version, "missing version"))
  }

  ghost predicate Lacks(field: Option<string>) { field.None? || field.value == "" }

  /** Which of name and version are absent or empty, name first. */
  ghost predicate DescribesGaps(gaps: seq<string>, m: File)
    requires m.Manifest?
  {
    && ("missing name" in gaps <==> Lacks(m.name))
    && ("missing version" in gaps <==> Lacks(m.version))
    && (forall g :: g in gaps ==> g == "missing name" || g == "missing version")
    && |gaps| <= 2
    && (|gaps| == 2 ==> gaps[0] == "missing name" && gaps[1] == "missing version")
  }

  /**
   The facts of a manifest: its own name and version or a placeholder, the number of different names in
   `dependencies` alone, and the gaps.
   */
  ghost predicate Describes(f: Facts, m: File)
    requires m.Manifest?
  {
    && (match m.name case Some(name) => f.name == name case None => f.name == "(unnamed)")
    && (match m.version case Some(version) => f.version == version case None => f.version == "(unversioned)")
    && (match m.dependencies case Some(deps) => f.depCount == |set d | d in deps| case None => f.depCount == 0)
    && DescribesGaps(f.gaps, m)
  }

  lemma GapOf(field: Option<string>, message: string)
    ensures Gap(field, message) == if Lacks(field) then [message] else []
  {
  }

  lemma {:induction false} GapsDescribe(m: File)
    requires m.Manifest?
    ensures DescribesGaps(Gap(m.name, "missing name") + Gap(m.version, "missing version"), m)
  {
    GapOf(m.name, "missing name");
    GapOf(m.version, "missing version");
    assert "missing name"[8] != "missing version"[8];
  }

  lemma {:induction false} KeyCount(deps: seq<string>)
    ensures |Keys(Some(deps))| == |set d | d in deps|
  {
    ExtendNoDup([], deps);
    NoDupSize(Extend([], deps));
    assert (set d | d in Extend([], deps)) == set d | d in deps;
  }

  lemma {:induction false} FactsDescribe(m: File)
    requires m.Manifest?
    ensures Describes(FactsOf(m), m)
  {
    GapsDescribe(m);
    if m.dependencies.Some? { KeyCount(m.dependencies.value); }
  }

  ghost predicate AreFacts(repo: Repo, audited: seq<string>, facts: seq<Facts>) {
    |facts| == |audited|
    && forall i :: 0 <= i < |audited| ==>
         var rel := "packages/" + audited[i];
         rel in repo && repo[rel].Manifest? && Describes(facts[i], repo[rel])
  }

  /** packages/ is looked at first, so whatever is there is where the package is located. */
  lemma {:induction false} UnderPackagesAreRoots(repo: Repo, audited: seq<string>)
    ensures AllUnderPackages(repo, audited) ==> AllLocated(repo, audited)
    ensures forall i :: 0 <= i < |audited| && Place("packages", audited[i]) in repo ==>
              Place("packages", audited[i]) in Roots(repo, audited)
  {
    assert BASES[0] == "packages";
    if audited != [] {
      var init := audited[..|audited| - 1];
      assert forall i :: 0 <= i < |init| ==> init[i] == audited[i];
      UnderPackagesAreRoots(repo, init);
      forall i | 0 <= i < |audited| && Place("packages", audited[i]) in repo
        ensures Place("packages", audited[i]) in Roots(repo, audited)
      {
        if i < |init| { assert Place("packages", init[i]) in Roots(repo, init); }
      }
    }
  }

  /** An audited package that is found under services/ alone: located, readable, and yet the seeding fails. */
  lemma {:induction false} LocatedElsewhere(name: string, m: File)
    requires m.Manifest?
    ensures var repo := map[Place("services", name) := m];
      && Locate(repo, name) == Some(Place("services", name))
      && AllLocated(repo, [name]) && AllReadable(repo, [name]) && !AllUnderPackages(repo, [name])
  {
    var repo := map[Place("services", name) := m];
    assert Place("packages", name)[0] != Place("services", name)[0];
    assert BASES[1..][0] == "services";
    assert LocateIn(repo, name, BASES) == LocateIn(repo, name, BASES[1..]);
    assert Place("packages", [name][0]) !in repo;
  }

  lemma OneMoreFact(files: Repo, audited: seq<string>, i: nat, facts: seq<Facts>)
    requires i < |audited| && AllUnderPackages(files, audited[..i]) && AreFacts(files, audited[..i], facts)
    requires Place("packages", audited[i]) in files && files[Place("packages", audited[i])].Manifest?
    ensures AllUnderPackages(files, audited[..i + 1])
    ensures AreFacts(files, audited[..i + 1], facts + [FactsOf(files[Place("packages", audited[i])])])
  {
    FactsDescribe(files[Place("packages", audited[i])]);
    assert "packages/" + audited[i] == Place("packages", audited[i]);
    var more := audited[..i + 1];
    assert forall k :: 0 <= k < i ==> more[k] == audited[..i][k];
  }

  class AuthorizedWorkspace {
    var files: Repo

    /**
     Whatever the workspace held before is gone. The seeding succeeds exactly when every audited package
     lives under packages/ and no manifest it leads to is malformed; an audited package found under
     services/ or apps/ is located and copied, but its facts are then looked for under packages/.
     */
    method SeedWorkspace(repo: Repo, audited: seq<string>) returns (r: Result<seq<Facts>>, ghost closure: seq<Rel>)
      modifies this
      ensures r.Ok? <==> AllUnderPackages(repo, audited) && AllReadable(repo, audited)
      ensures r.Ok? ==> AreFacts(repo, audited, r.value)
      ensures AllLocated(repo, audited) && AllReadable(repo, audited) ==>
        IsClosure(Dependencies(repo), Roots(repo, audited), closure) && files == Snapshot(repo, closure)
        && (forall x :: x in files <==> x in closure) && forall x :: x in files ==> x in repo && files[x] == repo[x]
      ensures !(AllLocated(repo, audited) && AllReadable(repo, audited)) ==>
        files == map[] && r.Err? && !r.error.MissingFile?
      ensures r.Err? && r.error.MissingFile? ==>
        exists i :: 0 <= i < |audited| && r.error.rel == Place("packages", audited[i]) && r.error.rel !in repo
    {
      files := map[];
      closure := [];
      UnderPackagesAreRoots(repo, audited);
      var listed := DependencyClosure(repo, audited);
      if listed.Err? { return Err(listed.error), []; }
      closure := listed.value;
      CopyManifests(repo, listed.value);
      assert forall x :: x in Roots(repo, audited) ==> x in closure;
      r := Report(audited);
    }

    method CopyManifests(repo: Repo, listed: seq<Rel>)
      requires files == map[] && forall x :: x in listed ==> x in repo
      modifies this
      ensures files == Snapshot(repo, listed)
    {
      for i := 0 to |listed|
        invariant files == Snapshot(repo, listed[..i])
      {
        assert listed[..i + 1] == listed[..i] + [listed[i]];
        files := files[listed[i] := repo[listed[i]]];
      }
      assert listed[..|listed|] == listed;
    }

    method Report(audited: seq<string>) returns (r: Result<seq<Facts>>)
      requires forall x :: x in files ==> files[x].Manifest?
      ensures r.Ok? <==> AllUnderPackages(files, audited)
      ensures r.Ok? ==> AreFacts(files, audited, r.value)
      ensures r.Err? ==> r.error.MissingFile? && exists i :: 0 <= i < |audited| && r.error.rel == Place("packages", audited[i])
                                                            && r.error.rel !in files
    {
      var facts := [];
      for i := 0 to |audited|
        invariant AllUnderPackages(files, audited[..i])
        invariant AreFacts(files, audited[..i], facts)
      {
        var rel := Place("packages", audited[i]);
        if rel !in files { return Err(MissingFile(rel)); }
        OneMoreFact(files, audited, i, facts);
        facts := facts + [FactsOf(files[rel])];
      }
      assert audited[..|audited|] == audited;
      return Ok(facts);
    }
  }
}
