/**
 Two listings of a directory tree (scripts/benchmark-project-report.ts, scripts/live-mission-acceptance.ts):
 one without bound that returns each directory's files, one bounded in depth that pushes into one list.
 */
module DirectoryWalkers {
  import opened Sequences

  type Path = seq<string>

  datatype Node = File | Dir(entries: seq<Entry>)

  /** One item of `readdir`. */
  datatype Entry = Entry(name: string, node: Node)

  predicate IsDot(name: string) { name in {".", ".."} }

  // ---------------------------------------------------------------------------------------------
  // The unbounded listing
  // ---------------------------------------------------------------------------------------------

  /** The files below a directory at `dir` that holds `entries`, depth first in directory order. */
  function AllFiles(dir: Path, entries: seq<Entry>): seq<Path>
    decreases entries
  {
    if entries == [] then []
    else (if IsDot(entries[0].name) then [] else FilesOf(dir, entries[0])) + AllFiles(dir, entries[1..])
  }

  function FilesOf(dir: Path, e: Entry): seq<Path>
    decreases e
  {
    match e.node case File => [dir + [e.name]] case Dir(below) => AllFiles(dir + [e.name], below)
  }

  /** A path that is not a directory, or not there, has no files: the failing `readdir` is caught. */
  method WalkFiles(dir: Path, root: Option<Node>) returns (out: seq<Path>)
    ensures out == if root.Some? && root.value.Dir? then AllFiles(dir, root.value.entries) else []
    decreases if root.Some? && root.value.Dir? then root.value.entries else []
  {
    out := [];
    if root.None? || root.value.File? { return; }
    var entries := root.value.entries;
    for i := 0 to |entries|
      invariant out + AllFiles(dir, entries[i..]) == AllFiles(dir, entries)
    {
      var e := entries[i];
      ghost var rest := AllFiles(dir, entries[i + 1..]);
      assert entries[i..][1..] == entries[i + 1..];
      if IsDot(e.name) { continue; }
      var p := dir + [e.name];
      if e.node.Dir? {
        var below := WalkFiles(p, Some(e.node));
        ConcatAssoc(out, below, rest);
        out := out + below;
      } else {
        ConcatAssoc(out, [p], rest);
        out := out + [p];
      }
    }
  }

  // ---------------------------------------------------------------------------------------------
  // The bounded listing
  // ---------------------------------------------------------------------------------------------

  function BoundedFiles(rel: Path, entries: seq<Entry>, depth: nat): seq<Path>
    decreases entries
  {
    if depth > 4 || entries == [] then []
    else
      var e := entries[0];
      (match e.node case File => [rel + [e.name]] case Dir(below) => BoundedFiles(rel + [e.name], below, depth + 1))
      + BoundedFiles(rel, entries[1..], depth)
  }

  class Listing {
    var out: seq<Path>

    constructor ()
      ensures out == []
    {
      out := [];
    }

    method Walk(rel: Path, entries: seq<Entry>, depth: nat)
      modifies this
      ensures out == old(out) + BoundedFiles(rel, entries, depth)
      decreases entries
    {
      if depth > 4 { return; }
      for i := 0 to |entries|
        invariant out + BoundedFiles(rel, entries[i..], depth) == old(out) + BoundedFiles(rel, entries, depth)
      {
        var e := entries[i];
        ghost var before, rest := out, BoundedFiles(rel, entries[i + 1..], depth);
        assert entries[i..][1..] == entries[i + 1..];
        var full := rel + [e.name];
        if e.node.Dir? {
          Walk(full, e.node.entries, depth + 1);
          ConcatAssoc(before, BoundedFiles(full, e.node.entries, depth + 1), rest);
        } else {
          out := out + [full];
          ConcatAssoc(before, [full], rest);
        }
      }
    }
  }

  /** A root that is not there is empty; listing a root that is a file throws (`None`). */
  method WorkspaceFiles(root: Option<Node>) returns (files: Option<seq<Path>>)
    ensures files == match root
                     case None => Some([])
                     case Some(File) => None
                     case Some(Dir(entries)) => Some(BoundedFiles([], entries, 0))
  {
    if root.None? { return Some([]); }
    if root.value.File? { return None; }
    var listing := new Listing();
    listing.Walk([], root.value.entries, 0);
    assert [] + BoundedFiles([], root.value.entries, 0) == BoundedFiles([], root.value.entries, 0);
    return Some(listing.out);
  }

  // ---------------------------------------------------------------------------------------------
  // How the two relate
  // ---------------------------------------------------------------------------------------------

  /** No directory lists itself, its parent, or a name twice. */
  ghost predicate WellFormed(entries: seq<Entry>)
    decreases entries
  {
    entries != [] ==>
      && !IsDot(entries[0].name)
      && (forall i :: 0 < i < |entries| ==> entries[i].name != entries[0].name)
      && (entries[0].node.Dir? ==> WellFormed(entries[0].node.entries))
      && WellFormed(entries[1..])
  }

  function AtMost(n: nat, paths: seq<Path>): seq<Path> {
    if paths == [] then []
    else (if |paths[0]| <= n then [paths[0]] else []) + AtMost(n, paths[1..])
  }

  function Under(root: Path, paths: seq<Path>): seq<Path> {
    if paths == [] then [] else [root + paths[0]] + Under(root, paths[1..])
  }

  lemma {:induction false} AtMostConcat(n: nat, a: seq<Path>, b: seq<Path>)
    ensures AtMost(n, a + b) == AtMost(n, a) + AtMost(n, b)
  {
    if a == [] {
      assert a + b == b;
    } else {
      assert (a + b)[1..] == a[1..] + b;
      AtMostConcat(n, a[1..], b);
    }
  }

  lemma {:induction false} UnderConcat(root: Path, a: seq<Path>, b: seq<Path>)
    ensures Under(root, a + b) == Under(root, a) + Under(root, b)
  {
    if a == [] {
      assert a + b == b;
    } else {
      assert (a + b)[1..] == a[1..] + b;
      UnderConcat(root, a[1..], b);
    }
  }

  lemma {:induction false} AtMostNone(n: nat, paths: seq<Path>)
    requires forall p :: p in paths ==> |p| > n
    ensures AtMost(n, paths) == []
  {
    if paths != [] {
      assert paths[0] in paths;
      AtMostNone(n, paths[1..]);
    }
  }

  /** What is listed below a directory starts with its path and goes on. */
  lemma {:induction false} FilesAreBelow(dir: Path, entries: seq<Entry>, p: Path)
    requires p in AllFiles(dir, entries)
    ensures dir < p
    decreases entries
  {
    if p in AllFiles(dir, entries[1..]) {
      FilesAreBelow(dir, entries[1..], p);
    } else {
      FilesStartWith(dir, entries[0], p);
    }
  }

  lemma {:induction false} FilesStartWith(dir: Path, e: Entry, p: Path)
    requires p in FilesOf(dir, e)
    ensures dir + [e.name] <= p
    decreases e
  {
    if e.node.Dir? { FilesAreBelow(dir + [e.name], e.node.entries, p); }
  }

  lemma {:induction false} BoundedIsFiltered(root: Path, rel: Path, entries: seq<Entry>)
    requires WellFormed(entries)
    ensures Under(root, BoundedFiles(rel, entries, |rel|)) == AtMost(|root| + 5, AllFiles(root + rel, entries))
    decreases entries
  {
    if |rel| > 4 {
      forall p | p in AllFiles(root + rel, entries) ensures |p| > |root| + 5 {
        FilesAreBelow(root + rel, entries, p);
      }
      AtMostNone(|root| + 5, AllFiles(root + rel, entries));
    } else if entries != [] {
      var e := entries[0];
      var first := match e.node case File => [rel + [e.name]] case Dir(below) => BoundedFiles(rel + [e.name], below, |rel| + 1);
      assert root + (rel + [e.name]) == root + rel + [e.name];
      if e.node.Dir? { BoundedIsFiltered(root, rel + [e.name], e.node.entries); }
      BoundedIsFiltered(root, rel, entries[1..]);
      UnderConcat(root, first, BoundedFiles(rel, entries[1..], |rel|));
      AtMostConcat(|root| + 5, FilesOf(root + rel, e), AllFiles(root + rel, entries[1..]));
    }
  }

  /**
   `workspaceFiles`, its relative paths put under the root again, is `walkFiles` without the files more
   than five names below the root, in the same order.
   */
  lemma ListingsAgree(root: Path, entries: seq<Entry>)
    requires WellFormed(entries)
    ensures Under(root, BoundedFiles([], entries, 0)) == AtMost(|root| + 5, AllFiles(root, entries))
  {
    assert root + [] == root;
    BoundedIsFiltered(root, [], entries);
  }

  /** `path` names a file of the tree. */
  ghost predicate IsFileAt(entries: seq<Entry>, path: Path)
    decreases |path|, 1
  {
    path != [] && exists i :: 0 <= i < |entries| && Leads(entries[i], path)
  }

  ghost predicate Leads(e: Entry, path: Path)
    requires path != []
    decreases |path|, 0
  {
    e.name == path[0] && if |path| == 1 then e.node.File? else e.node.Dir? && IsFileAt(e.node.entries, path[1..])
  }

  lemma IsFileAtSplit(entries: seq<Entry>, path: Path)
    requires entries != [] && path != []
    ensures IsFileAt(entries, path) <==> Leads(entries[0], path) || IsFileAt(entries[1..], path)
  {
    if IsFileAt(entries, path) {
      var i :| 0 <= i < |entries| && Leads(entries[i], path);
      assert i == 0 || entries[1..][i - 1] == entries[i];
    }
    if IsFileAt(entries[1..], path) {
      var i :| 0 <= i < |entries[1..]| && Leads(entries[1..][i], path);
      assert entries[i + 1] == entries[1..][i];
    }
  }

  /** The unbounded listing names exactly the files of the tree ... */
  lemma {:induction false} AllFilesExact(dir: Path, entries: seq<Entry>, path: Path)
    requires WellFormed(entries)
    ensures dir + path in AllFiles(dir, entries) <==> IsFileAt(entries, path)
    decreases entries
  {
    if path == [] {
      if dir + path in AllFiles(dir, entries) { FilesAreBelow(dir, entries, dir + path); }
    } else if entries != [] {
      FilesOfExact(dir, entries[0], path);
      AllFilesExact(dir, entries[1..], path);
      IsFileAtSplit(entries, path);
    }
  }

  lemma {:induction false} FilesOfExact(dir: Path, e: Entry, path: Path)
    requires path != [] && (e.node.Dir? ==> WellFormed(e.node.entries))
    ensures dir + path in FilesOf(dir, e) <==> Leads(e, path)
    decreases e
  {
    if dir + path in FilesOf(dir, e) {
      FilesStartWith(dir, e, dir + path);
      assert (dir + path)[|dir|] == (dir + [e.name])[|dir|];
    }
    if path[0] == e.name {
      assert dir + path == dir + [e.name] + path[1..];
      if e.node.Dir? {
        AllFilesExact(dir + [e.name], e.node.entries, path[1..]);
        assert |path| == 1 ==> path[1..] == [];
      } else {
        assert |dir + path| == |dir| + |path|;
        assert |path| == 1 ==> path[1..] == [] && dir + path == dir + [e.name];
      }
    }
  }

  lemma NoDupConcat(a: seq<Path>, b: seq<Path>)
    requires NoDup(a) && NoDup(b) && forall p :: p in a ==> p !in b
    ensures NoDup(a + b)
  {
    forall i, j | 0 <= i < j < |a + b| ensures (a + b)[i] != (a + b)[j] {
      if i < |a| <= j { assert a[i] in a && b[j - |a|] in b; }
    }
  }

  /** ... each once. */
  lemma {:induction false} AllFilesOnce(dir: Path, entries: seq<Entry>)
    requires WellFormed(entries)
    ensures NoDup(AllFiles(dir, entries))
    decreases entries
  {
    if entries != [] {
      AllFilesOnce(dir, entries[1..]);
      FilesOfOnce(dir, entries[0]);
      forall p | p in FilesOf(dir, entries[0]) ensures p !in AllFiles(dir, entries[1..]) {
        FilesStartWith(dir, entries[0], p);
        OtherStart(dir, entries[1..], p, entries[0].name);
      }
      NoDupConcat(FilesOf(dir, entries[0]), AllFiles(dir, entries[1..]));
    }
  }

  lemma {:induction false} FilesOfOnce(dir: Path, e: Entry)
    requires e.node.Dir? ==> WellFormed(e.node.entries)
    ensures NoDup(FilesOf(dir, e))
    decreases e
  {
    if e.node.Dir? { AllFilesOnce(dir + [e.name], e.node.entries); }
  }

  /** A path that goes through another name is not listed. */
  lemma {:induction false} OtherStart(dir: Path, entries: seq<Entry>, p: Path, name: string)
    requires dir + [name] <= p
    requires forall i :: 0 <= i < |entries| ==> entries[i].name != name
    ensures p !in AllFiles(dir, entries)
  {
    if entries != [] {
      OtherStart(dir, entries[1..], p, name);
      if p in FilesOf(dir, entries[0]) {
        FilesStartWith(dir, entries[0], p);
        OneStart(dir, entries[0].name, name, p);
      }
    }
  }

  lemma OneStart(dir: Path, name: string, other: string, p: Path)
    requires dir + [name] <= p && dir + [other] <= p
    ensures name == other
  {
    assert (dir + [name])[|dir|] == p[|dir|] == (dir + [other])[|dir|];
  }

  lemma {:induction false} AtMostOf(n: nat, paths: seq<Path>, p: Path)
    ensures p in AtMost(n, paths) <==> p in paths && |p| <= n
  {
    if paths != [] {
      AtMostOf(n, paths[1..], p);
      assert paths == [paths[0]] + paths[1..];
    }
  }

  lemma {:induction false} AtMostOnce(n: nat, paths: seq<Path>)
    requires NoDup(paths)
    ensures NoDup(AtMost(n, paths))
  {
    if paths != [] {
      var rest := paths[1..];
      assert forall i :: 0 <= i < |rest| ==> rest[i] == paths[i + 1] && paths[0] != paths[i + 1];
      AtMostOnce(n, rest);
      AtMostOf(n, rest, paths[0]);
      NoDupConcat(if |paths[0]| <= n then [paths[0]] else [], AtMost(n, rest));
    }
  }

  lemma {:induction false} UnderNothing(paths: seq<Path>)
    ensures Under([], paths) == paths
  {
    if paths != [] {
      UnderNothing(paths[1..]);
      assert [] + paths[0] == paths[0];
    }
  }

  /** The bounded listing names exactly the files at most five names below the root, each once. */
  lemma {:induction false} BoundedFilesExact(entries: seq<Entry>)
    requires WellFormed(entries)
    ensures forall p :: p in BoundedFiles([], entries, 0) <==> IsFileAt(entries, p) && |p| <= 5
    ensures NoDup(BoundedFiles([], entries, 0))
  {
    ListingsAgree([], entries);
    UnderNothing(BoundedFiles([], entries, 0));
    AllFilesOnce([], entries);
    AtMostOnce(5, AllFiles([], entries));
    forall p ensures p in BoundedFiles([], entries, 0) <==> IsFileAt(entries, p) && |p| <= 5 {
      AtMostOf(5, AllFiles([], entries), p);
      AllFilesExact([], entries, p);
      assert [] + p == p;
    }
  }

  /** Directory order, depth first: the listing of a directory is that of its entries one after the other. */
  lemma {:induction false} AllFilesInOrder(dir: Path, a: seq<Entry>, b: seq<Entry>)
    ensures AllFiles(dir, a + b) == AllFiles(dir, a) + AllFiles(dir, b)
  {
    if a == [] {
      assert a + b == b;
    } else {
      assert (a + b)[1..] == a[1..] + b;
      AllFilesInOrder(dir, a[1..], b);
    }
  }

  /** A file is listed under its name, a directory by what is below it, and the dot entries not at all. */
  lemma {:induction false} AllFilesOfOne(dir: Path, name: string, below: seq<Entry>)
    ensures name != "." && name != ".." ==>
              AllFiles(dir, [Entry(name, File)]) == [dir + [name]]
              && AllFiles(dir, [Entry(name, Dir(below))]) == AllFiles(dir + [name], below)
    ensures name == "." || name == ".." ==>
              AllFiles(dir, [Entry(name, File)]) == [] && AllFiles(dir, [Entry(name, Dir(below))]) == []
  {
    var e, d := Entry(name, File), Entry(name, Dir(below));
    assert AllFiles(dir, [e][1..]) == [] && AllFiles(dir, [d][1..]) == [];
    assert [e][0] == e && [d][0] == d;
  }
}
