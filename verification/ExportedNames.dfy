/** Which names a loaded program exports, read off the text of the files. */
module ExportedNames {
  import opened Graphs
  import opened Imports
  import opened LoadTrees
  import opened LoadOrder
  import opened MergedProgram
  import opened NamedImports

  // ---------------------------------------------------------------- items and their origins

  lemma {:induction false} SelectHolds(items: seq<Item>, it: Item)
    ensures it in items <==> it in Select(items, (it.file, it.index))
  {
    if items != [] {
      SelectHolds(items[1..], it);
      assert items == [items[0]] + items[1..];
    }
  }

  /** The visit as that of a root: what it carries is its program. */
  lemma AsRootVisit(files: map<Path, Source>, strict: bool, path: seq<Path>, before: seq<Path>, t: Tree)
    requires t.Fresh? && Fits(files, strict, path, before, t)
    ensures var u := Fresh(t.target, AsRoot, t.parts);
            Fits(files, strict, path, before, u) && Carried(u) == Program(t) && Files(u) == Files(t)
  {
    hide FitsAll, StepsOf;
  }

  /** The imports between a file and the target of a visit. */
  ghost function Inner(t: Tree, f: Path): seq<bool>
    requires t.Fresh?
  {
    Hops(Fresh(t.target, AsRoot, t.parts), f)
  }

  /** The copies of a statement in the program of a visit. */
  lemma ProgramHolds(files: map<Path, Source>, strict: bool, path: seq<Path>, before: seq<Path>, t: Tree, x: Origin)
    requires t.Fresh? && Fits(files, strict, path, before, t) && Distinct(Files(t))
    ensures Select(Program(t), x) ==
            if x.0 in Files(t) && IsSource(files, x) && Survives(Inner(t, x.0), StmtsOf(files, x.0)[x.1])
            then var s := StmtsOf(files, x.0)[x.1]; [Item(x.0, x.1, Peel(s, Unwraps(Inner(t, x.0), s)))]
            else []
  {
    hide Fits, Survives, Distinct, Carried, Program, Files, Hops;
    AsRootVisit(files, strict, path, before, t);
    var u := Fresh(t.target, AsRoot, t.parts);
    if x.0 in Files(t) {
      Present(files, strict, path, before, u, x);
      if IsSource(files, x) {
        PassExactly(Inner(t, x.0), OwnCopy(files, x)[0]);
      } else {
        PassNothing(Inner(t, x.0));
      }
    } else {
      Absent(files, strict, path, before, u, x);
    }
  }

  /** The statement at `x` declares the name and still carries an export marker when it gets to the
      target of the visit: it has more of them than there are imports on the way. */
  ghost predicate Brings(files: map<Path, Source>, t: Tree, x: Origin, name: string)
    requires t.Fresh?
  {
    && x.0 in Files(t) && IsSource(files, x)
    && StatementName(StmtsOf(files, x.0)[x.1]) == name
    && |Inner(t, x.0)| < Depth(StmtsOf(files, x.0)[x.1])
  }

  /** The names a loaded program exports. */
  lemma ExportsExactly(files: map<Path, Source>, strict: bool, path: seq<Path>, before: seq<Path>, t: Tree,
                       name: string)
    requires t.Fresh? && Fits(files, strict, path, before, t) && Distinct(Files(t))
    ensures Exports(Program(t), name) <==> name != "" && exists x: Origin :: Brings(files, t, x, name)
  {
    hide Fits, Distinct, Program, Files, Hops, Select, StatementName, Depth, Peel;
    var items := Program(t);
    if Exports(items, name) {
      var k :| 0 <= k < |items| && StatementName(items[k].stmt) == name && items[k].stmt.Export?;
      var it := items[k];
      var x := (it.file, it.index);
      SelectHolds(items, it);
      ProgramHolds(files, strict, path, before, t, x);
      var s := StmtsOf(files, x.0)[x.1];
      PeelOnce(s, Unwraps(Inner(t, x.0), s));
      assert Brings(files, t, x, name);
    }
    if name != "" && exists x: Origin :: Brings(files, t, x, name) {
      var x: Origin :| Brings(files, t, x, name);
      var s := StmtsOf(files, x.0)[x.1];
      ProgramHolds(files, strict, path, before, t, x);
      PeelOnce(s, Unwraps(Inner(t, x.0), s));
      var it := Item(x.0, x.1, Peel(s, Unwraps(Inner(t, x.0), s)));
      SelectHolds(items, it);
      var k :| 0 <= k < |items| && items[k] == it;
    }
  }

  // ---------------------------------------------------------------- one marker at most

  ghost predicate SingleMarkers(files: map<Path, Source>, f: Path) {
    forall k :: 0 <= k < |StmtsOf(files, f)| ==> Depth(StmtsOf(files, f)[k]) <= 1
  }

  /** The file itself has an export of that name. */
  ghost predicate ExportsItself(files: map<Path, Source>, f: Path, name: string) {
    name != "" && exists k :: 0 <= k < |StmtsOf(files, f)| &&
                    StmtsOf(files, f)[k].Export? && StatementName(StmtsOf(files, f)[k]) == name
  }

  /** A file that is loaded below has at least one import to pass. */
  lemma {:induction false} HopsBelow(ts: seq<Tree>, f: Path)
    requires f in FilesAll(ts) && forall j :: 0 <= j < |ts| && !ts[j].Own? ==> !ts[j].how.AsRoot?
    ensures |HopsAll(ts, f)| >= 1
    decreases |ts|
  {
    var n := |ts| - 1;
    if f !in Files(ts[n]) { HopsBelow(ts[..n], f); }
  }

  lemma PartsAreNoRoots(files: map<Path, Source>, t: Tree)
    requires t.Fresh? && Heads(t.parts) == StepsOf(files, t.target)
    ensures forall j :: 0 <= j < |t.parts| && !t.parts[j].Own? ==> !t.parts[j].how.AsRoot?
  {
    var stmts := StmtsOf(files, t.target);
    forall j | 0 <= j < |t.parts| && !t.parts[j].Own?
      ensures !t.parts[j].how.AsRoot?
    {
      assert Head(t.parts[j]) == Heads(t.parts)[j];
      StepSite(t.target, stmts, |stmts|, j);
    }
  }

  /** What a file imports arrives without its marker, so only its own exports count. */
  lemma ExportsDirectly(files: map<Path, Source>, strict: bool, path: seq<Path>, before: seq<Path>, t: Tree,
                        name: string)
    requires t.Fresh? && Fits(files, strict, path, before, t) && Distinct(Files(t))
    requires forall f :: f in Files(t) ==> SingleMarkers(files, f)
    ensures Exports(Program(t), name) <==> ExportsItself(files, t.target, name)
  {
    hide FitsAll, Distinct, Program, StatementName, StepsOf;
    ExportsExactly(files, strict, path, before, t, name);
    PartsAreNoRoots(files, t);
    var g := t.target;
    forall x: Origin | Brings(files, t, x, name)
      ensures x.0 == g && StmtsOf(files, g)[x.1].Export?
    {
      if x.0 != g {
        HopsBelow(t.parts, x.0);
      }
    }
    if ExportsItself(files, g, name) {
      var stmts := StmtsOf(files, g);
      var k :| 0 <= k < |stmts| && stmts[k].Export? && StatementName(stmts[k]) == name;
      assert Brings(files, t, (g, k), name);
    }
  }

  // ---------------------------------------------------------------- targets with one importer

  /** The visit in which a file was loaded fits somewhere. */
  lemma {:induction false} NodeFits(files: map<Path, Source>, path: seq<Path>, before: seq<Path>, ts: seq<Tree>,
                                    g: Path)
    returns (p: seq<Path>, b: seq<Path>)
    requires FitsAll(files, false, path, before, ts) && Distinct(FilesAll(ts)) && g in FilesAll(ts)
    ensures Fits(files, false, p, b, NodeAll(ts, g)) && Distinct(Files(NodeAll(ts, g)))
    ensures forall f :: f in Files(NodeAll(ts, g)) ==> f in FilesAll(ts)
    decreases ts
  {
    hide Distinct, StepsOf;
    var m := |ts| - 1;
    var init, t := ts[..m], ts[m];
    DistinctRow(ts);
    if g !in Files(t) {
      p, b := NodeFits(files, path, before, init, g);
    } else if g == t.target {
      p, b := path, before + FilesAll(init);
    } else {
      DistinctParts(t);
      p, b := NodeFits(files, path + [t.target], before + FilesAll(init) + [t.target], t.parts, g);
    }
  }

  /** A file that is loaded as a root is one. */
  lemma {:induction false} RootNode(files: map<Path, Source>, path: seq<Path>, before: seq<Path>, ts: seq<Tree>,
                                    g: Path)
    returns (j: nat)
    requires FitsAll(files, false, path, before, ts) && g in FilesAll(ts) && NodeAll(ts, g).how.AsRoot?
    ensures j < |ts| && ts[j] == NodeAll(ts, g)
    decreases ts
  {
    hide StepsOf;
    j := |ts| - 1;
    var t := ts[j];
    if g !in Files(t) {
      j := RootNode(files, path, before, ts[..j], g);
    } else if g != t.target {
      PartsAreNoRoots(files, t);
      var i := RootNode(files, path + [t.target], before + FilesAll(ts[..j]) + [t.target], t.parts, g);
      assert false;
    }
  }

  /** Statement `k` of `f` imports `g`. */
  ghost predicate ImportsIt(files: map<Path, Source>, f: Path, k: nat, g: Path) {
    k < |StmtsOf(files, f)| && g in StatementTargets(StmtsOf(files, f)[k])
  }

  /** Statement `k` of `f` is the only one among the reachable files that imports its target, which is
      no root. */
  ghost predicate OnlyImporter(files: map<Path, Source>, roots: seq<Path>, f: Path, k: nat)
    requires Asks(files, f, k)
  {
    var g := AskedFile(files, f, k);
    && g !in roots
    && forall f', k': nat :: FromSome(ImportGraph(files), roots, f') && ImportsIt(files, f', k', g) ==>
                               f' == f && k' == k
  }

  /** Then it is the one that loads the target. */
  lemma OnlyImporterLoads(files: map<Path, Source>, roots: seq<Path>, forest: seq<Tree>, f: Path, k: nat)
    requires Loads(files, false, roots, forest) && f in FilesAll(forest)
    requires Asks(files, f, k) && OnlyImporter(files, roots, f, k)
    ensures var s := StmtsOf(files, f)[k];
            s.target in FilesAll(forest) && NodeAll(forest, s.target).how == ByImport((f, k), s.names)
  {
    hide FitsAll, Distinct, FromSome, ImportGraph;
    LoadsReached(files, false, roots, forest);
    var s := StmtsOf(files, f)[k];
    var g := s.target;
    assert FromSome(ImportGraph(files), roots, g) by { ImportIsReached(files, roots, f, k); }
    var n := NodeAll(forest, g);
    RootsAreRoots(roots, forest);
    if n.how.AsRoot? {
      var j := RootNode(files, [], [], forest, g);
      assert false;
    } else {
      var j := ParentOf(files, [], [], forest, g);
      var parent := n.how.site.0;
      NodeHeads(files, [], [], forest, parent);
      var stmts := StmtsOf(files, parent);
      assert Head(n) == Heads(NodeAll(forest, parent).parts)[j];
      StepSite(parent, stmts, |stmts|, j);
      assert ImportsIt(files, parent, n.how.site.1, g);
    }
  }

  lemma NodeHeads(files: map<Path, Source>, path: seq<Path>, before: seq<Path>, ts: seq<Tree>, g: Path)
    requires FitsAll(files, false, path, before, ts) && Distinct(FilesAll(ts)) && g in FilesAll(ts)
    ensures Heads(NodeAll(ts, g).parts) == StepsOf(files, g)
  {
    hide FitsAll, Distinct, StepsOf;
    var p, b := NodeFits(files, path, before, ts, g);
  }

  lemma ImportIsReached(files: map<Path, Source>, roots: seq<Path>, f: Path, k: nat)
    requires FromSome(ImportGraph(files), roots, f) && Asks(files, f, k)
    ensures FromSome(ImportGraph(files), roots, AskedFile(files, f, k))
  {
    hide Reaches;
    var stmts := StmtsOf(files, f);
    AskStep(f, stmts, k);
    assert Visits(StepsOf(files, f), stmts[k].target);
    EdgesAreVisits(files, f, stmts[k].target);
    var r :| 0 <= r < |roots| && Reaches(ImportGraph(files), roots[r], f);
    ReachesSnoc(ImportGraph(files), roots[r], f, stmts[k].target);
  }

  /** The names asked for are exported by the text of the target. */
  ghost predicate Served(files: map<Path, Source>, f: Path, k: nat)
    requires Asks(files, f, k)
  {
    forall name :: name in StmtsOf(files, f)[k].names ==> ExportsItself(files, AskedFile(files, f, k), name)
  }

  lemma HonouredByText(files: map<Path, Source>, roots: seq<Path>, forest: seq<Tree>, f: Path, k: nat)
    requires Loads(files, false, roots, forest) && f in FilesAll(forest)
    requires Asks(files, f, k) && OnlyImporter(files, roots, f, k)
    requires forall g :: FromSome(ImportGraph(files), roots, g) ==> SingleMarkers(files, g)
    ensures Honoured(files, forest, f, k) <==> Served(files, f, k)
  {
    hide FitsAll, Distinct, FromSome, ImportGraph, SingleMarkers, Exports, Program, ExportsItself, OnlyImporter;
    LoadsReached(files, false, roots, forest);
    OnlyImporterLoads(files, roots, forest, f, k);
    var n := NodeAll(forest, StmtsOf(files, f)[k].target);
    var p, b := NodeFits(files, [], [], forest, n.target);
    forall name
      ensures Exports(Program(n), name) <==> ExportsItself(files, n.target, name)
    {
      ExportsDirectly(files, false, p, b, n, name);
    }
  }

  /** Where every file that is asked for names has one importer, and no statement carries two export
      markers, the text of the files decides: a project loads if and only if it is sound and every
      requested name is exported by the file it is requested from. */
  lemma TextDecides(files: map<Path, Source>, roots: seq<Path>)
    requires forall f :: FromSome(ImportGraph(files), roots, f) ==> SingleMarkers(files, f)
    requires forall f, k: nat :: FromSome(ImportGraph(files), roots, f) && Asks(files, f, k) ==>
                                   OnlyImporter(files, roots, f, k)
    ensures Loadable(files, roots) <==>
            && Sound(files, roots)
            && forall f, k: nat :: FromSome(ImportGraph(files), roots, f) && Asks(files, f, k) ==> Served(files, f, k)
  {
    hide Loads, Sound, FromSome, SingleMarkers, OnlyImporter, Served, Asks, Honoured;
    SoundIffLoads(files, roots);
    forall forest | Loads(files, false, roots, forest)
      ensures forall f, k: nat :: f in FilesAll(forest) && Asks(files, f, k) ==>
                (Honoured(files, forest, f, k) <==> Served(files, f, k))
      ensures forall f :: f in FilesAll(forest) <==> FromSome(ImportGraph(files), roots, f)
    {
      LoadsReached(files, false, roots, forest);
      forall f, k: nat | f in FilesAll(forest) && Asks(files, f, k)
        ensures Honoured(files, forest, f, k) <==> Served(files, f, k)
      {
        HonouredByText(files, roots, forest, f, k);
      }
    }
  }
}
