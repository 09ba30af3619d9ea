/** Imports that ask for names: when a sound project loads with them. */
module NamedImports {
  import opened Graphs
  import opened Imports
  import opened LoadTrees
  import opened LoadOrder

  // ---------------------------------------------------------------- the node of a file

  /** The visit in which a file was loaded. */
  ghost function Node(t: Tree, g: Path): (n: Tree)
    requires g in Files(t)
    ensures n.Fresh? && n.target == g
    decreases t
  {
    if g == t.target then t else NodeAll(t.parts, g)
  }

  ghost function NodeAll(ts: seq<Tree>, g: Path): (n: Tree)
    requires g in FilesAll(ts)
    ensures n.Fresh? && n.target == g
    decreases ts
  {
    var last := ts[|ts| - 1];
    if g in Files(last) then Node(last, g) else NodeAll(ts[..|ts| - 1], g)
  }

  lemma DistinctRow(ts: seq<Tree>)
    requires ts != [] && Distinct(FilesAll(ts))
    ensures var n := |ts| - 1;
            && Distinct(FilesAll(ts[..n])) && Distinct(Files(ts[n]))
            && forall f :: f in FilesAll(ts[..n]) ==> f !in Files(ts[n])
  {
    DistinctSplit(FilesAll(ts[..|ts| - 1]), Files(ts[|ts| - 1]));
  }

  lemma DistinctParts(t: Tree)
    requires t.Fresh? && Distinct(Files(t))
    ensures Distinct(FilesAll(t.parts)) && t.target !in FilesAll(t.parts)
  {
    DistinctSplit([t.target], FilesAll(t.parts));
    assert t.target in [t.target];
  }

  lemma {:induction false} NodeAt(ts: seq<Tree>, j: nat, g: Path)
    requires Distinct(FilesAll(ts)) && j < |ts| && g in Files(ts[j])
    ensures g in FilesAll(ts) && NodeAll(ts, g) == Node(ts[j], g)
    decreases |ts|
  {
    hide Distinct, Files;
    if j < |ts| - 1 {
      DistinctRow(ts);
      NodeAt(ts[..|ts| - 1], j, g);
    }
  }

  // ---------------------------------------------------------------- granted imports

  /** Statement `k` of `f` asks for names. */
  ghost predicate Asks(files: map<Path, Source>, f: Path, k: nat) {
    k < |StmtsOf(files, f)| && StmtsOf(files, f)[k].Import? && StmtsOf(files, f)[k].names != []
  }

  /** It is the statement by which its target gets loaded, and the target exports the names. */
  ghost predicate Honoured(files: map<Path, Source>, ts: seq<Tree>, f: Path, k: nat)
    requires Asks(files, f, k)
  {
    var s := StmtsOf(files, f)[k];
    s.target in FilesAll(ts) &&
    var n := NodeAll(ts, s.target);
    n.how == ByImport((f, k), s.names) && forall name :: name in s.names ==> Exports(Program(n), name)
  }

  ghost predicate Granted(files: map<Path, Source>, ts: seq<Tree>) {
    forall f, k: nat :: f in FilesAll(ts) && Asks(files, f, k) ==> Honoured(files, ts, f, k)
  }

  /** Where an import statement of a file stands among its steps. */
  lemma {:induction false} StepSite(f: Path, stmts: seq<Stmt>, n: nat, j: nat)
    requires n <= |stmts| && j < |Steps(f, stmts, n)| && Steps(f, stmts, n)[j].Visit?
    ensures var how := Steps(f, stmts, n)[j].how;
            && !how.AsRoot? && how.site.0 == f && how.site.1 < n
            && Steps(f, stmts, n)[j].target in StatementTargets(stmts[how.site.1])
            && (how.ByPattern? ==> stmts[how.site.1].Wildcard?)
            && (how.ByImport? ==> stmts[how.site.1] == Import(Steps(f, stmts, n)[j].target, how.names) &&
                                  j == |Steps(f, stmts, how.site.1)|)
  {
    if j < |Steps(f, stmts, n - 1)| {
      StepSite(f, stmts, n - 1, j);
    }
  }

  lemma AskStep(f: Path, stmts: seq<Stmt>, k: nat)
    requires k < |stmts| && stmts[k].Import?
    ensures var j := |Steps(f, stmts, k)|;
            && j < |Steps(f, stmts, |stmts|)|
            && Steps(f, stmts, |stmts|)[j] == Visit(stmts[k].target, ByImport((f, k), stmts[k].names))
  {
    StepsSplit(f, stmts, k + 1, |stmts|);
    assert Steps(f, stmts, k + 1)[|Steps(f, stmts, k)|] == Visit(stmts[k].target, ByImport((f, k), stmts[k].names));
  }

  // ---------------------------------------------------------------- loaded means granted

  lemma {:induction false} LoadedHonours(files: map<Path, Source>, path: seq<Path>, before: seq<Path>, ts: seq<Tree>,
                                         f: Path, k: nat)
    requires FitsAll(files, true, path, before, ts) && Distinct(FilesAll(ts))
    requires f in FilesAll(ts) && Asks(files, f, k)
    ensures Honoured(files, ts, f, k)
    decreases ts
  {
    hide Distinct, StepsOf, Exports, Program;
    var n := |ts| - 1;
    var init, t := ts[..n], ts[n];
    DistinctRow(ts);
    if f !in Files(t) {
      LoadedHonours(files, path, before, init, f, k);
    } else {
      DistinctParts(t);
      if f == t.target {
        PartHonours(files, path + [f], before + FilesAll(init) + [f], t, k);
      } else {
        LoadedHonours(files, path + [t.target], before + FilesAll(init) + [t.target], t.parts, f, k);
      }
      var g := StmtsOf(files, f)[k].target;
      assert g in Files(t) && Node(t, g) == NodeAll(t.parts, g);
    }
  }

  lemma PartHonours(files: map<Path, Source>, path: seq<Path>, before: seq<Path>, t: Tree, k: nat)
    requires t.Fresh? && Heads(t.parts) == StepsOf(files, t.target) && Asks(files, t.target, k)
    requires FitsAll(files, true, path, before, t.parts) && Distinct(FilesAll(t.parts))
    ensures Honoured(files, t.parts, t.target, k)
  {
    hide Distinct, FitsAll;
    var f := t.target;
    var stmts := StmtsOf(files, f);
    AskStep(f, stmts, k);
    var j := |Steps(f, stmts, k)|;
    var p := t.parts[j];
    assert Head(p) == Heads(t.parts)[j];
    FitsAt(files, true, path, before, t.parts, j);
    assert Exports(Program(p), stmts[k].names[0]);
    NodeAt(t.parts, j, p.target);
  }

  // ---------------------------------------------------------------- granted means loaded

  /** The node of a file that was loaded on behalf of another is one of the parts of that file. */
  lemma {:induction false} ParentOf(files: map<Path, Source>, path: seq<Path>, before: seq<Path>, ts: seq<Tree>,
                                    g: Path) returns (j: nat)
    requires FitsAll(files, false, path, before, ts) && Distinct(FilesAll(ts)) && g in FilesAll(ts)
    requires !NodeAll(ts, g).how.AsRoot?
    ensures var n := NodeAll(ts, g); var f := n.how.site.0;
            || (j < |ts| && ts[j] == n)
            || (f in FilesAll(ts) && j < |NodeAll(ts, f).parts| && NodeAll(ts, f).parts[j] == n)
    decreases ts
  {
    hide Distinct, Grants;
    var m := |ts| - 1;
    var init, t := ts[..m], ts[m];
    DistinctRow(ts);
    if g !in Files(t) {
      j := ParentOf(files, path, before, init, g);
    } else if g == t.target {
      j := m;
    } else {
      DistinctParts(t);
      j := ParentOf(files, path + [t.target], before + FilesAll(init) + [t.target], t.parts, g);
      var stmts := StmtsOf(files, t.target);
      if j < |t.parts| && t.parts[j] == NodeAll(ts, g) {
        assert Head(t.parts[j]) == Heads(t.parts)[j];
        StepSite(t.target, stmts, |stmts|, j);
      }
    }
  }

  /** The row `ts` is part of the forest: the files loaded in it have the same node in both. */
  ghost predicate PartOf(forest: seq<Tree>, ts: seq<Tree>) {
    forall g :: g in FilesAll(ts) ==> g in FilesAll(forest) && NodeAll(forest, g) == NodeAll(ts, g)
  }

  /** The parts of a loaded file that ask for names get them, if the forest grants every import. */
  lemma PartGranted(files: map<Path, Source>, roots: seq<Path>, forest: seq<Tree>, t: Tree, j: nat)
    requires Loads(files, false, roots, forest) && Distinct(FilesAll(forest)) && Granted(files, forest)
    requires t.Fresh? && Heads(t.parts) == StepsOf(files, t.target) && Distinct(FilesAll(t.parts))
    requires t.target in FilesAll(forest) && NodeAll(forest, t.target) == t && PartOf(forest, t.parts)
    requires j < |t.parts| && !t.parts[j].Own?
    ensures Grants(t.parts[j].how, Program(t.parts[j]))
  {
    hide Distinct, FitsAll, Program, Exports;
    var f, p := t.target, t.parts[j];
    var stmts := StmtsOf(files, f);
    assert Head(p) == Heads(t.parts)[j];
    StepSite(f, stmts, |stmts|, j);
    if p.how.ByImport? && p.how.names != [] {
      assert Honoured(files, forest, f, p.how.site.1);
      var n := NodeAll(forest, p.target);
      if p.Fresh? {
        NodeAt(t.parts, j, p.target);
      } else {
        var i := ParentOf(files, [], [], forest, p.target);
        RootsAreRoots(roots, forest);
        assert Head(n) == Heads(t.parts)[i];
        StepSite(f, stmts, |stmts|, i);
        assert false;
      }
    }
  }

  lemma RootsAreRoots(roots: seq<Path>, forest: seq<Tree>)
    requires Heads(forest) == VisitEach(roots, AsRoot)
    ensures forall j :: 0 <= j < |forest| ==> !forest[j].Own? && forest[j].how.AsRoot? && forest[j].target in roots
  {
    forall j | 0 <= j < |forest|
      ensures !forest[j].Own? && forest[j].how.AsRoot? && forest[j].target in roots
    {
      assert |Heads(forest)| == |forest|;
      assert Head(forest[j]) == Heads(forest)[j] == Visit(roots[j], AsRoot);
    }
  }

  lemma {:induction false} GrantedFits(files: map<Path, Source>, roots: seq<Path>, forest: seq<Tree>,
                                       path: seq<Path>, before: seq<Path>, ts: seq<Tree>)
    requires Loads(files, false, roots, forest) && Distinct(FilesAll(forest)) && Granted(files, forest)
    requires FitsAll(files, false, path, before, ts) && Distinct(FilesAll(ts)) && PartOf(forest, ts)
    requires forall j :: 0 <= j < |ts| && !ts[j].Own? ==> Grants(ts[j].how, Program(ts[j]))
    ensures FitsAll(files, true, path, before, ts)
    decreases ts
  {
    hide Loads, Granted, Distinct, Grants, Program, StepsOf;
    if ts != [] {
      var n := |ts| - 1;
      var init, t := ts[..n], ts[n];
      DistinctRow(ts);
      GrantedFits(files, roots, forest, path, before, init);
      if t.Fresh? {
        DistinctParts(t);
        PartOfBelow(forest, ts);
        assert Node(t, t.target) == t;
        forall j | 0 <= j < |t.parts| && !t.parts[j].Own?
          ensures Grants(t.parts[j].how, Program(t.parts[j]))
        {
          PartGranted(files, roots, forest, t, j);
        }
        GrantedFits(files, roots, forest, path + [t.target], before + FilesAll(init) + [t.target], t.parts);
      }
    }
  }

  lemma PartOfBelow(forest: seq<Tree>, ts: seq<Tree>)
    requires ts != [] && ts[|ts| - 1].Fresh? && Distinct(Files(ts[|ts| - 1])) && PartOf(forest, ts)
    ensures PartOf(forest, ts[|ts| - 1].parts)
  {
    var t := ts[|ts| - 1];
    DistinctParts(t);
    forall g | g in FilesAll(t.parts)
      ensures g in FilesAll(forest) && NodeAll(forest, g) == NodeAll(t.parts, g)
    {
      assert g in Files(t) && Node(t, g) == NodeAll(t.parts, g);
    }
  }

  /** A load tree stands with its requested names if and only if every import that asks for names is
      the one by which its target gets loaded, and the target exports the names. */
  lemma NamesStandIff(files: map<Path, Source>, roots: seq<Path>, forest: seq<Tree>)
    requires Loads(files, false, roots, forest)
    ensures Loads(files, true, roots, forest) <==> Granted(files, forest)
  {
    hide FitsAll, Distinct, Honoured;
    LoadsReached(files, false, roots, forest);
    if Loads(files, true, roots, forest) {
      forall f, k: nat | f in FilesAll(forest) && Asks(files, f, k)
        ensures Honoured(files, forest, f, k)
      {
        LoadedHonours(files, [], [], forest, f, k);
      }
    }
    if Granted(files, forest) {
      RootsAreRoots(roots, forest);
      GrantedFits(files, roots, forest, [], [], forest);
    }
  }

  lemma {:induction false} StrictIsLoose(files: map<Path, Source>, path: seq<Path>, before: seq<Path>, ts: seq<Tree>)
    requires FitsAll(files, true, path, before, ts)
    ensures FitsAll(files, false, path, before, ts)
    decreases ts
  {
    hide Grants, StepsOf;
    if ts != [] {
      var n := |ts| - 1;
      StrictIsLoose(files, path, before, ts[..n]);
      if ts[n].Fresh? {
        StrictIsLoose(files, path + [ts[n].target], before + FilesAll(ts[..n]) + [ts[n].target], ts[n].parts);
      }
    }
  }

  /** When a project can be loaded at all: it is sound, and the imports that ask for names are
      granted in the one way there is to load it. */
  ghost predicate Loadable(files: map<Path, Source>, roots: seq<Path>) {
    && Sound(files, roots)
    && forall forest :: Loads(files, false, roots, forest) ==> Granted(files, forest)
  }

  lemma LoadableIff(files: map<Path, Source>, roots: seq<Path>)
    ensures Loadable(files, roots) <==> exists forest :: Loads(files, true, roots, forest)
  {
    hide FitsAll, Granted, Sound;
    SoundIffLoads(files, roots);
    if Loadable(files, roots) {
      var forest :| Loads(files, false, roots, forest);
      NamesStandIff(files, roots, forest);
    }
    if forest :| Loads(files, true, roots, forest) {
      StrictIsLoose(files, [], [], forest);
      assert Loads(files, false, roots, forest);
      forall other | Loads(files, false, roots, other)
        ensures Granted(files, other)
      {
        ForestUnique(files, false, [], [], forest, other);
        NamesStandIff(files, roots, other);
      }
    }
  }

  /** Without requests for names, soundness is all it takes. */
  lemma NamelessLoadable(files: map<Path, Source>, roots: seq<Path>)
    requires forall f, k: nat :: FromSome(ImportGraph(files), roots, f) ==> !Asks(files, f, k)
    ensures Loadable(files, roots) <==> Sound(files, roots)
  {
    hide Loads, Sound, Asks, FromSome;
    forall forest | Loads(files, false, roots, forest)
      ensures Granted(files, forest)
    {
      LoadsReached(files, false, roots, forest);
    }
  }

  ghost function AskedFile(files: map<Path, Source>, f: Path, k: nat): Path
    requires Asks(files, f, k)
  {
    StmtsOf(files, f)[k].target
  }

  /** No two imports of the files ask the same target for names. */
  ghost predicate AskedOnce(files: map<Path, Source>, fs: seq<Path>) {
    forall f, k: nat, f', k': nat :: f in fs && f' in fs && Asks(files, f, k) && Asks(files, f', k') ==>
      AskedFile(files, f, k) == AskedFile(files, f', k') ==> f == f' && k == k'
  }

  lemma GrantedOnce(files: map<Path, Source>, forest: seq<Tree>)
    requires Granted(files, forest)
    ensures AskedOnce(files, FilesAll(forest))
  {
    hide Exports, Program;
    var fs := FilesAll(forest);
    forall f, k: nat, f', k': nat | f in fs && f' in fs && Asks(files, f, k) && Asks(files, f', k')
      ensures AskedFile(files, f, k) == AskedFile(files, f', k') ==> f == f' && k == k'
    {
      assert Honoured(files, forest, f, k) && Honoured(files, forest, f', k');
    }
  }
}
