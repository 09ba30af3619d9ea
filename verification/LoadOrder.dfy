/** What a fitting load tree says about the import graph: the loaded files are those that the roots
    reach, each loaded once, and there is no import cycle among them; and the converse, that such a
    project has a load tree. */
module LoadOrder {
  import opened Graphs
  import opened Imports
  import opened LoadTrees

  ghost predicate FromSome(g: map<Path, seq<Path>>, roots: seq<Path>, f: Path) {
    exists k :: 0 <= k < |roots| && Reaches(g, roots[k], f)
  }

  // ---------------------------------------------------------------- only what is reached, once

  lemma DistinctSplit(a: seq<Path>, b: seq<Path>)
    requires Distinct(a + b)
    ensures Distinct(a) && Distinct(b) && forall f :: f in a ==> f !in b
  {
    var s := a + b;
    assert forall k :: 0 <= k < |a| ==> a[k] == s[k];
    assert forall k :: 0 <= k < |b| ==> b[k] == s[|a| + k];
  }

  lemma {:induction false} LoadedOnce(files: map<Path, Source>, strict: bool, path: seq<Path>, before: seq<Path>,
                                      t: Tree)
    requires Fits(files, strict, path, before, t) && Distinct(before)
    ensures Distinct(before + Files(t))
    ensures forall f :: f in Files(t) ==> f in files && files[f].Parsed? && f !in before
    decreases t
  {
    hide StepsOf, Grants;
    if t.Fresh? {
      DistinctSnoc(before, t.target);
      AllLoadedOnce(files, strict, path + [t.target], before + [t.target], t.parts);
      Regroup(before, [t.target], FilesAll(t.parts));
    } else {
      assert before + [] == before;
    }
  }

  lemma {:induction false} AllLoadedOnce(files: map<Path, Source>, strict: bool, path: seq<Path>, before: seq<Path>,
                                         ts: seq<Tree>)
    requires FitsAll(files, strict, path, before, ts) && Distinct(before)
    ensures Distinct(before + FilesAll(ts))
    ensures forall f :: f in FilesAll(ts) ==> f in files && files[f].Parsed? && f !in before
    decreases ts
  {
    hide Fits, Distinct, Files;
    if ts == [] {
      assert before + [] == before;
    } else {
      var init, last := ts[..|ts| - 1], ts[|ts| - 1];
      AllLoadedOnce(files, strict, path, before, init);
      LoadedOnce(files, strict, path, before + FilesAll(init), last);
      Regroup(before, FilesAll(init), Files(last));
    }
  }

  lemma {:induction false} LoadedIsReached(files: map<Path, Source>, strict: bool, path: seq<Path>, before: seq<Path>,
                                           t: Tree, f: Path)
    requires Fits(files, strict, path, before, t) && f in Files(t)
    ensures Reaches(ImportGraph(files), t.target, f)
    decreases t
  {
    if f == t.target {
      ReachesSelf(ImportGraph(files), f);
    } else {
      var k := AllLoadedIsReached(files, strict, path + [t.target], before + [t.target], t.parts, f);
      assert Heads(t.parts)[k] == Head(t.parts[k]);
      EdgesAreVisits(files, t.target, t.parts[k].target);
      ReachesCons(ImportGraph(files), t.target, t.parts[k].target, f);
    }
  }

  lemma {:induction false} AllLoadedIsReached(files: map<Path, Source>, strict: bool, path: seq<Path>,
                                              before: seq<Path>, ts: seq<Tree>, f: Path) returns (k: nat)
    requires FitsAll(files, strict, path, before, ts) && f in FilesAll(ts)
    ensures k < |ts| && ts[k].Fresh? && Reaches(ImportGraph(files), ts[k].target, f)
    decreases ts
  {
    hide Fits, Reaches;
    var n := |ts| - 1;
    if f in Files(ts[n]) {
      LoadedIsReached(files, strict, path, before + FilesAll(ts[..n]), ts[n], f);
      k := n;
    } else {
      k := AllLoadedIsReached(files, strict, path, before, ts[..n], f);
    }
  }

  // ---------------------------------------------------------------- finish order

  /** The files of a tree in the order in which their loading ends. */
  ghost function Post(t: Tree): seq<Path> {
    if t.Fresh? then PostAll(t.parts) + [t.target] else []
  }

  ghost function PostAll(ts: seq<Tree>): seq<Path> {
    if ts == [] then [] else PostAll(ts[..|ts| - 1]) + Post(ts[|ts| - 1])
  }

  /** `done` lists the files that were parsed and are not being loaded any more. */
  ghost predicate Settled(path: seq<Path>, before: seq<Path>, done: seq<Path>) {
    && (forall f :: f in path ==> f in before)
    && (forall f :: f in done <==> f in before && f !in path)
  }

  lemma SettledOpens(path: seq<Path>, before: seq<Path>, done: seq<Path>, f: Path)
    requires Settled(path, before, done) && f !in before
    ensures Settled(path + [f], before + [f], done)
  {
  }

  lemma SettledCloses(path: seq<Path>, before: seq<Path>, done: seq<Path>, f: Path)
    requires Settled(path + [f], before, done) && f !in path
    ensures Settled(path, before, done + [f])
  {
    assert f in path + [f];
    assert forall p :: p in path ==> p in path + [f];
    assert forall p :: p in path + [f] ==> p in path || p == f;
  }

  lemma {:induction false} FinishOrder(files: map<Path, Source>, strict: bool, path: seq<Path>, before: seq<Path>,
                                       done: seq<Path>, t: Tree)
    requires Fits(files, strict, path, before, t) && Settled(path, before, done)
    requires Topological(ImportGraph(files), done)
    ensures Topological(ImportGraph(files), done + Post(t))
    ensures Settled(path, before + Files(t), done + Post(t))
    ensures !t.Own? ==> t.target in done + Post(t)
    decreases t
  {
    hide Topological, ImportGraph, StepsOf, Grants;
    if t.Fresh? {
      var f, inner := t.target, PostAll(t.parts);
      SettledOpens(path, before, done, f);
      FinishOrderAll(files, strict, path + [f], before + [f], done, t.parts);
      TargetsFinished(files, f, t.parts, done + inner);
      TopologicalSnoc(ImportGraph(files), done + inner, f);
      SettledCloses(path, before + [f] + FilesAll(t.parts), done + inner, f);
      Regroup(done, inner, [f]);
      Regroup(before, [f], FilesAll(t.parts));
    } else {
      assert done + [] == done && before + [] == before;
    }
  }

  lemma {:induction false} FinishOrderAll(files: map<Path, Source>, strict: bool, path: seq<Path>, before: seq<Path>,
                                          done: seq<Path>, ts: seq<Tree>)
    requires FitsAll(files, strict, path, before, ts) && Settled(path, before, done)
    requires Topological(ImportGraph(files), done)
    ensures Topological(ImportGraph(files), done + PostAll(ts))
    ensures Settled(path, before + FilesAll(ts), done + PostAll(ts))
    ensures forall k :: 0 <= k < |ts| && !ts[k].Own? ==> ts[k].target in done + PostAll(ts)
    decreases ts
  {
    hide Topological, ImportGraph, Fits, Files, Post, Settled;
    if ts == [] {
      assert done + [] == done && before + [] == before;
    } else {
      var n := |ts| - 1;
      var init := ts[..n];
      FinishOrderAll(files, strict, path, before, done, init);
      FinishOrder(files, strict, path, before + FilesAll(init), done + PostAll(init), ts[n]);
      Regroup(done, PostAll(init), Post(ts[n]));
      Regroup(before, FilesAll(init), Files(ts[n]));
      assert forall k :: 0 <= k < n ==> ts[k] == init[k];
    }
  }

  lemma TargetsFinished(files: map<Path, Source>, f: Path, parts: seq<Tree>, done: seq<Path>)
    requires Heads(parts) == StepsOf(files, f)
    requires forall k :: 0 <= k < |parts| && !parts[k].Own? ==> parts[k].target in done
    ensures forall v :: v in Successors(ImportGraph(files), f) ==> v in done
  {
    forall v | v in Successors(ImportGraph(files), f)
      ensures v in done
    {
      EdgesAreVisits(files, f, v);
      var k :| 0 <= k < |Heads(parts)| && Heads(parts)[k].Visit? && Heads(parts)[k].target == v;
      assert Heads(parts)[k] == Head(parts[k]);
    }
  }

  // ---------------------------------------------------------------- loadable projects

  /** Everything reachable can be read and parsed, every pattern matches something, and no import
      cycle is reachable. */
  ghost predicate Sound(files: map<Path, Source>, roots: seq<Path>) {
    && (forall f :: FromSome(ImportGraph(files), roots, f) ==> Readable(files, f))
    && (forall w :: ClosedWalk(ImportGraph(files), w) ==> !FromSome(ImportGraph(files), roots, w[0]))
  }

  ghost predicate Readable(files: map<Path, Source>, f: Path) {
    f in files && files[f].Parsed? && Wildcard([]) !in files[f].stmts
  }

  /** Loading covers exactly what the roots reach, each file once, and never closes a cycle. */
  lemma LoadsReached(files: map<Path, Source>, strict: bool, roots: seq<Path>, forest: seq<Tree>)
    requires Loads(files, strict, roots, forest)
    ensures Distinct(FilesAll(forest))
    ensures forall f :: f in FilesAll(forest) <==> FromSome(ImportGraph(files), roots, f)
    ensures Sound(files, roots)
  {
    var g := ImportGraph(files);
    AllLoadedOnce(files, strict, [], [], forest);
    assert [] + FilesAll(forest) == FilesAll(forest);
    FinishOrderAll(files, strict, [], [], [], forest);
    var order := PostAll(forest);
    assert [] + order == order;
    assert |Heads(forest)| == |forest|;
    forall k | 0 <= k < |roots|
      ensures roots[k] in order && !forest[k].Own? && roots[k] == forest[k].target
    {
      assert Heads(forest)[k] == Visit(roots[k], AsRoot);
    }
    OrderCoversRoots(g, roots, order);
    forall f | f in FilesAll(forest)
      ensures FromSome(g, roots, f) && Readable(files, f)
    {
      var k := AllLoadedIsReached(files, strict, [], [], forest, f);
      assert Reaches(g, roots[k], f);
      AllLoadedReadable(files, strict, [], [], forest, f);
    }
  }

  lemma OrderCoversRoots(g: map<Path, seq<Path>>, roots: seq<Path>, order: seq<Path>)
    requires Topological(g, order) && forall k :: 0 <= k < |roots| ==> roots[k] in order
    ensures forall f :: FromSome(g, roots, f) ==> f in order
    ensures forall w :: ClosedWalk(g, w) ==> !FromSome(g, roots, w[0])
  {
    forall f | FromSome(g, roots, f)
      ensures f in order
    {
      var k :| 0 <= k < |roots| && Reaches(g, roots[k], f);
      OrderIsClosed(g, order, roots[k], f);
    }
    forall w | ClosedWalk(g, w)
      ensures !FromSome(g, roots, w[0])
    {
      if FromSome(g, roots, w[0]) {
        TopologicalHasNoCycle(g, order, w);
      }
    }
  }

  lemma {:induction false} AllLoadedReadable(files: map<Path, Source>, strict: bool, path: seq<Path>,
                                             before: seq<Path>, ts: seq<Tree>, f: Path)
    requires FitsAll(files, strict, path, before, ts) && f in FilesAll(ts)
    ensures Readable(files, f)
    decreases ts
  {
    hide StepsOf, Grants, Readable;
    var n := |ts| - 1;
    var t := ts[n];
    if f !in Files(t) {
      AllLoadedReadable(files, strict, path, before, ts[..n], f);
    } else if f == t.target {
      NoEmptyPattern(files, f, t.parts);
    } else {
      AllLoadedReadable(files, strict, path + [t.target], before + FilesAll(ts[..n]) + [t.target], t.parts, f);
    }
  }

  lemma NoEmptyPattern(files: map<Path, Source>, f: Path, parts: seq<Tree>)
    requires f in files && files[f].Parsed? && Heads(parts) == StepsOf(files, f)
    ensures Readable(files, f)
  {
    var stmts := files[f].stmts;
    assert NoFiles !in Heads(parts);
    forall i | 0 <= i < |stmts|
      ensures stmts[i] != Wildcard([])
    {
      if stmts[i] == Wildcard([]) { EmptyPatternStep(f, stmts, i); }
    }
  }

  lemma EmptyPatternStep(f: Path, stmts: seq<Stmt>, i: nat)
    requires i < |stmts| && stmts[i] == Wildcard([])
    ensures NoFiles in Steps(f, stmts, |stmts|)
  {
    StepsSplit(f, stmts, i + 1, |stmts|);
    assert Steps(f, stmts, i + 1)[|Steps(f, stmts, i)|] == NoFiles;
  }

  // ---------------------------------------------------------------- every sound project has a load tree

  lemma SoundBelow(files: map<Path, Source>, f: Path, v: Path)
    requires Sound(files, [f]) && Edge(ImportGraph(files), f, v)
    ensures Sound(files, [v])
  {
    var g := ImportGraph(files);
    forall u | FromSome(g, [v], u)
      ensures FromSome(g, [f], u)
    {
      ReachesCons(g, f, v, u);
      assert Reaches(g, [f][0], u);
    }
  }

  lemma SoundReadable(files: map<Path, Source>, f: Path)
    requires Sound(files, [f])
    ensures Readable(files, f)
    ensures forall w :: ClosedWalk(ImportGraph(files), w) ==> w[0] != f
  {
    ReachesSelf(ImportGraph(files), f);
    assert Reaches(ImportGraph(files), [f][0], f);
  }

  /** `path` is a chain of imports among parsed files, none of them twice. */
  ghost predicate Open(files: map<Path, Source>, path: seq<Path>, before: seq<Path>) {
    && Walk(ImportGraph(files), path) && Distinct(path)
    && forall p :: p in path ==> p in before && p in files
  }

  /** The last file of the path imports `v`. */
  ghost predicate Follows(files: map<Path, Source>, path: seq<Path>, v: Path) {
    path != [] ==> Edge(ImportGraph(files), path[|path| - 1], v)
  }

  lemma OpenFurther(files: map<Path, Source>, path: seq<Path>, before: seq<Path>, f: Path)
    requires Open(files, path, before) && Follows(files, path, f) && f !in before && f in files
    ensures Open(files, path + [f], before + [f]) && |path| < |files|
  {
    hide Walk, Distinct;
    WalkSnoc(ImportGraph(files), path, f);
    DistinctSnoc(path, f);
    DistinctBound(path + [f], files.Keys);
  }

  /** The visit of a file below which all is sound. */
  lemma {:induction false} Grow(files: map<Path, Source>, path: seq<Path>, before: seq<Path>, f: Path, how: How)
    returns (t: Tree)
    requires Sound(files, [f]) && Open(files, path, before) && Follows(files, path, f)
    ensures Fits(files, false, path, before, t) && Head(t) == Visit(f, how)
    decreases |files| - |path|, 0, 0
  {
    hide Sound, Reaches, ClosedWalk, StepsOf;
    SoundReadable(files, f);
    if f in before {
      if f in path {
        ClosePath(ImportGraph(files), path, FirstIndex(path, f), f);
      }
      return Again(f, how);
    }
    OpenFurther(files, path, before, f);
    forall v | Visits(StepsOf(files, f), v)
      ensures Sound(files, [v]) && Follows(files, path + [f], v)
    {
      EdgesAreVisits(files, f, v);
      SoundBelow(files, f, v);
    }
    ReadableSteps(files, f);
    var parts := GrowAll(files, path + [f], before + [f], StepsOf(files, f));
    t := Fresh(f, how, parts);
  }

  lemma {:induction false} GrowAll(files: map<Path, Source>, path: seq<Path>, before: seq<Path>, steps: seq<Step>)
    returns (ts: seq<Tree>)
    requires NoFiles !in steps && Open(files, path, before)
    requires forall v :: Visits(steps, v) ==> Sound(files, [v]) && Follows(files, path, v)
    ensures FitsAll(files, false, path, before, ts) && Heads(ts) == steps
    decreases |files| - |path|, 1, |steps|
  {
    hide Sound, Fits, Follows, Files;
    if steps == [] {
      return [];
    }
    var n := |steps| - 1;
    assert steps == steps[..n] + [steps[n]];
    var init := GrowAll(files, path, before, steps[..n]);
    var last;
    if steps[n].Keep? {
      last := Own(steps[n].item);
      OwnFits(files, path, before + FilesAll(init), last);
    } else {
      assert Visits(steps, steps[n].target);
      last := Grow(files, path, before + FilesAll(init), steps[n].target, steps[n].how);
    }
    Alone(files, false, path, before + FilesAll(init), last);
    Joined(files, false, path, before, init, [last]);
    ts := init + [last];
  }

  lemma OwnFits(files: map<Path, Source>, path: seq<Path>, before: seq<Path>, t: Tree)
    requires t.Own?
    ensures forall strict :: Fits(files, strict, path, before, t)
  {
  }

  lemma {:induction false} NoEmptySteps(f: Path, stmts: seq<Stmt>, n: nat)
    requires n <= |stmts| && Wildcard([]) !in stmts
    ensures NoFiles !in Steps(f, stmts, n)
  {
    if n > 0 { NoEmptySteps(f, stmts, n - 1); }
  }

  lemma ReadableSteps(files: map<Path, Source>, f: Path)
    requires Readable(files, f)
    ensures NoFiles !in StepsOf(files, f)
  {
    NoEmptySteps(f, files[f].stmts, |files[f].stmts|);
  }

  /** Up to requested names, a project loads if and only if it is sound. */
  lemma SoundIffLoads(files: map<Path, Source>, roots: seq<Path>)
    ensures Sound(files, roots) <==> exists forest :: Loads(files, false, roots, forest)
  {
    if forest :| Loads(files, false, roots, forest) {
      LoadsReached(files, false, roots, forest);
    }
    if Sound(files, roots) {
      var steps := VisitEach(roots, AsRoot);
      forall v | Visits(steps, v)
        ensures Sound(files, [v])
      {
        var k :| 0 <= k < |steps| && steps[k].Visit? && steps[k].target == v;
        forall u | FromSome(ImportGraph(files), [v], u)
          ensures FromSome(ImportGraph(files), roots, u)
        {
          assert Reaches(ImportGraph(files), roots[k], u);
        }
      }
      var forest := GrowAll(files, [], [], steps);
      assert Loads(files, false, roots, forest);
    }
  }
}
