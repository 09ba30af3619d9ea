/** How loading fails: the points a load gets to, and the one error it can end with. */
module LoadFailures {
  import opened Graphs
  import opened Imports
  import opened LoadTrees
  import opened LoadOrder
  import opened MergedProgram
  import opened NamedImports

  // ---------------------------------------------------------------- points of a load

  /** A moment of a load: the roots, or the steps of a file that has been opened, with the first of
      them taken as `done` says. */
  datatype Point =
    | Top(roots: seq<Path>, done: seq<Tree>)
    | Inside(outer: Point, file: Path, done: seq<Tree>)

  ghost function RootsOf(p: Point): seq<Path> {
    if p.Top? then p.roots else RootsOf(p.outer)
  }

  /** The files that are being loaded, outermost first. */
  ghost function PathOf(p: Point): seq<Path> {
    if p.Top? then [] else PathOf(p.outer) + [p.file]
  }

  /** The files parsed when the row of steps was begun, and those parsed by now. */
  ghost function StartOf(p: Point): seq<Path>
    decreases p, 0
  {
    if p.Top? then [] else Now(p.outer) + [p.file]
  }

  ghost function Now(p: Point): seq<Path>
    decreases p, 1
  {
    StartOf(p) + FilesAll(p.done)
  }

  ghost function RowOf(files: map<Path, Source>, p: Point): seq<Step> {
    if p.Top? then VisitEach(p.roots, AsRoot) else StepsOf(files, p.file)
  }

  ghost predicate Pending(files: map<Path, Source>, p: Point) {
    |p.done| < |RowOf(files, p)|
  }

  ghost function Next(files: map<Path, Source>, p: Point): Step
    requires Pending(files, p)
  {
    RowOf(files, p)[|p.done|]
  }

  ghost predicate Visiting(files: map<Path, Source>, p: Point, f: Path) {
    Pending(files, p) && Next(files, p).Visit? && Next(files, p).target == f
  }

  /** The next step opens `f`. */
  ghost predicate Opens(files: map<Path, Source>, p: Point, f: Path) {
    Visiting(files, p, f) && f !in Now(p) && f in files && files[f].Parsed?
  }

  /** The load gets there. */
  ghost predicate Reached(files: map<Path, Source>, p: Point) {
    && Heads(p.done) <= RowOf(files, p)
    && FitsAll(files, true, PathOf(p), StartOf(p), p.done)
    && (p.Inside? ==> Reached(files, p.outer) && Opens(files, p.outer, p.file))
  }

  ghost function After(p: Point, ts: seq<Tree>): Point {
    p.(done := p.done + ts)
  }

  lemma ReachedAfter(files: map<Path, Source>, p: Point, ts: seq<Tree>)
    requires Reached(files, p) && FitsAll(files, true, PathOf(p), Now(p), ts)
    requires Heads(p.done) + Heads(ts) <= RowOf(files, p)
    ensures Reached(files, After(p, ts)) && Now(After(p, ts)) == Now(p) + FilesAll(ts)
    ensures PathOf(After(p, ts)) == PathOf(p)
  {
    hide FitsAll, FilesAll, StepsOf;
    Joined(files, true, PathOf(p), StartOf(p), p.done, ts);
    Regroup(StartOf(p), FilesAll(p.done), FilesAll(ts));
  }

  lemma ReachedTop(files: map<Path, Source>, roots: seq<Path>)
    ensures Reached(files, Top(roots, [])) && Now(Top(roots, [])) == []
  {
  }

  lemma ReachedInside(files: map<Path, Source>, p: Point, f: Path)
    requires Reached(files, p) && Opens(files, p, f)
    ensures Reached(files, Inside(p, f, [])) && Now(Inside(p, f, [])) == Now(p) + [f]
  {
    hide Opens;
    NowInside(p, f);
  }

  lemma NowInside(p: Point, f: Path)
    ensures Now(Inside(p, f, [])) == Now(p) + [f] && PathOf(Inside(p, f, [])) == PathOf(p) + [f]
  {
    var start := Now(p) + [f];
    assert start + [] == start;
  }

  /** The open files form a chain of imports. */
  lemma {:induction false} ReachedOpen(files: map<Path, Source>, p: Point)
    requires Reached(files, p)
    ensures Open(files, PathOf(p), Now(p))
    ensures forall f :: Visiting(files, p, f) ==> Follows(files, PathOf(p), f)
    decreases p
  {
    hide StepsOf, FitsAll, Follows, Open, FilesAll;
    if p.Top? {
      OpenNothing(files, Now(p));
    } else {
      ReachedOpen(files, p.outer);
      OpenFurther(files, PathOf(p.outer), Now(p.outer), p.file);
      OpenLater(files, PathOf(p), StartOf(p), FilesAll(p.done));
    }
    forall f | Visiting(files, p, f)
      ensures Follows(files, PathOf(p), f)
    {
      VisitingFollows(files, p, f);
    }
  }

  lemma VisitingFollows(files: map<Path, Source>, p: Point, f: Path)
    requires Visiting(files, p, f)
    ensures Follows(files, PathOf(p), f)
  {
    hide StepsOf, ImportGraph;
    if p.Inside? {
      assert Visits(StepsOf(files, p.file), f);
      EdgesAreVisits(files, p.file, f);
    }
  }

  lemma OpenNothing(files: map<Path, Source>, before: seq<Path>)
    ensures Open(files, [], before)
  {
  }

  lemma OpenLater(files: map<Path, Source>, path: seq<Path>, before: seq<Path>, more: seq<Path>)
    requires Open(files, path, before)
    ensures Open(files, path, before + more)
  {
    hide Walk, Distinct;
  }

  // ---------------------------------------------------------------- failures

  /** Why the next step cannot be taken. For a name: the target, loaded from here, has a program that
      rejects the request. */
  ghost predicate Fails(files: map<Path, Source>, p: Point, e: Error) {
    && Reached(files, p) && Pending(files, p)
    && match e
       case Circular(f) => Visiting(files, p, f) && f in PathOf(p)
       case Unreadable(f) => Visiting(files, p, f) && f !in Now(p) && f !in files
       case ParseFailed(f) => Visiting(files, p, f) && f !in Now(p) && f in files && files[f].Unparsable?
       case NoMatch(f) => p.Inside? && p.file == f && Next(files, p) == NoFiles
       case _ => p.Inside? && p.file == e.file && exists t :: Refuses(files, p, t, e)
  }

  ghost predicate Refuses(files: map<Path, Source>, p: Point, t: Tree, e: Error)
    requires Pending(files, p)
  {
    var step := Next(files, p);
    && step.Visit? && step.how.ByImport?
    && Fits(files, true, PathOf(p), Now(p), t) && Head(t) == Visit(step.target, AsRoot)
    && Rejects(e.file, step.how.names, Program(t), e)
  }

  /** The load of the roots gets to a point where `e` is what goes wrong. */
  ghost predicate Justified(files: map<Path, Source>, roots: seq<Path>, e: Error) {
    exists p :: RootsOf(p) == roots && Fails(files, p, e)
  }

  // ---------------------------------------------------------------- the same visit for another reason

  lemma Rehow(files: map<Path, Source>, path: seq<Path>, before: seq<Path>, t: Tree, how: How)
    requires !t.Own? && Fits(files, true, path, before, t)
    ensures Files(t.(how := how)) == Files(t) && Program(t.(how := how)) == Program(t)
    ensures Carried(t.(how := how)) == Take(how, Program(t))
    ensures Fits(files, true, path, before, t.(how := how)) <==> Grants(how, Program(t))
  {
    hide Grants, TakeBy, StepsOf;
    TakesNothing();
  }

  lemma OneTree(ts: seq<Tree>, step: Step)
    requires Heads(ts) == [step]
    ensures |ts| == 1 && ts == [ts[0]] && Head(ts[0]) == step
  {
    assert |Heads(ts)| == |ts|;
    assert Head(ts[0]) == Heads(ts)[0];
  }

  /** A target that cannot be loaded cannot be imported. */
  lemma StuckTarget(files: map<Path, Source>, path: seq<Path>, before: seq<Path>, f: Path, how: How)
    requires Stuck(files, path, before, [Visit(f, AsRoot)])
    ensures Stuck(files, path, before, [Visit(f, how)])
  {
    hide Fits, FitsAll, Grants, Heads;
    forall ts | Heads(ts) == [Visit(f, how)]
      ensures !FitsAll(files, true, path, before, ts)
    {
      OneTree(ts, Visit(f, how));
      if FitsAll(files, true, path, before, ts) {
        var root := RootVisit(files, path, before, ts[0]);
        Alone(files, true, path, before, root);
        assert false;
      }
    }
  }

  lemma RootVisit(files: map<Path, Source>, path: seq<Path>, before: seq<Path>, u: Tree) returns (t: Tree)
    requires !u.Own? && FitsAll(files, true, path, before, [u])
    ensures t == u.(how := AsRoot) && Program(t) == Program(u)
    ensures Fits(files, true, path, before, t) && Grants(u.how, Program(u))
  {
    hide FitsAll;
    Alone(files, true, path, before, u);
    Rehow(files, path, before, u, u.how);
    Rehow(files, path, before, u, AsRoot);
    t := u.(how := AsRoot);
  }

  /** Nor can one whose program does not export the names. */
  lemma StuckNames(files: map<Path, Source>, path: seq<Path>, before: seq<Path>, t: Tree, f: Path, how: How)
    requires Fits(files, true, path, before, t) && Head(t) == Visit(f, AsRoot) && !Grants(how, Program(t))
    ensures Stuck(files, path, before, [Visit(f, how)])
  {
    hide Fits, FitsAll, Grants, Heads, Program;
    forall ts | Heads(ts) == [Visit(f, how)]
      ensures !FitsAll(files, true, path, before, ts)
    {
      OneTree(ts, Visit(f, how));
      if FitsAll(files, true, path, before, ts) {
        var root := RootVisit(files, path, before, ts[0]);
        TreeUnique(files, true, path, before, root, t);
        assert false;
      }
    }
  }

  /** A file that is being loaded, or cannot be read, or has no way through its steps. */
  lemma StuckFile(files: map<Path, Source>, path: seq<Path>, before: seq<Path>, f: Path)
    requires f in before ==> f in path
    requires f in before || f !in files || files[f].Unparsable? ||
             Stuck(files, path + [f], before + [f], StepsOf(files, f))
    ensures Stuck(files, path, before, [Visit(f, AsRoot)])
  {
    hide FitsAll, Heads, StepsOf;
    forall ts | Heads(ts) == [Visit(f, AsRoot)]
      ensures !FitsAll(files, true, path, before, ts)
    {
      OneTree(ts, Visit(f, AsRoot));
      Alone(files, true, path, before, ts[0]);
    }
  }

  // ---------------------------------------------------------------- a failure stops the whole load

  /** No way to take the next step. */
  ghost predicate StuckThere(files: map<Path, Source>, p: Point) {
    Pending(files, p) && Stuck(files, PathOf(p), Now(p), [Next(files, p)])
  }

  lemma StuckEmpty(files: map<Path, Source>, path: seq<Path>, before: seq<Path>)
    ensures Stuck(files, path, before, [NoFiles])
  {
    forall ts
      ensures Heads(ts) != [NoFiles]
    {
      if ts != [] { assert Heads(ts)[0] == Head(ts[0]) != NoFiles; }
    }
  }

  lemma PathIsParsed(files: map<Path, Source>, p: Point)
    requires Reached(files, p)
    ensures forall f :: f in PathOf(p) ==> f in Now(p)
  {
    hide Reached;
    ReachedOpen(files, p);
  }

  lemma FailsStuck(files: map<Path, Source>, p: Point, e: Error)
    requires Fails(files, p, e)
    ensures StuckThere(files, p)
  {
    hide Stuck, Reached, RowOf, Fits, Program, Now, PathOf;
    PathIsParsed(files, p);
    var step := Next(files, p);
    if e.NoMatch? {
      StuckEmpty(files, PathOf(p), Now(p));
    } else if e.NotDefined? || e.NotExported? {
      var t :| Refuses(files, p, t, e);
      RejectsGrantsNot(e.file, step.how, Program(t), e);
      StuckNames(files, PathOf(p), Now(p), t, step.target, step.how);
    } else {
      StuckFile(files, PathOf(p), Now(p), e.file);
      StuckTarget(files, PathOf(p), Now(p), e.file, step.how);
    }
  }

  lemma RejectsGrantsNot(file: Path, how: How, items: seq<Item>, e: Error)
    requires how.ByImport? && Rejects(file, how.names, items, e)
    ensures !Grants(how, items)
  {
    var j :| 0 <= j < |how.names| && RejectsAt(file, how.names, j, items, e);
    assert how.names[j] in how.names;
  }

  /** Where the steps of an opened file get stuck, the file cannot be loaded. */
  lemma StuckOpened(files: map<Path, Source>, p: Point)
    requires p.Inside? && Reached(files, p) && StuckThere(files, p)
    ensures Stuck(files, PathOf(p.outer), Now(p.outer), [Visit(p.file, AsRoot)])
    ensures StuckThere(files, p.outer)
  {
    hide Stuck, FitsAll, FilesAll, StepsOf, Heads;
    var row := StepsOf(files, p.file);
    RowSplit(p.done, row);
    StuckBehind(files, PathOf(p), StartOf(p), p.done, [Next(files, p)], row[|p.done| + 1..]);
    StuckFile(files, PathOf(p.outer), Now(p.outer), p.file);
    StuckTarget(files, PathOf(p.outer), Now(p.outer), p.file, Next(files, p.outer).how);
  }

  lemma RowSplit(done: seq<Tree>, row: seq<Step>)
    requires Heads(done) <= row && |done| < |row|
    ensures Heads(done) + [row[|done|]] + row[|done| + 1..] == row
  {
    assert |Heads(done)| == |done|;
  }

  /** A failure anywhere stops the load of the roots. */
  lemma {:induction false} StuckOutwards(files: map<Path, Source>, p: Point)
    requires Reached(files, p) && StuckThere(files, p)
    ensures Stuck(files, [], [], VisitEach(RootsOf(p), AsRoot))
    decreases p
  {
    hide Stuck, FitsAll, FilesAll, StepsOf, Heads;
    if p.Inside? {
      StuckOpened(files, p);
      StuckOutwards(files, p.outer);
    } else {
      var row := VisitEach(p.roots, AsRoot);
      RowSplit(p.done, row);
      StuckBehind(files, [], [], p.done, [Next(files, p)], row[|p.done| + 1..]);
    }
  }

  lemma JustifiedFails(files: map<Path, Source>, roots: seq<Path>, e: Error)
    requires Justified(files, roots, e)
    ensures !Loadable(files, roots)
  {
    hide Loadable, Fails, StuckThere;
    var p :| RootsOf(p) == roots && Fails(files, p, e);
    FailsStuck(files, p, e);
    assert Reached(files, p) by { FailsReached(files, p, e); }
    StuckOutwards(files, p);
    LoadableIff(files, roots);
  }

  lemma FailsReached(files: map<Path, Source>, p: Point, e: Error)
    requires Fails(files, p, e)
    ensures Reached(files, p)
  {
    hide Reached;
  }

  // ---------------------------------------------------------------- there is only one failure

  ghost function Level(p: Point): nat {
    if p.Top? then 0 else Level(p.outer) + 1
  }

  /** Two stuck prefixes of one row are the same. */
  lemma SamePrefix(files: map<Path, Source>, path: seq<Path>, start: seq<Path>, row: seq<Step>,
                   a: seq<Tree>, b: seq<Tree>)
    requires FitsAll(files, true, path, start, a) && FitsAll(files, true, path, start, b)
    requires Heads(a) <= row && Heads(b) <= row && |a| < |row|
    requires Stuck(files, path, start + FilesAll(a), [row[|a|]])
    ensures |a| >= |b|
    ensures |a| == |b| ==> a == b
  {
    hide FitsAll, FilesAll;
    assert |Heads(a)| == |a| && |Heads(b)| == |b|;
    if |a| == |b| {
      ForestUnique(files, true, path, start, a, b);
    }
    if |a| < |b| {
      var n := |a|;
      assert Heads(b[..n]) == Heads(b)[..n] == Heads(a);
      assert Heads(b)[n] == Head(b[n]) == row[n];
      FitsAt(files, true, path, start, b, n);
      ForestUnique(files, true, path, start, a, b[..n]);
      Alone(files, true, path, start + FilesAll(a), b[n]);
    }
  }

  lemma {:induction false} SameLevel(files: map<Path, Source>, p: Point, q: Point)
    requires Reached(files, p) && StuckThere(files, p) && Reached(files, q) && StuckThere(files, q)
    requires Level(p) == Level(q) && RootsOf(p) == RootsOf(q)
    ensures p == q
    decreases p
  {
    hide Stuck, FitsAll, FilesAll, StepsOf, Heads;
    if p.Inside? {
      StuckOpened(files, p);
      StuckOpened(files, q);
      SameLevel(files, p.outer, q.outer);
    }
    SamePrefix(files, PathOf(p), StartOf(p), RowOf(files, p), p.done, q.done);
    SamePrefix(files, PathOf(p), StartOf(p), RowOf(files, p), q.done, p.done);
  }

  /** A file that is opened and gets stuck leaves no other reason to fail at that step. */
  lemma OpenedOnly(files: map<Path, Source>, q: Point, e: Error)
    requires q.Inside? && Reached(files, q) && StuckThere(files, q)
    ensures !Fails(files, q.outer, e)
  {
    hide Fits, FitsAll, RowOf, Now, PathOf, Program, StuckThere, Heads;
    if Fails(files, q.outer, e) {
      StuckOpened(files, q);
      PathIsParsed(files, q.outer);
      if e.NotDefined? || e.NotExported? {
        var t :| Refuses(files, q.outer, t, e);
        Alone(files, true, PathOf(q.outer), Now(q.outer), t);
      }
      assert false;
    }
  }

  lemma {:induction false} NoneDeeper(files: map<Path, Source>, p: Point, q: Point, e: Error)
    requires Fails(files, p, e) && Reached(files, q) && StuckThere(files, q) && RootsOf(p) == RootsOf(q)
    ensures Level(q) <= Level(p)
    decreases q
  {
    hide StuckThere, Fails;
    if q.Inside? {
      StuckOpened(files, q);
      NoneDeeper(files, p, q.outer, e);
      if Level(q.outer) == Level(p) {
        FailsStuck(files, p, e);
        FailsReached(files, p, e);
        SameLevel(files, p, q.outer);
        OpenedOnly(files, q, e);
      }
    }
  }

  /** One point has one error. */
  lemma SameError(files: map<Path, Source>, p: Point, e: Error, e': Error)
    requires Fails(files, p, e) && Fails(files, p, e')
    ensures e == e'
  {
    hide Reached, RowOf, Fits, FitsAll, Program, Now, PathOf, Stuck, Heads;
    PathIsParsed(files, p);
    var step := Next(files, p);
    if Named(e) && Named(e') {
      var t :| Refuses(files, p, t, e);
      var t' :| Refuses(files, p, t', e');
      TreeUnique(files, true, PathOf(p), Now(p), t, t');
      OneRejection(e.file, step.how.names, Program(t), e, e');
    } else if Named(e) {
      NamedOnly(files, p, e, e');
    } else if Named(e') {
      NamedOnly(files, p, e', e);
    }
  }

  ghost predicate Named(e: Error) {
    e.NotDefined? || e.NotExported?
  }

  lemma OneRejection(file: Path, names: seq<string>, items: seq<Item>, e: Error, e': Error)
    requires Rejects(file, names, items, e) && Rejects(file, names, items, e')
    ensures e == e'
  {
    var j :| 0 <= j < |names| && RejectsAt(file, names, j, items, e);
    var j' :| 0 <= j' < |names| && RejectsAt(file, names, j', items, e');
    assert j == j';
  }

  /** A target that could be loaded fails for its names only. */
  lemma NamedOnly(files: map<Path, Source>, p: Point, e: Error, e': Error)
    requires Fails(files, p, e) && Named(e) && !Named(e')
    ensures !Fails(files, p, e')
  {
    hide Reached, RowOf, Fits, FitsAll, Program, Now, PathOf, Stuck, Heads;
    PathIsParsed(files, p);
    var t :| Refuses(files, p, t, e);
    if Fails(files, p, e') && !e'.NoMatch? {
      StuckFile(files, PathOf(p), Now(p), e'.file);
      Alone(files, true, PathOf(p), Now(p), t);
      NotStuck(files, PathOf(p), Now(p), t);
    }
  }

  lemma NotStuck(files: map<Path, Source>, path: seq<Path>, before: seq<Path>, t: Tree)
    requires FitsAll(files, true, path, before, [t]) && Heads([t]) == [Head(t)]
    ensures !Stuck(files, path, before, [Head(t)])
  {
    hide FitsAll;
  }

  /** The load of given roots can fail in one way only. */
  lemma OneFailure(files: map<Path, Source>, roots: seq<Path>, e: Error, e': Error)
    requires Justified(files, roots, e) && Justified(files, roots, e')
    ensures e == e'
  {
    hide Fails, StuckThere;
    var p :| RootsOf(p) == roots && Fails(files, p, e);
    var q :| RootsOf(q) == roots && Fails(files, q, e');
    FailsStuck(files, p, e);
    FailsStuck(files, q, e');
    FailsReached(files, p, e);
    FailsReached(files, q, e');
    NoneDeeper(files, p, q, e);
    NoneDeeper(files, q, p, e');
    SameLevel(files, p, q);
    SameError(files, p, e, e');
  }

  /** What an error says about the import graph: its file is reached, and a circular import lies on a
      cycle. */
  lemma FailureHasCause(files: map<Path, Source>, p: Point, e: Error)
    requires Fails(files, p, e)
    ensures FromSome(ImportGraph(files), RootsOf(p), e.file)
    ensures e.Circular? ==> exists w :: ClosedWalk(ImportGraph(files), w) && w[0] == e.file
    ensures e.Unreadable? ==> e.file !in files
    ensures e.ParseFailed? ==> e.file in files && files[e.file].Unparsable?
    ensures e.NoMatch? ==> Wildcard([]) in StmtsOf(files, e.file)
    ensures Named(e) ==> Requests(files, e.file, e.symbol)
  {
    hide Reached, RowOf, Fits, FitsAll, Program, Now, PathOf, Stuck, Heads, Reaches, ClosedWalk, ImportGraph, FromSome;
    if e.NoMatch? || Named(e) {
      FileIsReached(files, p);
      StepOfText(files, p, e);
    } else {
      VisitedIsReached(files, p, e.file);
    }
    if e.Circular? {
      OnACycle(files, p, e.file);
    }
  }

  /** Some import of the file asks for the symbol. */
  ghost predicate Requests(files: map<Path, Source>, f: Path, symbol: string) {
    exists k: nat :: Asks(files, f, k) && symbol in StmtsOf(files, f)[k].names
  }

  lemma StepOfText(files: map<Path, Source>, p: Point, e: Error)
    requires Fails(files, p, e) && (e.NoMatch? || Named(e))
    ensures e.NoMatch? ==> Wildcard([]) in StmtsOf(files, e.file)
    ensures Named(e) ==> Requests(files, e.file, e.symbol)
  {
    hide Reached, Fits, Now, PathOf, Program, Exports, Defines;
    var stmts := StmtsOf(files, p.file);
    if e.NoMatch? {
      NoFilesSite(p.file, stmts, |stmts|, |p.done|);
    } else {
      var t :| Refuses(files, p, t, e);
      var names := Next(files, p).how.names;
      var j :| 0 <= j < |names| && RejectsAt(e.file, names, j, Program(t), e);
      StepSite(p.file, stmts, |stmts|, |p.done|);
      assert names[j] in names;
      assert Asks(files, e.file, Next(files, p).how.site.1);
    }
  }

  lemma {:induction false} NoFilesSite(f: Path, stmts: seq<Stmt>, n: nat, j: nat)
    requires n <= |stmts| && j < |Steps(f, stmts, n)| && Steps(f, stmts, n)[j] == NoFiles
    ensures Wildcard([]) in stmts
  {
    if j < |Steps(f, stmts, n - 1)| {
      NoFilesSite(f, stmts, n - 1, j);
    } else {
      assert stmts[n - 1] in stmts;
    }
  }

  lemma OnACycle(files: map<Path, Source>, p: Point, f: Path)
    requires Reached(files, p) && Visiting(files, p, f) && f in PathOf(p)
    ensures exists w :: ClosedWalk(ImportGraph(files), w) && w[0] == f
  {
    hide Reached, Visiting, PathOf, Now, ClosedWalk, ImportGraph, Walk, Distinct;
    ReachedOpen(files, p);
    var path := PathOf(p);
    ClosePath(ImportGraph(files), path, FirstIndex(path, f), f);
  }

  lemma {:induction false} FileIsReached(files: map<Path, Source>, p: Point)
    requires Reached(files, p) && p.Inside?
    ensures FromSome(ImportGraph(files), RootsOf(p), p.file)
    decreases p, 0
  {
    hide FitsAll, Reaches;
    VisitedIsReached(files, p.outer, p.file);
  }

  lemma {:induction false} VisitedIsReached(files: map<Path, Source>, p: Point, f: Path)
    requires Reached(files, p) && Visiting(files, p, f)
    ensures FromSome(ImportGraph(files), RootsOf(p), f)
    decreases p, 1
  {
    hide FitsAll, Reaches, ImportGraph;
    var g := ImportGraph(files);
    if p.Top? {
      ReachesSelf(g, f);
      assert p.roots[|p.done|] == f;
    } else {
      FileIsReached(files, p);
      VisitingFollows(files, p, f);
      assert PathOf(p)[|PathOf(p)| - 1] == p.file;
      var k :| 0 <= k < |RootsOf(p)| && Reaches(g, RootsOf(p)[k], p.file);
      ReachesSnoc(g, RootsOf(p)[k], p.file, f);
    }
  }
}
