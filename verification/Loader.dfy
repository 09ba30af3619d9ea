/** Loading a program with its imports: the shared three-colour table and the statement merge. */
module Loader {
  import opened Graphs
  import opened Imports
  import opened LoadTrees
  import opened LoadOrder
  import opened MergedProgram
  import opened NamedImports
  import opened LoadFailures

  // ---------------------------------------------------------------- the loader

  /** Grey files are those on the path, black ones the other parsed files. */
  ghost predicate Coloured(visited: map<Path, int>, path: seq<Path>, parsed: seq<Path>) {
    forall n :: (n in visited <==> n in parsed) && (n in visited ==> visited[n] == if n in path then 1 else 2)
  }

  /** The cache holds the text of every parsed file. */
  ghost predicate Cached(files: map<Path, Source>, cache: map<Path, seq<Stmt>>, parsed: seq<Path>) {
    forall n :: n in parsed ==> n in files && files[n].Parsed? && n in cache && cache[n] == files[n].stmts
  }

  lemma ColouredGrey(visited: map<Path, int>, path: seq<Path>, parsed: seq<Path>, f: Path)
    requires Coloured(visited, path, parsed)
    ensures Coloured(visited[f := 1], path + [f], parsed + [f])
  {
  }

  lemma CachedMore(files: map<Path, Source>, cache: map<Path, seq<Stmt>>, parsed: seq<Path>, f: Path)
    requires Cached(files, cache, parsed) && f in files && files[f].Parsed?
    ensures Cached(files, cache[f := files[f].stmts], parsed + [f])
  {
  }

  lemma ColouredBlack(visited: map<Path, int>, path: seq<Path>, parsed: seq<Path>, f: Path)
    requires Coloured(visited, path + [f], parsed) && f !in path && f in parsed
    ensures Coloured(visited[f := 2], path, parsed)
  {
    assert forall n :: n in path + [f] <==> n in path || n == f;
  }

  class ImportLoader {
    const files: map<Path, Source>
    var visited: map<Path, int>
    var cache: map<Path, seq<Stmt>>
    /** Files in the order in which they were parsed. */
    ghost var parsed: seq<Path>

    constructor (files: map<Path, Source>)
      ensures this.files == files && Held([]) && parsed == []
    {
      this.files := files;
      visited, cache, parsed := map[], map[], [];
    }

    function Colour(f: Path): int
      reads this
    {
      if f in visited then visited[f] else 0
    }

    /** Grey files are those on the path, every visited file was parsed, and the cache holds its text. */
    ghost predicate Held(path: seq<Path>)
      reads this
    {
      Coloured(visited, path, parsed) && Cached(files, cache, parsed)
    }

    /** While nothing has failed: the load has got to `at`. */
    ghost predicate Searching(at: Point)
      reads this
    {
      Held(PathOf(at)) && Reached(files, at) && parsed == Now(at)
    }

    /** From `at` on, loading went as `ts` says. */
    ghost predicate Loaded(at: Point, ts: seq<Tree>)
      reads this
    {
      && Held(PathOf(at))
      && FitsAll(files, true, PathOf(at), Now(at), ts)
      && parsed == Now(at) + FilesAll(ts)
    }

    /** Then the load has got that much further. */
    lemma GotFurther(at: Point, ts: seq<Tree>)
      requires Reached(files, at) && Loaded(at, ts) && Heads(at.done) + Heads(ts) <= RowOf(files, at)
      ensures Searching(After(at, ts))
    {
      hide Held, FitsAll, FilesAll, Reached, RowOf;
      ReachedAfter(files, at, ts);
    }

    method Load(file: Path, ghost at: Point) returns (r: Result<seq<Item>>, ghost t: Tree)
      requires Searching(at) && Visiting(files, at, file)
      modifies `visited, `cache, `parsed
      ensures r.Ok? ==> Loaded(at, [t])
      ensures r.Ok? ==> Head(t) == Visit(file, AsRoot) && r.value == Program(t)
      ensures r.Err? ==> Justified(files, RootsOf(at), r.error)
      ensures r.Err? ==> Stuck(files, PathOf(at), Now(at), [Visit(file, AsRoot)])
      decreases |files| - |PathOf(at)|, 1
    {
      hide Stuck, FitsAll, FilesAll, Justified, Reached, Visiting, Cached, Now, PathOf;
      t := Again(file, AsRoot);
      if Colour(file) == 1 {
        GreyIsCircular(at, file);
        return Err(Circular(file)), t;
      }
      if Colour(file) == 2 {
        BlackIsLoaded(at, file);
        return Ok([]), t;
      }
      r, t := LoadFresh(file, at);
    }

    lemma FailsHere(at: Point, e: Error)
      requires Fails(files, at, e)
      ensures Justified(files, RootsOf(at), e)
    {
      hide Fails;
    }

    lemma GreyIsCircular(at: Point, file: Path)
      requires Searching(at) && Visiting(files, at, file) && file in PathOf(at)
      ensures Justified(files, RootsOf(at), Circular(file))
      ensures Stuck(files, PathOf(at), Now(at), [Visit(file, AsRoot)])
    {
      hide Stuck, Held, Reached, Now, PathOf, Justified;
      assert Fails(files, at, Circular(file));
      FailsHere(at, Circular(file));
      PathIsParsed(files, at);
      StuckFile(files, PathOf(at), Now(at), file);
    }

    lemma BlackIsLoaded(at: Point, file: Path)
      requires Searching(at) && file in parsed && file !in PathOf(at)
      ensures Loaded(at, [Again(file, AsRoot)])
    {
      hide Held, FitsAll, FilesAll, Reached, Now, PathOf;
      Alone(files, true, PathOf(at), parsed, Again(file, AsRoot));
      assert parsed + [] == parsed;
    }

    /** The first visit of a file. */
    method LoadFresh(file: Path, ghost at: Point) returns (r: Result<seq<Item>>, ghost t: Tree)
      requires Searching(at) && Visiting(files, at, file) && file !in parsed
      modifies `visited, `cache, `parsed
      ensures r.Ok? ==> Loaded(at, [t])
      ensures r.Ok? ==> Head(t) == Visit(file, AsRoot) && r.value == Program(t)
      ensures r.Err? ==> Justified(files, RootsOf(at), r.error)
      ensures r.Err? ==> Stuck(files, PathOf(at), Now(at), [Visit(file, AsRoot)])
      decreases |files| - |PathOf(at)|, 0
    {
      hide Stuck, StepsOf, FitsAll, FilesAll, Held, Reached, Fits, Justified;
      t := Fresh(file, AsRoot, []);
      if file !in files {
        FailsHere(at, Unreadable(file));
        StuckFile(files, PathOf(at), parsed, file);
        visited := visited[file := 2];
        return Err(Unreadable(file)), t;
      }
      if files[file].Unparsable? {
        FailsHere(at, ParseFailed(file));
        StuckFile(files, PathOf(at), parsed, file);
        visited := visited[file := 2];
        return Err(ParseFailed(file)), t;
      }
      PathIsParsed(files, at);
      Enter(file, at);
      ghost var parts;
      r, parts := LoadStatements(file, files[file].stmts, Inside(at, file, []));
      if r.Ok? {
        t := Fresh(file, AsRoot, parts);
        FreshFits(at, t);
        Leave(file, at);
      } else {
        StuckFile(files, PathOf(at), Now(at), file);
        visited := visited[file := 2];
      }
    }

    lemma FreshFits(at: Point, t: Tree)
      requires t.Fresh? && t.how == AsRoot && t.target !in Now(at) && t.target in files && files[t.target].Parsed?
      requires Loaded(Inside(at, t.target, []), t.parts) && Heads(t.parts) == StepsOf(files, t.target)
      ensures FitsAll(files, true, PathOf(at), Now(at), [t]) && parsed == Now(at) + FilesAll([t])
      ensures t.target in parsed
    {
      NowInside(at, t.target);
      hide FitsAll, FilesAll, StepsOf, Held, Now;
      Alone(files, true, PathOf(at), Now(at), t);
      Regroup(Now(at), [t.target], FilesAll(t.parts));
    }

    /** The file turns grey, and its parsed text goes into the cache. */
    method Enter(file: Path, ghost at: Point)
      requires Searching(at) && Visiting(files, at, file) && file !in parsed
      requires file in files && files[file].Parsed?
      modifies `visited, `cache, `parsed
      ensures Searching(Inside(at, file, [])) && parsed == old(parsed) + [file]
      ensures |PathOf(at)| < |files|
    {
      ReachedOpen(files, at);
      OpenFurther(files, PathOf(at), parsed, file);
      ReachedInside(files, at, file);
      ColouredGrey(visited, PathOf(at), parsed, file);
      CachedMore(files, cache, parsed, file);
      hide Reached, Coloured, Cached, Now, Open;
      visited := visited[file := 1];
      cache := cache[file := files[file].stmts];
      parsed := parsed + [file];
    }

    /** The file turns black: the deferred update of the colour table. */
    method Leave(file: Path, ghost at: Point)
      requires Held(PathOf(at) + [file]) && file !in PathOf(at) && file in parsed
      modifies `visited
      ensures Held(PathOf(at))
    {
      ColouredBlack(visited, PathOf(at), parsed, file);
      hide Coloured, Cached;
      visited := visited[file := 2];
    }

    /** The loop over the statements of a parsed file. */
    method LoadStatements(file: Path, stmts: seq<Stmt>, ghost at: Point)
      returns (r: Result<seq<Item>>, ghost ts: seq<Tree>)
      requires Searching(at) && at.Inside? && at.file == file && at.done == []
      requires file in files && files[file] == Parsed(stmts)
      modifies `visited, `cache, `parsed
      ensures r.Ok? ==> Loaded(at, ts) && Heads(ts) == StepsOf(files, file)
      ensures r.Ok? ==> r.value == CarriedAll(ts)
      ensures r.Err? ==> Justified(files, RootsOf(at), r.error)
      ensures r.Err? ==> Stuck(files, PathOf(at), Now(at), StepsOf(files, file))
      decreases |files| - |PathOf(at)|, 4
    {
      hide Stuck, FitsAll, FilesAll, CarriedAll, Justified, Held, Reached, StepsFor, Fits, Heads, Now, StepsOf;
      hide AtStatement, StatementsDone;
      var merged: seq<Item> := [];
      ts := [];
      NoStatementDone(at, stmts);
      for i := 0 to |stmts|
        invariant StatementsDone(at, stmts, i, ts) && Searching(After(at, ts))
        invariant merged == CarriedAll(ts)
      {
        var sub: Result<seq<Item>>;
        ghost var more: seq<Tree>;
        ghost var here := After(at, ts);
        NextStatement(at, stmts, i, ts);
        if stmts[i].Import? {
          ghost var t;
          sub, t := LoadImport(file, i, here);
          more := [t];
        } else if stmts[i].Wildcard? {
          sub, more := LoadWildcard(file, i, here);
        } else {
          sub, more := Ok([Item(file, i, stmts[i])]), [Own(Item(file, i, stmts[i]))];
          OwnLoaded(here, file, i, stmts[i]);
        }
        if sub.Err? {
          StuckStatement(at, stmts, i, ts);
          return sub, ts;
        }
        StatementFurther(at, stmts, i, ts, more);
        ts := ts + more;
        merged := merged + sub.value;
      }
      AllStatementsDone(at, stmts, ts);
      r := Ok(merged);
    }

    /** The first `i` statements of the file opened at `at` have been loaded, as `ts` says. */
    ghost predicate StatementsDone(at: Point, stmts: seq<Stmt>, i: nat, ts: seq<Tree>)
      requires i <= |stmts|
    {
      && at.Inside? && at.done == [] && at.file in files && files[at.file] == Parsed(stmts)
      && Heads(ts) == Steps(at.file, stmts, i)
      && FitsAll(files, true, PathOf(at), Now(at), ts)
      && Now(After(at, ts)) == Now(at) + FilesAll(ts)
    }

    lemma NoStatementDone(at: Point, stmts: seq<Stmt>)
      requires Searching(at) && at.Inside? && at.done == [] && at.file in files && files[at.file] == Parsed(stmts)
      ensures StatementsDone(at, stmts, 0, []) && Searching(After(at, [])) && CarriedAll([]) == []
    {
      hide Held, Reached;
      NothingYet(at);
    }

    lemma NextStatement(at: Point, stmts: seq<Stmt>, i: nat, ts: seq<Tree>)
      requires i < |stmts| && StatementsDone(at, stmts, i, ts)
      ensures AtStatement(After(at, ts), at.file, i)
      ensures RootsOf(After(at, ts)) == RootsOf(at) && PathOf(After(at, ts)) == PathOf(at)
    {
      hide FitsAll, Now, Heads;
      assert [] + ts == ts;
      SameRow(at, ts);
    }

    lemma StatementFurther(at: Point, stmts: seq<Stmt>, i: nat, ts: seq<Tree>, more: seq<Tree>)
      requires i < |stmts| && StatementsDone(at, stmts, i, ts)
      requires Reached(files, After(at, ts)) && Loaded(After(at, ts), more)
      requires Heads(more) == StepsFor(at.file, i, stmts[i])
      ensures StatementsDone(at, stmts, i + 1, ts + more) && Searching(After(at, ts + more))
      ensures CarriedAll(ts + more) == CarriedAll(ts) + CarriedAll(more)
    {
      var here := After(at, ts);
      NextStatement(at, stmts, i, ts);
      StatementRow(here, at.file, i);
      assert Steps(at.file, stmts, i + 1) == Steps(at.file, stmts, i) + StepsFor(at.file, i, stmts[i]);
      hide FitsAll, FilesAll, CarriedAll, Held, Reached, Steps, StepsFor, Heads, Now, RowOf, PathOf, AtStatement;
      GotFurther(here, more);
      Joined(files, true, PathOf(at), Now(at), ts, more);
      Regroup(Now(at), FilesAll(ts), FilesAll(more));
      Regroup(at.done, ts, more);
    }

    lemma StuckStatement(at: Point, stmts: seq<Stmt>, i: nat, ts: seq<Tree>)
      requires i < |stmts| && StatementsDone(at, stmts, i, ts)
      requires Stuck(files, PathOf(at), Now(After(at, ts)), StepsFor(at.file, i, stmts[i]))
      ensures Stuck(files, PathOf(at), Now(at), StepsOf(files, at.file))
    {
      hide Stuck, FitsAll, FilesAll, StepsFor, Heads, Now;
      var rest := RestOfSteps(at.file, stmts, i);
      StuckBehind(files, PathOf(at), Now(at), ts, StepsFor(at.file, i, stmts[i]), rest);
    }

    lemma AllStatementsDone(at: Point, stmts: seq<Stmt>, ts: seq<Tree>)
      requires StatementsDone(at, stmts, |stmts|, ts) && Searching(After(at, ts))
      ensures Loaded(at, ts) && Heads(ts) == StepsOf(files, at.file)
    {
      hide Held, Reached, FitsAll, FilesAll, Now, Heads;
      SameRow(at, ts);
    }

    lemma NothingYet(at: Point)
      requires Searching(at)
      ensures After(at, []) == at && Loaded(at, []) && Heads([]) == [] && CarriedAll([]) == []
    {
      hide Held;
      assert at.done + [] == at.done;
      assert Now(at) + [] == Now(at);
    }

    lemma RestOfSteps(file: Path, stmts: seq<Stmt>, i: nat) returns (rest: seq<Step>)
      requires i < |stmts|
      ensures Steps(file, stmts, |stmts|) == Steps(file, stmts, i) + StepsFor(file, i, stmts[i]) + rest
    {
      hide StepsFor;
      StepsSplit(file, stmts, i + 1, |stmts|);
      rest := Steps(file, stmts, |stmts|)[|Steps(file, stmts, i + 1)|..];
    }

    lemma OwnLoaded(at: Point, file: Path, i: nat, s: Stmt)
      requires Searching(at) && !IsImport(s)
      ensures Loaded(at, [Own(Item(file, i, s))])
      ensures Heads([Own(Item(file, i, s))]) == StepsFor(file, i, s)
      ensures CarriedAll([Own(Item(file, i, s))]) == [Item(file, i, s)]
    {
      hide Held, Reached;
      var t := Own(Item(file, i, s));
      OwnFits(files, PathOf(at), parsed, t);
      Alone(files, true, PathOf(at), parsed, t);
      assert parsed + [] == parsed;
    }

    /** The next step at `at` is the first one of statement `i` of its file. */
    ghost predicate AtStatement(at: Point, file: Path, i: nat) {
      && at.Inside? && at.file == file && file in files && files[file].Parsed? && i < |files[file].stmts|
      && Heads(at.done) == Steps(file, files[file].stmts, i)
    }

    /** There its steps come next. */
    lemma StatementRow(at: Point, file: Path, i: nat)
      requires AtStatement(at, file, i)
      ensures Heads(at.done) + StepsFor(file, i, files[file].stmts[i]) <= RowOf(files, at)
      ensures |Heads(at.done)| == |at.done|
    {
      hide StepsFor;
      var rest := RestOfSteps(file, files[file].stmts, i);
    }

    /** `import "x"` or `import { a, b } from "x"`. Names are granted only by the first visit of the
        target: a second one sees an empty program. */
    method LoadImport(file: Path, i: nat, ghost at: Point) returns (r: Result<seq<Item>>, ghost t: Tree)
      requires Searching(at) && AtStatement(at, file, i) && files[file].stmts[i].Import?
      modifies `visited, `cache, `parsed
      ensures r.Ok? ==> Loaded(at, [t]) && Heads([t]) == StepsFor(file, i, files[file].stmts[i])
      ensures r.Ok? ==> r.value == CarriedAll([t]) == TakeVisible(Program(t))
      ensures r.Ok? && files[file].stmts[i].names != [] ==> old(Colour(files[file].stmts[i].target)) == 0
      ensures r.Ok? ==> forall n :: n in files[file].stmts[i].names ==> Exports(Program(t), n)
      ensures r.Err? ==> Justified(files, RootsOf(at), r.error)
      ensures r.Err? ==> Stuck(files, PathOf(at), Now(at), StepsFor(file, i, files[file].stmts[i]))
      decreases |files| - |PathOf(at)|, 2
    {
      UnparsedIsWhite(PathOf(at));
      StatementRow(at, file, i);
      hide Stuck, FitsAll, FilesAll, CarriedAll, Justified, Held, Reached, Fits, Heads, Program, TakeVisible, Exports;
      hide Now, RowOf, PathOf, RootsOf;
      var imp := files[file].stmts[i];
      ghost var how := ByImport((file, i), imp.names);
      assert Next(files, at) == Visit(imp.target, how);
      var sub;
      sub, t := Load(imp.target, at);
      if sub.Err? {
        StuckTarget(files, PathOf(at), Now(at), imp.target, how);
        return sub, t;
      }
      if |imp.names| > 0 {
        var ok := Validate(file, imp.names, sub.value);
        if ok.Err? {
          RejectionIsJustified(at, t, ok.error);
          return Err(ok.error), t;
        }
      }
      t := Retold(at, t, how);
      Alone(files, true, PathOf(at), Now(at), t);
      var merged := CollectVisible(sub.value);
      r := Ok(merged);
    }

    lemma UnparsedIsWhite(path: seq<Path>)
      requires Held(path)
      ensures forall f :: f !in parsed ==> Colour(f) == 0
    {
    }

    lemma RejectionIsJustified(at: Point, t: Tree, e: Error)
      requires Reached(files, at) && Pending(files, at) && at.Inside?
      requires Next(files, at).Visit? && Next(files, at).how.ByImport?
      requires FitsAll(files, true, PathOf(at), Now(at), [t]) && Head(t) == Visit(Next(files, at).target, AsRoot)
      requires Rejects(at.file, Next(files, at).how.names, Program(t), e)
      ensures Justified(files, RootsOf(at), e)
      ensures Stuck(files, PathOf(at), Now(at), [Next(files, at)])
    {
      hide Fits, FitsAll, Program, Reached, Now, PathOf, RowOf, Justified, Stuck;
      Alone(files, true, PathOf(at), Now(at), t);
      RejectsGrantsNot(at.file, Next(files, at).how, Program(t), e);
      assert Refuses(files, at, t, e);
      FailsHere(at, e);
      StuckNames(files, PathOf(at), Now(at), t, Next(files, at).target, Next(files, at).how);
    }

    /** An import whose path is a pattern. */
    method LoadWildcard(file: Path, i: nat, ghost at: Point)
      returns (r: Result<seq<Item>>, ghost ts: seq<Tree>)
      requires Searching(at) && AtStatement(at, file, i) && files[file].stmts[i].Wildcard?
      modifies `visited, `cache, `parsed
      ensures r.Ok? ==> Loaded(at, ts) && Heads(ts) == StepsFor(file, i, files[file].stmts[i])
      ensures r.Ok? ==> r.value == CarriedAll(ts)
      ensures r.Ok? ==> forall j :: 0 <= j < |ts| ==> Carried(ts[j]) == TakeAll(Program(ts[j]))
      ensures r.Err? ==> Justified(files, RootsOf(at), r.error)
      ensures r.Err? ==> Stuck(files, PathOf(at), Now(at), StepsFor(file, i, files[file].stmts[i]))
      decreases |files| - |PathOf(at)|, 3
    {
      StatementRow(at, file, i);
      hide Stuck, FitsAll, FilesAll, CarriedAll, Justified, Held, Reached, Heads, Program, TakeAll, Carried, Now, RowOf;
      var matches := files[file].stmts[i].matches;
      if matches == [] {
        EmptyPattern(at, file, i);
        return Err(NoMatch(file)), [];
      }
      r, ts := LoadMatches(matches, ByPattern((file, i)), at);
      if r.Ok? {
        PatternsTakeAll(ts, matches, ByPattern((file, i)));
      }
    }

    /** The loop over the matches of a pattern. */
    method LoadMatches(matches: seq<Path>, ghost how: How, ghost at: Point)
      returns (r: Result<seq<Item>>, ghost ts: seq<Tree>)
      requires how.ByPattern? && Searching(at) && Heads(at.done) + VisitEach(matches, how) <= RowOf(files, at)
      modifies `visited, `cache, `parsed
      ensures r.Ok? ==> Loaded(at, ts) && Heads(ts) == VisitEach(matches, how) && r.value == CarriedAll(ts)
      ensures r.Err? ==> Justified(files, RootsOf(at), r.error)
      ensures r.Err? ==> Stuck(files, PathOf(at), Now(at), VisitEach(matches, how))
      decreases |files| - |PathOf(at)|, 2
    {
      hide Stuck, FitsAll, FilesAll, CarriedAll, Justified, Held, Reached, Fits, Heads, Program, TakeAll, Carried, Now;
      hide RowOf, VisitEach, Visiting, Sofar;
      var merged: seq<Item> := [];
      ts := [];
      NoneVisited(at, matches, how);
      for j := 0 to |matches|
        invariant Sofar(at, matches, j, how, ts) && Searching(After(at, ts))
        invariant merged == CarriedAll(ts)
      {
        ghost var here := After(at, ts);
        NextVisit(at, matches, j, how, ts);
        var sub;
        ghost var t;
        sub, t := Load(matches[j], here);
        if sub.Err? {
          StuckTarget(files, PathOf(at), Now(here), matches[j], how);
          StuckVisit(at, matches, j, how, ts);
          return sub, ts;
        }
        t := Retold(here, t, how);
        var all := CollectAll(sub.value);
        OneFurther(at, matches, j, how, ts, t);
        ts := ts + [t];
        merged := merged + all;
      }
      AllVisited(at, matches, how, ts);
      r := Ok(merged);
    }

    lemma PatternsTakeAll(ts: seq<Tree>, fs: seq<Path>, how: How)
      requires how.ByPattern? && Heads(ts) == VisitEach(fs, how)
      ensures forall j :: 0 <= j < |ts| ==> Carried(ts[j]) == TakeAll(Program(ts[j]))
    {
      TakeNothing();
      hide TakeAll, CarriedAll;
      forall j | 0 <= j < |ts|
        ensures Carried(ts[j]) == TakeAll(Program(ts[j]))
      {
        assert |Heads(ts)| == |ts|;
        assert Head(ts[j]) == VisitEach(fs, how)[j];
      }
    }

    lemma EmptyPattern(at: Point, file: Path, i: nat)
      requires Reached(files, at) && AtStatement(at, file, i) && files[file].stmts[i] == Wildcard([])
      ensures Justified(files, RootsOf(at), NoMatch(file))
      ensures Stuck(files, PathOf(at), Now(at), [NoFiles])
    {
      StatementRow(at, file, i);
      hide Stuck, Reached, RowOf, Heads, Now, Justified;
      assert Next(files, at) == NoFiles;
      FailsHere(at, NoMatch(file));
      StuckEmpty(files, PathOf(at), Now(at));
    }

    /** The first `j` of a row of visits have been made from `at` on, as `ts` says. */
    ghost predicate Sofar(at: Point, fs: seq<Path>, j: nat, how: How, ts: seq<Tree>)
      requires j <= |fs|
    {
      && Heads(at.done) + VisitEach(fs, how) <= RowOf(files, at)
      && Heads(ts) == VisitEach(fs[..j], how)
      && FitsAll(files, true, PathOf(at), Now(at), ts)
      && Now(After(at, ts)) == Now(at) + FilesAll(ts)
    }

    lemma NoneVisited(at: Point, fs: seq<Path>, how: How)
      requires Searching(at) && Heads(at.done) + VisitEach(fs, how) <= RowOf(files, at)
      ensures Sofar(at, fs, 0, how, []) && Searching(After(at, [])) && CarriedAll([]) == []
    {
      hide Held, RowOf, Reached;
      NothingYet(at);
    }

    lemma AllVisited(at: Point, fs: seq<Path>, how: How, ts: seq<Tree>)
      requires Sofar(at, fs, |fs|, how, ts) && Searching(After(at, ts))
      ensures Loaded(at, ts) && Heads(ts) == VisitEach(fs, how)
    {
      hide Held, RowOf, Reached, FitsAll, FilesAll, Now, Heads;
      assert fs[..|fs|] == fs;
      SameRow(at, ts);
    }

    /** The next one comes next. */
    lemma NextVisit(at: Point, fs: seq<Path>, j: nat, how: How, ts: seq<Tree>)
      requires j < |fs| && Sofar(at, fs, j, how, ts)
      ensures Visiting(files, After(at, ts), fs[j])
      ensures Heads(After(at, ts).done) + [Visit(fs[j], how)] <= RowOf(files, After(at, ts))
      ensures RootsOf(After(at, ts)) == RootsOf(at) && PathOf(After(at, ts)) == PathOf(at)
    {
      hide RowOf, FitsAll, FilesAll, Now;
      HeadsConcat(at.done, ts);
      VisitSnoc(fs, j, how);
      assert VisitEach(fs[..j + 1], how) <= VisitEach(fs, how);
      SameRow(at, ts);
    }

    lemma SameRow(at: Point, ts: seq<Tree>)
      ensures RowOf(files, After(at, ts)) == RowOf(files, at) && RootsOf(After(at, ts)) == RootsOf(at)
      ensures PathOf(After(at, ts)) == PathOf(at)
    {
    }

    lemma HeadsConcat(a: seq<Tree>, b: seq<Tree>)
      ensures Heads(a + b) == Heads(a) + Heads(b) && |Heads(a + b)| == |a + b|
    {
    }

    /** A visit whose names are granted goes as that of a root. Only the first one has names to grant. */
    lemma Retold(at: Point, t: Tree, how: How) returns (u: Tree)
      requires Loaded(at, [t]) && !t.Own? && Grants(how, Program(t))
      ensures u == t.(how := how) && Loaded(at, [u]) && Program(u) == Program(t)
      ensures Carried(u) == Take(how, Program(t))
      ensures how.ByImport? && how.names != [] ==> t.target !in Now(at)
    {
      hide Held, Now, FitsAll, FilesAll;
      u := t.(how := how);
      Alone(files, true, PathOf(at), Now(at), t);
      Rehow(files, PathOf(at), Now(at), t, how);
      Alone(files, true, PathOf(at), Now(at), u);
      if how.ByImport? && how.names != [] {
        assert Exports(Program(t), how.names[0]);
      }
    }

    /** One more visit has been made. */
    lemma OneFurther(at: Point, fs: seq<Path>, j: nat, how: How, ts: seq<Tree>, t: Tree)
      requires j < |fs| && Sofar(at, fs, j, how, ts) && Head(t) == Visit(fs[j], how)
      requires Reached(files, After(at, ts)) && Loaded(After(at, ts), [t])
      ensures Sofar(at, fs, j + 1, how, ts + [t]) && Searching(After(at, ts + [t]))
      ensures CarriedAll(ts + [t]) == CarriedAll(ts) + Carried(t)
    {
      hide Held, Now, FitsAll, FilesAll, Reached, RowOf, CarriedAll, Carried, Heads;
      var here := After(at, ts);
      NextVisit(at, fs, j, how, ts);
      Alone(files, true, PathOf(at), Now(here), t);
      GotFurther(here, [t]);
      Regroup(at.done, ts, [t]);
      Joined(files, true, PathOf(at), Now(at), ts, [t]);
      Regroup(Now(at), FilesAll(ts), FilesAll([t]));
      VisitSnoc(fs, j, how);
    }

    lemma StuckVisit(at: Point, fs: seq<Path>, j: nat, how: How, ts: seq<Tree>)
      requires j < |fs| && Sofar(at, fs, j, how, ts)
      requires Stuck(files, PathOf(at), Now(After(at, ts)), [Visit(fs[j], how)])
      ensures Stuck(files, PathOf(at), Now(at), VisitEach(fs, how))
    {
      hide Stuck, FitsAll, FilesAll, Now, RowOf;
      var rest := VisitEach(fs, how)[j + 1..];
      StuckBehind(files, PathOf(at), Now(at), ts, [Visit(fs[j], how)], rest);
      assert Heads(ts) + [Visit(fs[j], how)] + rest == VisitEach(fs, how);
    }

    lemma VisitSnoc(fs: seq<Path>, j: nat, how: How)
      requires j < |fs|
      ensures VisitEach(fs[..j + 1], how) == VisitEach(fs[..j], how) + [Visit(fs[j], how)]
    {
    }

    /** A whole project: one entry file, or in directory mode every file in turn with one shared
        colour table. */
    method LoadProject(roots: seq<Path>) returns (r: Result<seq<Item>>, ghost forest: seq<Tree>)
      requires Held([]) && parsed == []
      modifies `visited, `cache, `parsed
      ensures r.Ok? <==> Loadable(files, roots)
      ensures r.Ok? ==> Loads(files, true, roots, forest) && r.value == CarriedAll(forest)
      ensures r.Ok? ==> forall x :: Select(r.value, x) == Expected(files, forest, x)
      ensures r.Ok? ==> parsed == FilesAll(forest) && Distinct(parsed)
      ensures r.Ok? ==> forall f :: f in parsed <==> FromSome(ImportGraph(files), roots, f)
      ensures r.Ok? ==> forall f, k: nat :: f in parsed && Asks(files, f, k) ==> Honoured(files, forest, f, k)
      ensures r.Ok? ==> AskedOnce(files, parsed)
      ensures forall e :: r == Err(e) <==> Justified(files, roots, e)
      ensures r.Err? ==> FromSome(ImportGraph(files), roots, r.error.file)
      ensures r.Err? ==> Caused(files, r.error)
    {
      hide Loads, Justified, Sound, Expected, Stuck, Honoured, Select, FromSome, Caused;
      r, forest := LoadRoots(roots);
      LoadableIff(files, roots);
      if r.Ok? {
        LoadsReached(files, true, roots, forest);
        LoadedIsGranted(files, roots, forest);
        GrantedOnce(files, forest);
        forall x
          ensures Select(r.value, x) == Expected(files, forest, x)
        {
          MergedExactly(files, true, roots, forest, x);
        }
        forall e
          ensures !Justified(files, roots, e)
        {
          if Justified(files, roots, e) { JustifiedFails(files, roots, e); }
        }
      } else {
        JustifiedFails(files, roots, r.error);
        JustifiedHasCause(files, roots, r.error);
        forall e | Justified(files, roots, e)
          ensures r == Err(e)
        {
          OneFailure(files, roots, e, r.error);
        }
      }
    }

    /** The loop over the roots. */
    method LoadRoots(roots: seq<Path>) returns (r: Result<seq<Item>>, ghost forest: seq<Tree>)
      requires Held([]) && parsed == []
      modifies `visited, `cache, `parsed
      ensures r.Ok? ==> Loads(files, true, roots, forest)
      ensures r.Ok? ==> r.value == CarriedAll(forest) && parsed == FilesAll(forest)
      ensures r.Err? ==> Justified(files, roots, r.error)
    {
      var merged: seq<Item> := [];
      ghost var at := Top(roots, []);
      forest := [];
      ReachedTop(files, roots);
      NoneVisited(at, roots, AsRoot);
      hide FitsAll, FilesAll, CarriedAll, Justified, Held, Reached, Fits, Heads, Program, Now, Sofar, VisitEach;
      for j := 0 to |roots|
        invariant Sofar(at, roots, j, AsRoot, forest) && Searching(After(at, forest))
        invariant merged == CarriedAll(forest)
      {
        ghost var here := After(at, forest);
        NextVisit(at, roots, j, AsRoot, forest);
        var sub;
        ghost var t;
        sub, t := Load(roots[j], here);
        if sub.Err? {
          return sub, forest;
        }
        t := Retold(here, t, AsRoot);
        OneFurther(at, roots, j, AsRoot, forest, t);
        forest := forest + [t];
        merged := merged + sub.value;
      }
      AllVisited(at, roots, AsRoot, forest);
      assert [] + FilesAll(forest) == FilesAll(forest);
      r := Ok(merged);
    }
  }

  /** What the files have to do with an error. */
  ghost predicate Caused(files: map<Path, Source>, e: Error) {
    match e
    case Circular(f) => exists w :: ClosedWalk(ImportGraph(files), w) && w[0] == f
    case Unreadable(f) => f !in files
    case ParseFailed(f) => f in files && files[f].Unparsable?
    case NoMatch(f) => Wildcard([]) in StmtsOf(files, f)
    case NotDefined(f, n) => Requests(files, f, n)
    case NotExported(f, n) => Requests(files, f, n)
  }

  lemma JustifiedHasCause(files: map<Path, Source>, roots: seq<Path>, e: Error)
    requires Justified(files, roots, e)
    ensures FromSome(ImportGraph(files), roots, e.file)
    ensures Caused(files, e)
  {
    hide Fails, ClosedWalk, FromSome, Requests;
    var p :| RootsOf(p) == roots && Fails(files, p, e);
    FailureHasCause(files, p, e);
  }

  lemma LoadedIsGranted(files: map<Path, Source>, roots: seq<Path>, forest: seq<Tree>)
    requires Loads(files, true, roots, forest)
    ensures Granted(files, forest)
  {
    hide FitsAll;
    StrictIsLoose(files, [], [], forest);
    NamesStandIff(files, roots, forest);
  }
}
