/** Load trees: which file is loaded by which import, and the program that comes out. A tree says
    how loading went; whether it fits the files is a matter of local rules. */
module LoadTrees {
  import opened Graphs
  import opened Imports
  import opened Options

  /** A place in the sources: file and statement index. */
  type Origin = (Path, nat)

  /** Why a file is visited: as a root, by an import, perhaps asking for names, or as a match of a
      pattern. */
  datatype How =
    | AsRoot
    | ByImport(site: Origin, names: seq<string>)
    | ByPattern(site: Origin)

  /** What the text of a file asks for, in order. */
  datatype Step =
    | Keep(item: Item)
    | Visit(target: Path, how: How)
    | NoFiles

  /** How a step went: an own statement, a file that was loaded before, or a first visit. */
  datatype Tree =
    | Own(item: Item)
    | Again(target: Path, how: How)
    | Fresh(target: Path, how: How, parts: seq<Tree>)

  // ---------------------------------------------------------------- the steps of a file

  function VisitEach(fs: seq<Path>, how: How): seq<Step> {
    seq(|fs|, j requires 0 <= j < |fs| => Visit(fs[j], how))
  }

  function StepsFor(file: Path, i: nat, s: Stmt): seq<Step> {
    match s
    case Import(t, names) => [Visit(t, ByImport((file, i), names))]
    case Wildcard(ms) => if ms == [] then [NoFiles] else VisitEach(ms, ByPattern((file, i)))
    case _ => [Keep(Item(file, i, s))]
  }

  function Steps(file: Path, stmts: seq<Stmt>, n: nat): seq<Step>
    requires n <= |stmts|
  {
    if n == 0 then [] else Steps(file, stmts, n - 1) + StepsFor(file, n - 1, stmts[n - 1])
  }

  ghost function StmtsOf(files: map<Path, Source>, f: Path): seq<Stmt> {
    if f in files && files[f].Parsed? then files[f].stmts else []
  }

  ghost function StepsOf(files: map<Path, Source>, f: Path): seq<Step> {
    Steps(f, StmtsOf(files, f), |StmtsOf(files, f)|)
  }

  ghost predicate Visits(steps: seq<Step>, v: Path) {
    exists k :: 0 <= k < |steps| && steps[k].Visit? && steps[k].target == v
  }

  lemma VisitsConcat(a: seq<Step>, b: seq<Step>, v: Path)
    ensures Visits(a + b, v) <==> Visits(a, v) || Visits(b, v)
  {
    if k :| 0 <= k < |a| && a[k].Visit? && a[k].target == v {
      assert (a + b)[k] == a[k];
    }
    if k :| 0 <= k < |b| && b[k].Visit? && b[k].target == v {
      assert (a + b)[|a| + k] == b[k];
    }
  }

  /** The steps visit exactly the files that are imported. */
  lemma {:induction false} VisitsTargets(file: Path, stmts: seq<Stmt>, n: nat, v: Path)
    requires n <= |stmts|
    ensures Visits(Steps(file, stmts, n), v) <==> v in Targets(stmts, n)
  {
    if n > 0 {
      VisitsTargets(file, stmts, n - 1, v);
      VisitsConcat(Steps(file, stmts, n - 1), StepsFor(file, n - 1, stmts[n - 1]), v);
      var s, last := stmts[n - 1], StepsFor(file, n - 1, stmts[n - 1]);
      if s.Wildcard? && v in s.matches {
        var j :| 0 <= j < |s.matches| && s.matches[j] == v;
        assert last[j] == Visit(v, ByPattern((file, n - 1)));
      } else if s.Import? {
        assert last[0] == Visit(s.target, ByImport((file, n - 1), s.names));
      }
    }
  }

  lemma EdgesAreVisits(files: map<Path, Source>, f: Path, v: Path)
    ensures Edge(ImportGraph(files), f, v) <==> Visits(StepsOf(files, f), v)
  {
    VisitsTargets(f, StmtsOf(files, f), |StmtsOf(files, f)|, v);
  }

  /** The import graph, read off the statements. */
  lemma EdgeIff(files: map<Path, Source>, f: Path, v: Path)
    ensures Edge(ImportGraph(files), f, v) <==>
            exists k :: 0 <= k < |StmtsOf(files, f)| &&
              match StmtsOf(files, f)[k]
              case Import(target, _) => target == v
              case Wildcard(matches) => v in matches
              case _ => false
  {
    TargetIff(StmtsOf(files, f), |StmtsOf(files, f)|, v);
  }

  lemma {:induction false} TargetIff(stmts: seq<Stmt>, n: nat, v: Path)
    requires n <= |stmts|
    ensures v in Targets(stmts, n) <==> exists k :: 0 <= k < n && v in StatementTargets(stmts[k])
  {
    if n > 0 { TargetIff(stmts, n - 1, v); }
  }

  /** The statement a step belongs to. */
  ghost function StatementOf(step: Step): Option<nat> {
    match step
    case Keep(it) => Some(it.index)
    case Visit(_, ByImport(site, _)) => Some(site.1)
    case Visit(_, ByPattern(site)) => Some(site.1)
    case _ => None
  }

  /** The steps come in the order of the statements. */
  lemma {:induction false} StepsInOrder(file: Path, stmts: seq<Stmt>, n: nat)
    requires n <= |stmts| && Wildcard([]) !in stmts[..n]
    ensures forall j :: 0 <= j < |Steps(file, stmts, n)| ==>
              StatementOf(Steps(file, stmts, n)[j]).Some? && StatementOf(Steps(file, stmts, n)[j]).value < n
    ensures forall i, j :: 0 <= i < j < |Steps(file, stmts, n)| ==>
              StatementOf(Steps(file, stmts, n)[i]).value <= StatementOf(Steps(file, stmts, n)[j]).value
  {
    if n > 0 {
      assert stmts[n - 1] == stmts[..n][n - 1] && stmts[..n - 1] == stmts[..n][..n - 1];
      StepsInOrder(file, stmts, n - 1);
      var before, last := Steps(file, stmts, n - 1), StepsFor(file, n - 1, stmts[n - 1]);
      assert forall j :: 0 <= j < |last| ==> StatementOf(last[j]) == Some(n - 1);
    }
  }

  /** Earlier statements give earlier steps. */
  lemma {:induction false} StepsSplit(file: Path, stmts: seq<Stmt>, n: nat, m: nat)
    requires n <= m <= |stmts|
    ensures Steps(file, stmts, n) <= Steps(file, stmts, m)
  {
    hide StepsFor;
    if n < m { StepsSplit(file, stmts, n, m - 1); }
  }

  // ---------------------------------------------------------------- what a tree yields

  function Head(t: Tree): Step {
    match t
    case Own(it) => Keep(it)
    case Again(f, h) => Visit(f, h)
    case Fresh(f, h, _) => Visit(f, h)
  }

  function Heads(ts: seq<Tree>): seq<Step> {
    seq(|ts|, j requires 0 <= j < |ts| => Head(ts[j]))
  }

  /** The files loaded in a tree, in the order in which they are parsed. */
  function Files(t: Tree): seq<Path> {
    if t.Fresh? then [t.target] + FilesAll(t.parts) else []
  }

  function FilesAll(ts: seq<Tree>): seq<Path> {
    if ts == [] then [] else FilesAll(ts[..|ts| - 1]) + Files(ts[|ts| - 1])
  }

  /** What an import takes over from the program of its target. */
  function TakeBy(plain: bool, items: seq<Item>): seq<Item> {
    if plain then TakeVisible(items) else TakeAll(items)
  }

  function Take(how: How, items: seq<Item>): seq<Item> {
    if how.AsRoot? then items else TakeBy(how.ByImport?, items)
  }

  /** The merged program of a loaded file; nothing for a file that was loaded before. */
  function Program(t: Tree): seq<Item> {
    if t.Fresh? then CarriedAll(t.parts) else []
  }

  function Carried(t: Tree): seq<Item> {
    if t.Own? then [t.item] else if t.Again? then [] else Take(t.how, CarriedAll(t.parts))
  }

  function CarriedAll(ts: seq<Tree>): seq<Item> {
    if ts == [] then [] else CarriedAll(ts[..|ts| - 1]) + Carried(ts[|ts| - 1])
  }

  // ---------------------------------------------------------------- when a tree fits the files

  /** The names asked for are exported by the program of the target. */
  ghost predicate Grants(how: How, items: seq<Item>) {
    how.ByImport? ==> forall n :: n in how.names ==> Exports(items, n)
  }

  /** `t` is how a visit goes while the files of `path` are being loaded and those of `before` have
      been parsed; with `strict` set the requested names count too. */
  ghost predicate Fits(files: map<Path, Source>, strict: bool, path: seq<Path>, before: seq<Path>, t: Tree)
    decreases t
  {
    (strict && !t.Own? ==> Grants(t.how, Program(t))) &&
    match t
    case Own(_) => true
    case Again(f, _) => f in before && f !in path
    case Fresh(f, _, parts) =>
      && f !in before
      && f in files && files[f].Parsed?
      && Heads(parts) == StepsOf(files, f)
      && FitsAll(files, strict, path + [f], before + [f], parts)
  }

  ghost predicate FitsAll(files: map<Path, Source>, strict: bool, path: seq<Path>, before: seq<Path>, ts: seq<Tree>)
    decreases ts
  {
    ts == [] ||
    var init := ts[..|ts| - 1];
    && FitsAll(files, strict, path, before, init)
    && Fits(files, strict, path, before + FilesAll(init), ts[|ts| - 1])
  }

  /** A forest that loads the roots one after the other. */
  ghost predicate Loads(files: map<Path, Source>, strict: bool, roots: seq<Path>, forest: seq<Tree>) {
    Heads(forest) == VisitEach(roots, AsRoot) && FitsAll(files, strict, [], [], forest)
  }

  lemma {:induction false} FitsAt(files: map<Path, Source>, strict: bool, path: seq<Path>, before: seq<Path>,
                                  ts: seq<Tree>, k: nat)
    requires FitsAll(files, strict, path, before, ts) && k <= |ts|
    ensures FitsAll(files, strict, path, before, ts[..k])
    ensures k < |ts| ==> Fits(files, strict, path, before + FilesAll(ts[..k]), ts[k])
    decreases |ts|
  {
    hide Fits;
    if k == |ts| {
      assert ts[..k] == ts;
    } else if k < |ts| - 1 {
      FitsAt(files, strict, path, before, ts[..|ts| - 1], k);
      assert ts[..|ts| - 1][..k] == ts[..k];
    }
  }

  lemma RowSnoc(files: map<Path, Source>, strict: bool, path: seq<Path>, before: seq<Path>, ts: seq<Tree>, t: Tree)
    ensures FilesAll(ts + [t]) == FilesAll(ts) + Files(t)
    ensures CarriedAll(ts + [t]) == CarriedAll(ts) + Carried(t)
    ensures FitsAll(files, strict, path, before, ts + [t]) <==>
            FitsAll(files, strict, path, before, ts) && Fits(files, strict, path, before + FilesAll(ts), t)
  {
    hide Fits, Files, Carried;
    assert (ts + [t])[..|ts|] == ts;
  }

  /** Joining two rows of steps. */
  lemma {:induction false} Joined(files: map<Path, Source>, strict: bool, path: seq<Path>, before: seq<Path>,
                                  a: seq<Tree>, b: seq<Tree>)
    ensures FilesAll(a + b) == FilesAll(a) + FilesAll(b)
    ensures CarriedAll(a + b) == CarriedAll(a) + CarriedAll(b)
    ensures Heads(a + b) == Heads(a) + Heads(b)
    ensures FitsAll(files, strict, path, before, a + b) <==>
            FitsAll(files, strict, path, before, a) && FitsAll(files, strict, path, before + FilesAll(a), b)
    decreases |b|
  {
    if b == [] {
      assert a + b == a;
    } else {
      var init, t := b[..|b| - 1], b[|b| - 1];
      hide Fits, FitsAll, Files, FilesAll, Carried, CarriedAll;
      Joined(files, strict, path, before, a, init);
      assert b == init + [t] && a + b == (a + init) + [t];
      RowSnoc(files, strict, path, before, a + init, t);
      RowSnoc(files, strict, path, before + FilesAll(a), init, t);
      Regroup(before, FilesAll(a), FilesAll(init));
      Regroup(FilesAll(a), FilesAll(init), Files(t));
      Regroup(CarriedAll(a), CarriedAll(init), Carried(t));
    }
  }

  lemma Alone(files: map<Path, Source>, strict: bool, path: seq<Path>, before: seq<Path>, t: Tree)
    ensures FilesAll([t]) == Files(t) && CarriedAll([t]) == Carried(t) && Heads([t]) == [Head(t)]
    ensures FitsAll(files, strict, path, before, [t]) <==> Fits(files, strict, path, before, t)
  {
    hide Fits, Files, Carried;
    assert [t][..0] == [];
    assert before + [] == before;
  }

  // ---------------------------------------------------------------- trees are determined by the files

  lemma {:induction false} TreeUnique(files: map<Path, Source>, strict: bool, path: seq<Path>, before: seq<Path>,
                                      a: Tree, b: Tree)
    requires Fits(files, strict, path, before, a) && Fits(files, strict, path, before, b)
    requires Head(a) == Head(b)
    ensures a == b
    decreases a
  {
    hide StepsOf, Grants;
    if a.Fresh? {
      ForestUnique(files, strict, path + [a.target], before + [a.target], a.parts, b.parts);
    }
  }

  /** There is at most one way to load. */
  lemma {:induction false} ForestUnique(files: map<Path, Source>, strict: bool, path: seq<Path>, before: seq<Path>,
                                        a: seq<Tree>, b: seq<Tree>)
    requires FitsAll(files, strict, path, before, a) && FitsAll(files, strict, path, before, b)
    requires Heads(a) == Heads(b)
    ensures a == b
    decreases a
  {
    hide Fits;
    assert |Heads(a)| == |a| && |Heads(b)| == |b|;
    if a != [] {
      var n := |a| - 1;
      assert Heads(a)[n] == Heads(b)[n];
      assert Heads(a[..n]) == Heads(a)[..n] == Heads(b[..n]);
      ForestUnique(files, strict, path, before, a[..n], b[..n]);
      TreeUnique(files, strict, path, before + FilesAll(a[..n]), a[n], b[n]);
      assert a == a[..n] + [a[n]] && b == b[..n] + [b[n]];
    }
  }

  /** No way to take the steps. */
  ghost predicate Stuck(files: map<Path, Source>, path: seq<Path>, before: seq<Path>, steps: seq<Step>) {
    forall ts :: Heads(ts) == steps ==> !FitsAll(files, true, path, before, ts)
  }

  /** Where the steps behind a loaded prefix cannot be taken, the whole row cannot. */
  lemma StuckBehind(files: map<Path, Source>, path: seq<Path>, before: seq<Path>,
                    done: seq<Tree>, next: seq<Step>, rest: seq<Step>)
    requires FitsAll(files, true, path, before, done)
    requires Stuck(files, path, before + FilesAll(done), next)
    ensures Stuck(files, path, before, Heads(done) + next + rest)
  {
    hide Heads, FitsAll, FilesAll;
    forall ts | Heads(ts) == Heads(done) + next + rest
      ensures !FitsAll(files, true, path, before, ts)
    {
      if FitsAll(files, true, path, before, ts) {
        HeadsSplit(ts, Heads(done), next, rest);
        var n, m := |Heads(done)|, |Heads(done)| + |next|;
        assert ts == ts[..m] + ts[m..] && ts[..m] == ts[..n] + ts[n..m];
        Joined(files, true, path, before, ts[..m], ts[m..]);
        Joined(files, true, path, before, ts[..n], ts[n..m]);
        ForestUnique(files, true, path, before, ts[..n], done);
        assert false;
      }
    }
  }

  lemma HeadsSplit(ts: seq<Tree>, a: seq<Step>, b: seq<Step>, c: seq<Step>)
    requires Heads(ts) == a + b + c
    ensures |ts| == |a| + |b| + |c|
    ensures Heads(ts[..|a|]) == a && Heads(ts[|a|..|a| + |b|]) == b
  {
    assert |Heads(ts)| == |ts|;
    assert Heads(ts[..|a|]) == Heads(ts)[..|a|];
    assert Heads(ts[|a|..|a| + |b|]) == Heads(ts)[|a|..|a| + |b|];
  }
}
