/** What the merged program of a load tree holds of every statement of the sources. */
module MergedProgram {
  import opened Graphs
  import opened Imports
  import opened LoadTrees
  import opened LoadOrder
  import opened Places

  // ---------------------------------------------------------------- the copies of one statement

  /** The items that come from one place in the sources. */
  function Select(items: seq<Item>, x: Origin): seq<Item> {
    if items == [] then []
    else (if (items[0].file, items[0].index) == x then [items[0]] else []) + Select(items[1..], x)
  }

  lemma {:induction false} SelectConcat(a: seq<Item>, b: seq<Item>, x: Origin)
    ensures Select(a + b, x) == Select(a, x) + Select(b, x)
  {
    if a == [] {
      assert a + b == b;
    } else {
      assert (a + b)[1..] == a[1..] + b;
      SelectConcat(a[1..], b, x);
    }
  }

  lemma SelectOne(it: Item, x: Origin)
    ensures Select([it], x) == if (it.file, it.index) == x then [it] else []
  {
  }

  function TakeOne(plain: bool, it: Item): seq<Item> {
    if plain then Visible(it) else [Unwrap(it)]
  }

  lemma TakeCons(plain: bool, it: Item, rest: seq<Item>)
    ensures TakeBy(plain, [it] + rest) == TakeOne(plain, it) + TakeBy(plain, rest)
  {
    assert ([it] + rest)[1..] == rest;
  }

  lemma {:induction false} SelectTake(plain: bool, items: seq<Item>, x: Origin)
    ensures Select(TakeBy(plain, items), x) == TakeBy(plain, Select(items, x))
  {
    hide StatementName, TakeBy;
    if items == [] {
      TakesNothing();
    } else {
      var it, rest := items[0], items[1..];
      SelectTake(plain, rest, x);
      assert items == [it] + rest;
      TakeCons(plain, it, rest);
      SelectConcat(TakeOne(plain, it), TakeBy(plain, rest), x);
      assert Select(TakeOne(plain, it), x) == if (it.file, it.index) == x then TakeOne(plain, it) else [];
      TakeCons(plain, it, Select(rest, x));
      assert Select(items, x) == if (it.file, it.index) == x then [it] + Select(rest, x) else Select(rest, x);
    }
  }

  ghost predicate IsSource(files: map<Path, Source>, x: Origin) {
    x.1 < |StmtsOf(files, x.0)| && !IsImport(StmtsOf(files, x.0)[x.1])
  }

  ghost function OwnCopy(files: map<Path, Source>, x: Origin): seq<Item> {
    if IsSource(files, x) then [Item(x.0, x.1, StmtsOf(files, x.0)[x.1])] else []
  }

  /** The statements a row of steps keeps. */
  function Kept(steps: seq<Step>): seq<Item> {
    if steps == [] then []
    else
      var n := |steps| - 1;
      Kept(steps[..n]) + if steps[n].Keep? then [steps[n].item] else []
  }

  lemma {:induction false} KeptConcat(a: seq<Step>, b: seq<Step>)
    ensures Kept(a + b) == Kept(a) + Kept(b)
    decreases |b|
  {
    if b == [] {
      assert a + b == a;
    } else {
      assert (a + b)[..|a + b| - 1] == a + b[..|b| - 1];
      KeptConcat(a, b[..|b| - 1]);
    }
  }

  lemma {:induction false} KeptVisits(fs: seq<Path>, how: How)
    ensures Kept(VisitEach(fs, how)) == []
  {
    if fs != [] {
      var n := |fs| - 1;
      assert VisitEach(fs, how)[..n] == VisitEach(fs[..n], how);
      KeptVisits(fs[..n], how);
    }
  }

  lemma KeptFor(file: Path, i: nat, s: Stmt)
    ensures Kept(StepsFor(file, i, s)) == if IsImport(s) then [] else [Item(file, i, s)]
  {
    if s.Wildcard? {
      KeptVisits(s.matches, ByPattern((file, i)));
    }
    assert forall step: Step :: [step][..0] == [];
  }

  /** Every statement of a file that is no import is kept once. */
  lemma {:induction false} KeptOnce(file: Path, stmts: seq<Stmt>, n: nat, x: Origin)
    requires n <= |stmts|
    ensures Select(Kept(Steps(file, stmts, n)), x) ==
            if x.0 == file && x.1 < n && !IsImport(stmts[x.1]) then [Item(file, x.1, stmts[x.1])] else []
  {
    hide StepsFor, Kept, Select;
    if n == 0 {
      KeptNothing(x);
    } else {
      var s := stmts[n - 1];
      KeptOnce(file, stmts, n - 1, x);
      KeptConcat(Steps(file, stmts, n - 1), StepsFor(file, n - 1, s));
      KeptFor(file, n - 1, s);
      SelectConcat(Kept(Steps(file, stmts, n - 1)), Kept(StepsFor(file, n - 1, s)), x);
      KeptNothing(x);
      SelectOne(Item(file, n - 1, s), x);
    }
  }

  lemma KeptNothing(x: Origin)
    ensures Kept([]) == [] && Select([], x) == []
  {
  }

  // ---------------------------------------------------------------- the way of a statement to the root

  /** The imports on the way from a file up to its root: plain ones or patterns. */
  function Hops(t: Tree, f: Path): seq<bool> {
    if !t.Fresh? then []
    else
      var inner := if f == t.target then [] else HopsAll(t.parts, f);
      if t.how.AsRoot? then inner else inner + [t.how.ByImport?]
  }

  function HopsAll(ts: seq<Tree>, f: Path): seq<bool> {
    if ts == [] then []
    else
      var n := |ts| - 1;
      if f in Files(ts[n]) then Hops(ts[n], f) else HopsAll(ts[..n], f)
  }

  /** What is left of the items after a sequence of imports. */
  function Pass(hops: seq<bool>, items: seq<Item>): seq<Item> {
    if hops == [] then items
    else
      var n := |hops| - 1;
      TakeBy(hops[n], Pass(hops[..n], items))
  }

  lemma PartsFit(files: map<Path, Source>, strict: bool, path: seq<Path>, before: seq<Path>, t: Tree)
    requires Fits(files, strict, path, before, t) && t.Fresh?
    ensures Heads(t.parts) == StepsOf(files, t.target)
    ensures FitsAll(files, strict, path + [t.target], before + [t.target], t.parts)
  {
    hide FitsAll, Grants, StepsOf;
  }

  lemma KeptOf(files: map<Path, Source>, f: Path, x: Origin)
    ensures Select(Kept(StepsOf(files, f)), x) == if x.0 == f then OwnCopy(files, x) else []
  {
    hide Select, Kept, Steps;
    KeptOnce(f, StmtsOf(files, f), |StmtsOf(files, f)|, x);
  }

  lemma {:induction false} Absent(files: map<Path, Source>, strict: bool, path: seq<Path>, before: seq<Path>,
                                  t: Tree, x: Origin)
    requires Fits(files, strict, path, before, t) && !t.Own? && x.0 !in Files(t)
    ensures Select(Carried(t), x) == []
    decreases t
  {
    hide Fits, FitsAll, Grants, TakeBy, StepsOf, Kept;
    if t.Fresh? {
      PartsFit(files, strict, path, before, t);
      AbsentAll(files, strict, path + [t.target], before + [t.target], t.parts, x);
      KeptOf(files, t.target, x);
      SelectCarried(t, x);
      TakesNothing();
    }
  }

  lemma SelectCarried(t: Tree, x: Origin)
    requires t.Fresh?
    ensures Select(Carried(t), x) == Take(t.how, Select(CarriedAll(t.parts), x))
  {
    hide TakeBy;
    SelectTake(t.how.ByImport?, CarriedAll(t.parts), x);
  }

  lemma TakesNothing()
    ensures TakeBy(true, []) == [] && TakeBy(false, []) == []
  {
  }

  /** Of a file that is not loaded in a row of steps, only statements the steps keep can show up. */
  lemma {:induction false} AbsentAll(files: map<Path, Source>, strict: bool, path: seq<Path>, before: seq<Path>,
                                     ts: seq<Tree>, x: Origin)
    requires FitsAll(files, strict, path, before, ts) && x.0 !in FilesAll(ts)
    ensures Select(CarriedAll(ts), x) == Select(Kept(Heads(ts)), x)
    decreases ts
  {
    hide Fits, Files;
    if ts != [] {
      var n := |ts| - 1;
      AbsentAll(files, strict, path, before, ts[..n], x);
      KeptLast(ts);
      SelectConcat(CarriedAll(ts[..n]), Carried(ts[n]), x);
      SelectConcat(Kept(Heads(ts[..n])), if ts[n].Own? then [ts[n].item] else [], x);
      if !ts[n].Own? {
        Absent(files, strict, path, before + FilesAll(ts[..n]), ts[n], x);
      }
    }
  }

  lemma KeptLast(ts: seq<Tree>)
    requires ts != []
    ensures var n := |ts| - 1; Kept(Heads(ts)) == Kept(Heads(ts[..n])) + if ts[n].Own? then [ts[n].item] else []
  {
    var n := |ts| - 1;
    assert Heads(ts)[..n] == Heads(ts[..n]);
    assert Heads(ts)[n] == Head(ts[n]);
  }

  lemma {:induction false} Present(files: map<Path, Source>, strict: bool, path: seq<Path>, before: seq<Path>,
                                   t: Tree, x: Origin)
    requires Fits(files, strict, path, before, t) && Distinct(Files(t)) && x.0 in Files(t)
    ensures Select(Carried(t), x) == Pass(Hops(t, x.0), OwnCopy(files, x))
    decreases t
  {
    hide Fits, FitsAll, Grants, TakeBy, Distinct, StepsOf, Kept, Pass, OwnCopy, Select;
    var f, parts := t.target, t.parts;
    PartsFit(files, strict, path, before, t);
    KeptOf(files, f, x);
    HeadOnce(f, FilesAll(parts));
    SelectCarried(t, x);
    if x.0 == f {
      AbsentAll(files, strict, path + [f], before + [f], parts, x);
    } else {
      PresentAll(files, strict, path + [f], before + [f], parts, x);
    }
    var inner := if x.0 == f then [] else HopsAll(parts, x.0);
    PassNone(OwnCopy(files, x));
    PassSnoc(inner, t.how.ByImport?, OwnCopy(files, x));
  }

  lemma PassNone(items: seq<Item>)
    ensures Pass([], items) == items
  {
  }

  lemma PassSnoc(hops: seq<bool>, plain: bool, items: seq<Item>)
    ensures Pass(hops + [plain], items) == TakeBy(plain, Pass(hops, items))
  {
    assert (hops + [plain])[..|hops|] == hops;
  }

  lemma HeadOnce(f: Path, rest: seq<Path>)
    requires Distinct([f] + rest)
    ensures f !in rest && Distinct(rest)
  {
    var s := [f] + rest;
    assert s[0] == f && forall k :: 0 <= k < |rest| ==> rest[k] == s[k + 1];
  }

  lemma {:induction false} PresentAll(files: map<Path, Source>, strict: bool, path: seq<Path>, before: seq<Path>,
                                      ts: seq<Tree>, x: Origin)
    requires FitsAll(files, strict, path, before, ts) && Distinct(FilesAll(ts)) && x.0 in FilesAll(ts)
    requires Select(Kept(Heads(ts)), x) == []
    ensures Select(CarriedAll(ts), x) == Pass(HopsAll(ts, x.0), OwnCopy(files, x))
    decreases ts
  {
    hide Fits, Files, Distinct, Hops, Pass;
    var n := |ts| - 1;
    var init, last := ts[..n], ts[n];
    DistinctSplit(FilesAll(init), Files(last));
    KeptLast(ts);
    SelectConcat(CarriedAll(init), Carried(last), x);
    SelectConcat(Kept(Heads(init)), if last.Own? then [last.item] else [], x);
    if x.0 in Files(last) {
      AbsentAll(files, strict, path, before, init, x);
      Present(files, strict, path, before + FilesAll(init), last, x);
    } else {
      PresentAll(files, strict, path, before, init, x);
      if !last.Own? {
        Absent(files, strict, path, before + FilesAll(init), last, x);
      }
    }
  }

  // ---------------------------------------------------------------- which statements survive

  /** The number of export markers around a statement. */
  function Depth(s: Stmt): nat {
    if s.Export? then 1 + Depth(s.inner) else 0
  }

  function Peel(s: Stmt, n: nat): Stmt {
    if n == 0 || !s.Export? then s else Peel(s.inner, n - 1)
  }

  lemma {:induction false} PeelOnce(s: Stmt, n: nat)
    ensures Peel(s, n).Export? <==> n < Depth(s)
    ensures Peel(s, n + 1) == if Peel(s, n).Export? then Peel(s, n).inner else Peel(s, n)
    ensures StatementName(Peel(s, n)) == StatementName(s)
  {
    if n > 0 && s.Export? { PeelOnce(s.inner, n - 1); }
  }

  /** A statement without a name always gets through. One with a name needs an export marker for
      every plain import, and every import before it has used one up. */
  predicate Survives(hops: seq<bool>, s: Stmt) {
    StatementName(s) == "" || forall k :: 0 <= k < |hops| && hops[k] ==> k < Depth(s)
  }

  /** An unexported declaration passes patterns only; an exported one may pass one plain import, as
      the first on its way. */
  lemma SurvivesByMarker(hops: seq<bool>, name: string)
    requires name != ""
    ensures Survives(hops, Decl(name)) <==> true !in hops
    ensures hops != [] ==> (Survives(hops, Export(Decl(name))) <==> true !in hops[1..])
  {
    if hops != [] {
      assert forall k :: 0 < k < |hops| ==> hops[1..][k - 1] == hops[k];
    }
  }

  function Patterns(hops: seq<bool>): nat {
    if hops == [] then 0
    else Patterns(hops[..|hops| - 1]) + if hops[|hops| - 1] then 0 else 1
  }

  /** How many export markers are taken off. */
  function Unwraps(hops: seq<bool>, s: Stmt): nat {
    if StatementName(s) == "" then Patterns(hops) else |hops|
  }

  lemma SurvivesSnoc(hops: seq<bool>, plain: bool, s: Stmt)
    ensures Survives(hops + [plain], s) <==>
            Survives(hops, s) && (StatementName(s) == "" || (plain ==> |hops| < Depth(s)))
    ensures Unwraps(hops + [plain], s) == Unwraps(hops, s) + if StatementName(s) == "" && plain then 0 else 1
  {
    hide StatementName, Depth;
    var longer := hops + [plain];
    assert longer[..|hops|] == hops && longer[|hops|] == plain;
    if Survives(longer, s) && StatementName(s) != "" {
      assert forall k :: 0 <= k < |hops| ==> longer[k] == hops[k];
    }
  }

  /** One more import of a statement that has lost `n` export markers. */
  lemma TakePeeled(plain: bool, it: Item, n: nat)
    ensures TakeOne(plain, it.(stmt := Peel(it.stmt, n))) ==
            if StatementName(it.stmt) == "" && plain then [it.(stmt := Peel(it.stmt, n))]
            else if plain && n >= Depth(it.stmt) then []
            else [it.(stmt := Peel(it.stmt, n + 1))]
  {
    hide StatementName, Depth, Peel;
    PeelOnce(it.stmt, n);
  }

  lemma {:induction false} PassExactly(hops: seq<bool>, it: Item)
    ensures Pass(hops, [it]) ==
            if Survives(hops, it.stmt) then [it.(stmt := Peel(it.stmt, Unwraps(hops, it.stmt)))] else []
  {
    hide StatementName, Depth, Peel, TakeBy, TakeOne;
    if hops == [] {
      PeelNothing(it.stmt);
    } else {
      var init, plain := hops[..|hops| - 1], hops[|hops| - 1];
      assert hops == init + [plain];
      PassExactly(init, it);
      SurvivesSnoc(init, plain, it.stmt);
      hide Survives;
      TakesNothing();
      TakeAlone(plain, it.(stmt := Peel(it.stmt, Unwraps(init, it.stmt))));
      TakePeeled(plain, it, Unwraps(init, it.stmt));
    }
  }

  lemma TakeAlone(plain: bool, it: Item)
    ensures TakeBy(plain, [it]) == TakeOne(plain, it)
  {
    assert [it] + [] == [it];
    TakeCons(plain, it, []);
    TakesNothing();
  }

  lemma PeelNothing(s: Stmt)
    ensures Peel(s, 0) == s
  {
  }

  /** What becomes of the statement at `x`. */
  ghost function Expected(files: map<Path, Source>, forest: seq<Tree>, x: Origin): seq<Item> {
    if x.0 in FilesAll(forest) && IsSource(files, x) then
      var s, hops := StmtsOf(files, x.0)[x.1], HopsAll(forest, x.0);
      if Survives(hops, s) then [Item(x.0, x.1, Peel(s, Unwraps(hops, s)))] else []
    else []
  }

  /** The merged program, statement by statement: nothing twice, and exactly what survives the
      imports between its file and the root. */
  lemma MergedExactly(files: map<Path, Source>, strict: bool, roots: seq<Path>, forest: seq<Tree>, x: Origin)
    requires Loads(files, strict, roots, forest)
    ensures Select(CarriedAll(forest), x) == Expected(files, forest, x)
  {
    hide Fits, FitsAll, Survives;
    LoadsReached(files, strict, roots, forest);
    KeptVisits(roots, AsRoot);
    if x.0 in FilesAll(forest) {
      PresentAll(files, strict, [], [], forest, x);
      var hops := HopsAll(forest, x.0);
      if IsSource(files, x) {
        PassExactly(hops, OwnCopy(files, x)[0]);
      } else {
        PassNothing(hops);
      }
    } else {
      AbsentAll(files, strict, [], [], forest, x);
    }
  }

  lemma {:induction false} PassNothing(hops: seq<bool>)
    ensures Pass(hops, []) == []
  {
    TakesNothing();
    if hops != [] { PassNothing(hops[..|hops| - 1]); }
  }

  // ---------------------------------------------------------------- the order of the statements

  function OriginOf(it: Item): Origin {
    (it.file, it.index)
  }

  /** The place in the load tree leads to an own statement of a file: indices of steps, each but the
      last of one that loads a file. */
  ghost predicate StandsAt(ts: seq<Tree>, p: Place, x: Origin)
    decreases |p|
  {
    && p != [] && p[0] < |ts|
    && if |p| == 1 then ts[p[0]].Own? && OriginOf(ts[p[0]].item) == x
       else ts[p[0]].Fresh? && StandsAt(ts[p[0]].parts, p[1..], x)
  }

  /** The items come from these places, in the order of the tree. */
  ghost predicate Placed(ts: seq<Tree>, items: seq<Item>, ps: seq<Place>) {
    && |ps| == |items| && InTextOrder(ps)
    && forall k :: 0 <= k < |ps| ==> StandsAt(ts, ps[k], OriginOf(items[k]))
  }

  /** The merged program keeps the order of the text: own statements in order, and what an import
      brings where the import stands. */
  lemma {:induction false} MergedInOrder(ts: seq<Tree>) returns (ps: seq<Place>)
    ensures Placed(ts, CarriedAll(ts), ps)
    decreases ts
  {
    if ts == [] {
      return [];
    }
    var n := |ts| - 1;
    var t := ts[n];
    var before := MergedInOrder(ts[..n]);
    var last: seq<Place>;
    if t.Own? {
      last := [[n]];
    } else if t.Again? {
      last := [];
    } else {
      var inner := MergedInOrder(t.parts);
      var taken := TakenPlaces(t.how, t.parts, CarriedAll(t.parts), inner);
      last := Below([n], taken);
      PlacedBelow(ts, Take(t.how, CarriedAll(t.parts)), taken);
    }
    PlacedEarlier(ts, CarriedAll(ts[..n]), before);
    hide CarriedAll, Carried;
    ps := before + last;
    PlacedJoined(ts, CarriedAll(ts[..n]), before, Carried(t), last);
    CarriedSnoc(ts);
  }

  lemma CarriedSnoc(ts: seq<Tree>)
    requires ts != []
    ensures CarriedAll(ts) == CarriedAll(ts[..|ts| - 1]) + Carried(ts[|ts| - 1])
  {
  }

  lemma PlacedEarlier(ts: seq<Tree>, items: seq<Item>, ps: seq<Place>)
    requires ts != [] && Placed(ts[..|ts| - 1], items, ps)
    ensures Placed(ts, items, ps) && forall p :: p in ps ==> p != [] && p[0] < |ts| - 1
  {
    forall k | 0 <= k < |ps|
      ensures StandsAt(ts, ps[k], OriginOf(items[k])) && ps[k][0] < |ts| - 1
    {
      assert StandsAt(ts[..|ts| - 1], ps[k], OriginOf(items[k]));
    }
  }

  lemma PlacedBelow(ts: seq<Tree>, items: seq<Item>, qs: seq<Place>)
    requires ts != [] && ts[|ts| - 1].Fresh? && Placed(ts[|ts| - 1].parts, items, qs)
    ensures Placed(ts, items, Below([|ts| - 1], qs))
    ensures forall p :: p in Below([|ts| - 1], qs) ==> p != [] && p[0] == |ts| - 1
  {
    var n := |ts| - 1;
    OrderBelow([n], qs);
    forall k | 0 <= k < |qs|
      ensures StandsAt(ts, Below([n], qs)[k], OriginOf(items[k]))
    {
      var p := Below([n], qs)[k];
      assert p == [n] + qs[k] && p[1..] == qs[k];
      assert StandsAt(ts[n].parts, qs[k], OriginOf(items[k]));
    }
  }

  lemma PlacedJoined(ts: seq<Tree>, a: seq<Item>, ps: seq<Place>, b: seq<Item>, qs: seq<Place>)
    requires ts != [] && Placed(ts, a, ps) && Placed(ts, b, qs)
    requires forall p :: p in ps ==> p != [] && p[0] < |ts| - 1
    requires forall q :: q in qs ==> q != [] && q[0] == |ts| - 1
    ensures Placed(ts, a + b, ps + qs)
  {
    forall i, j | 0 <= i < |ps| && 0 <= j < |qs|
      ensures PartsAt(ps[i], qs[j], 0)
    {
    }
    OrderJoined(ps, qs, 0);
    hide StandsAt, InTextOrder;
    forall k | 0 <= k < |ps + qs|
      ensures StandsAt(ts, (ps + qs)[k], OriginOf((a + b)[k]))
    {
      if k >= |ps| { assert (ps + qs)[k] == qs[k - |ps|] && (a + b)[k] == b[k - |a|]; }
    }
  }

  /** The places of what an import takes over. */
  lemma TakenPlaces(how: How, ts: seq<Tree>, items: seq<Item>, ps: seq<Place>) returns (taken: seq<Place>)
    requires Placed(ts, items, ps)
    ensures Placed(ts, Take(how, items), taken)
  {
    taken := ps;
    if !how.AsRoot? {
      taken := TakenBy(how.ByImport?, ts, items, ps);
    }
  }

  lemma {:induction false} TakenBy(plain: bool, ts: seq<Tree>, items: seq<Item>, ps: seq<Place>)
    returns (taken: seq<Place>)
    requires Placed(ts, items, ps)
    ensures Placed(ts, TakeBy(plain, items), taken) && forall p :: p in taken ==> p in ps
  {
    if items == [] {
      TakesNothing();
      return [];
    }
    assert |ps| == |items|;
    hide TakeBy, StandsAt, StatementName, Placed, Earlier;
    var it, rest := items[0], items[1..];
    assert items == [it] + rest && ps == [ps[0]] + ps[1..];
    PlacedTail(ts, items, ps);
    var later := TakenBy(plain, ts, rest, ps[1..]);
    TakeCons(plain, it, rest);
    var head := TakeOne(plain, it);
    if head == [] {
      assert TakeBy(plain, items) == TakeBy(plain, rest);
      taken := later;
    } else {
      assert head == [head[0]] && OriginOf(head[0]) == OriginOf(it);
      PlacedCons(ts, head[0], ps[0], TakeBy(plain, rest), later);
      taken := [ps[0]] + later;
    }
  }

  lemma PlacedTail(ts: seq<Tree>, items: seq<Item>, ps: seq<Place>)
    requires items != [] && Placed(ts, items, ps)
    ensures Placed(ts, items[1..], ps[1..]) && StandsAt(ts, ps[0], OriginOf(items[0]))
    ensures forall q :: q in ps[1..] ==> Earlier(ps[0], q)
  {
    hide StandsAt, Earlier;
    assert forall k :: 0 <= k < |ps[1..]| ==> ps[1..][k] == ps[k + 1] && items[1..][k] == items[k + 1];
  }

  lemma PlacedCons(ts: seq<Tree>, it: Item, p: Place, items: seq<Item>, ps: seq<Place>)
    requires Placed(ts, items, ps) && StandsAt(ts, p, OriginOf(it)) && forall q :: q in ps ==> Earlier(p, q)
    ensures Placed(ts, [it] + items, [p] + ps)
  {
    hide StandsAt, Earlier;
  }
}
