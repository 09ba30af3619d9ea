/** Two small projects on which loading may surprise. */
module LoadCases {
  import opened Imports
  import opened LoadTrees
  import opened LoadOrder
  import opened MergedProgram
  import opened NamedImports
  import opened LoadFailures

  /** The single visit of a file without imports but one statement. */
  ghost function Leaf(b: Path, how: How, s: Stmt): Tree {
    Fresh(b, how, [Own(Item(b, 0, s))])
  }

  lemma LeafFits(files: map<Path, Source>, strict: bool, path: seq<Path>, before: seq<Path>,
                 b: Path, how: How, s: Stmt)
    requires b in files && files[b] == Parsed([s]) && !IsImport(s) && b !in before
    requires strict ==> Grants(how, [Item(b, 0, s)])
    ensures Fits(files, strict, path, before, Leaf(b, how, s)) && Files(Leaf(b, how, s)) == [b]
    ensures Program(Leaf(b, how, s)) == [Item(b, 0, s)]
  {
    var own := Own(Item(b, 0, s));
    Alone(files, strict, path + [b], before + [b], own);
    OwnFits(files, path + [b], before + [b], own);
    StepsOfOne(b, s);
  }

  lemma StepsOfOne(f: Path, s: Stmt)
    ensures Steps(f, [s], 1) == StepsFor(f, 0, s)
  {
    assert Steps(f, [s], 0) == [];
  }

  lemma StepsOfTwo(f: Path, s: Stmt, s': Stmt)
    ensures Steps(f, [s, s'], 2) == StepsFor(f, 0, s) + StepsFor(f, 1, s')
  {
    assert Steps(f, [s, s'], 0) == [];
    assert Steps(f, [s, s'], 1) == StepsFor(f, 0, s);
  }

  /** The visit of a file whose only statement is a plain import. */
  lemma ChainFits(files: map<Path, Source>, path: seq<Path>, before: seq<Path>, a: Path, how: How, sub: Tree)
    requires a in files && a !in before && !sub.Own? && sub.how == ByImport((a, 0), [])
    requires files[a] == Parsed([Import(sub.target, [])])
    requires Fits(files, true, path + [a], before + [a], sub)
    requires how.ByImport? ==> how.names == []
    ensures Fits(files, true, path, before, Fresh(a, how, [sub])) && Files(Fresh(a, how, [sub])) == [a] + Files(sub)
    ensures Program(Fresh(a, how, [sub])) == TakeVisible(Program(sub))
  {
    hide TakeVisible;
    Alone(files, true, path + [a], before + [a], sub);
    StepsOfOne(a, Import(sub.target, []));
    TakeNothing();
  }

  lemma OneRoot(files: map<Path, Source>, strict: bool, t: Tree)
    requires !t.Own? && t.how == AsRoot && Fits(files, strict, [], [], t)
    ensures Loads(files, strict, [t.target], [t]) && CarriedAll([t]) == Carried(t) && FilesAll([t]) == Files(t)
  {
    hide Fits;
    Alone(files, strict, [], [], t);
    assert Heads([t])[0] == VisitEach([t.target], AsRoot)[0];
  }

  /** An export is unwrapped by the first plain import and lost at the second: with main importing a
      and a importing b, an exported declaration of b is in the program of a, and not in that of main. */
  lemma ExportLostOnSecondHop(main: Path, a: Path, b: Path, foo: string)
    requires main != a && a != b && main != b && foo != ""
    ensures var files := map[main := Parsed([Import(a, [])]), a := Parsed([Import(b, [])]),
                             b := Parsed([Export(Decl(foo))])];
            && Loadable(files, [main]) && Loadable(files, [a])
            && (forall forest :: Loads(files, true, [a], forest) ==> CarriedAll(forest) == [Item(b, 0, Decl(foo))])
            && (forall forest :: Loads(files, true, [main], forest) ==> CarriedAll(forest) == [])
  {
    hide Fits, Loads, Loadable, Grants, Program, TakeVisible, CarriedAll;
    var files := map[main := Parsed([Import(a, [])]), a := Parsed([Import(b, [])]), b := Parsed([Export(Decl(foo))])];
    var decl := Item(b, 0, Decl(foo));
    var tb := Leaf(b, ByImport((a, 0), []), Export(Decl(foo)));
    OnlyOnceVisible(b, foo);
    NothingAsked(tb.how, [Item(b, 0, Export(Decl(foo)))]);
    LeafFits(files, true, [a], [a], b, tb.how, Export(Decl(foo)));
    var alone := RootChain(files, a, tb);
    var ta := Fresh(a, ByImport((main, 0), []), [tb]);
    LeafFits(files, true, [main] + [a], [main] + [a], b, tb.how, Export(Decl(foo)));
    ChainFits(files, [main], [main], a, ta.how, tb);
    var whole := RootChain(files, main, ta);
    forall forest | Loads(files, true, [a], forest)
      ensures CarriedAll(forest) == [decl]
    {
      SameForest(files, [a], forest, [alone]);
    }
    forall forest | Loads(files, true, [main], forest)
      ensures CarriedAll(forest) == []
    {
      SameForest(files, [main], forest, [whole]);
    }
  }

  lemma OnlyOnceVisible(b: Path, foo: string)
    requires foo != ""
    ensures TakeVisible([Item(b, 0, Export(Decl(foo)))]) == [Item(b, 0, Decl(foo))]
    ensures TakeVisible([Item(b, 0, Decl(foo))]) == []
  {
    assert forall it: Item :: [it][1..] == [];
    assert StatementName(Export(Decl(foo))) == StatementName(Decl(foo)) == foo;
  }

  lemma NothingAsked(how: How, items: seq<Item>)
    requires how.ByImport? && how.names == []
    ensures Grants(how, items)
  {
  }

  lemma SameForest(files: map<Path, Source>, roots: seq<Path>, forest: seq<Tree>, other: seq<Tree>)
    requires Loads(files, true, roots, forest) && Loads(files, true, roots, other)
    ensures forest == other
  {
    ForestUnique(files, true, [], [], forest, other);
  }

  /** A root whose only statement is a plain import. */
  lemma RootChain(files: map<Path, Source>, root: Path, sub: Tree) returns (t: Tree)
    requires root in files && !sub.Own? && sub.how == ByImport((root, 0), [])
    requires files[root] == Parsed([Import(sub.target, [])])
    requires Fits(files, true, [root], [root], sub)
    ensures Loads(files, true, [root], [t]) && Loadable(files, [root])
    ensures CarriedAll([t]) == TakeVisible(Program(sub))
  {
    hide Fits, Loadable, Loads, TakeVisible;
    t := Fresh(root, AsRoot, [sub]);
    assert [] + [root] == [root];
    ChainFits(files, [], [], root, AsRoot, sub);
    OneRoot(files, true, t);
    LoadableIff(files, [root]);
  }

  /** A root with two imports. */
  lemma TwoImports(files: map<Path, Source>, strict: bool, main: Path, one: Tree, two: Tree)
    requires main in files && !one.Own? && !two.Own? && one.how.ByImport? && two.how.ByImport?
    requires one.how.site == (main, 0) && two.how.site == (main, 1)
    requires files[main] == Parsed([Import(one.target, one.how.names), Import(two.target, two.how.names)])
    ensures Loads(files, strict, [main], [Fresh(main, AsRoot, [one, two])]) <==>
            Fits(files, strict, [main], [main], one) && Fits(files, strict, [main], [main] + Files(one), two)
  {
    var t := Fresh(main, AsRoot, [one, two]);
    StepsOfTwo(main, files[main].stmts[0], files[main].stmts[1]);
    assert Heads([one, two]) == [Head(one), Head(two)];
    hide FitsAll, FilesAll, Steps, Program;
    Alone(files, strict, [main], [main], one);
    assert [one, two] == [one] + [two];
    RowSnoc(files, strict, [main], [main], [one], two);
    assert [] + [main] == [main];
    assert Fits(files, strict, [], [], t) <==> FitsAll(files, strict, [main], [main], [one, two]);
    hide Fits;
    Alone(files, strict, [], [], t);
    assert VisitEach([main], AsRoot) == [Visit(main, AsRoot)];
  }

  /** A diamond: main imports a, a imports b, and main asks b for an exported name. It loads when
      main asks first, and fails when it imports a first. */
  lemma DiamondNeedsOrder(main: Path, a: Path, b: Path, foo: string)
    requires main != a && a != b && main != b && foo != ""
    ensures var rest := map[a := Parsed([Import(b, [])]), b := Parsed([Export(Decl(foo))])];
            && Loadable(rest[main := Parsed([Import(b, [foo]), Import(a, [])])], [main])
            && Sound(rest[main := Parsed([Import(a, []), Import(b, [foo])])], [main])
            && !Loadable(rest[main := Parsed([Import(a, []), Import(b, [foo])])], [main])
  {
    hide Sound, Loadable;
    DiamondLoads(main, a, b, foo);
    DiamondFails(main, a, b, foo);
  }

  lemma DiamondLoads(main: Path, a: Path, b: Path, foo: string)
    requires main != a && a != b && main != b && foo != ""
    ensures var files := map[a := Parsed([Import(b, [])]), b := Parsed([Export(Decl(foo))]),
                             main := Parsed([Import(b, [foo]), Import(a, [])])];
            Loadable(files, [main])
  {
    hide Fits, Loads, Loadable, Grants;
    var files := map[a := Parsed([Import(b, [])]), b := Parsed([Export(Decl(foo))]),
                     main := Parsed([Import(b, [foo]), Import(a, [])])];
    var item := Item(b, 0, Export(Decl(foo)));
    var one := Leaf(b, ByImport((main, 0), [foo]), item.stmt);
    assert Grants(one.how, [item]) by { FooGranted(one.how, item); }
    LeafFits(files, true, [main], [main], b, one.how, item.stmt);
    var again := Again(b, ByImport((a, 0), []));
    NothingAsked(again.how, []);
    SecondVisit(files, [main] + [a], [main] + [b] + [a], again);
    var two := Fresh(a, ByImport((main, 1), []), [again]);
    ChainFits(files, [main], [main] + [b], a, two.how, again);
    TwoImports(files, true, main, one, two);
    LoadableIff(files, [main]);
  }

  lemma FooGranted(how: How, item: Item)
    requires how.ByImport? && item.stmt.Export? && StatementName(item.stmt) != ""
    requires how.names == [StatementName(item.stmt)]
    ensures Grants(how, [item])
  {
    assert [item][0] == item;
  }

  lemma SecondVisit(files: map<Path, Source>, path: seq<Path>, before: seq<Path>, t: Tree)
    requires t.Again? && t.target in before && t.target !in path
    ensures Fits(files, false, path, before, t)
    ensures Fits(files, true, path, before, t) <==> Grants(t.how, [])
  {
  }

  lemma DiamondFails(main: Path, a: Path, b: Path, foo: string)
    requires main != a && a != b && main != b && foo != ""
    ensures var files := map[a := Parsed([Import(b, [])]), b := Parsed([Export(Decl(foo))]),
                             main := Parsed([Import(a, []), Import(b, [foo])])];
            Sound(files, [main]) && !Loadable(files, [main])
  {
    hide Fits, Loads, Sound, Loadable;
    var files := map[a := Parsed([Import(b, [])]), b := Parsed([Export(Decl(foo))]),
                     main := Parsed([Import(a, []), Import(b, [foo])])];
    var tb := Leaf(b, ByImport((a, 0), []), Export(Decl(foo)));
    LeafFits(files, true, [main] + [a], [main] + [a], b, tb.how, Export(Decl(foo)));
    var one := Fresh(a, ByImport((main, 0), []), [tb]);
    ChainFits(files, [main], [main], a, one.how, tb);
    StrictTree(files, [main], [main], one);
    var two := Again(b, ByImport((main, 1), [foo]));
    assert !Grants(two.how, []) by { assert foo in two.how.names && !Exports([], foo); }
    SecondVisit(files, [main], [main] + Files(one), two);
    TwoImports(files, false, main, one, two);
    TwoImports(files, true, main, one, two);
    OnlyThisForest(files, [main], [Fresh(main, AsRoot, [one, two])]);
  }

  /** And the error it fails with: b, visited again, defines nothing. */
  lemma {:induction false} DiamondError(main: Path, a: Path, b: Path, foo: string)
    requires main != a && a != b && main != b && foo != ""
    ensures var files := map[a := Parsed([Import(b, [])]), b := Parsed([Export(Decl(foo))]),
                             main := Parsed([Import(a, []), Import(b, [foo])])];
            Justified(files, [main], NotDefined(main, foo))
  {
    var files := map[a := Parsed([Import(b, [])]), b := Parsed([Export(Decl(foo))]),
                     main := Parsed([Import(a, []), Import(b, [foo])])];
    hide Fits, FitsAll, Loads, Sound, Loadable, Program;
    var tb := Leaf(b, ByImport((a, 0), []), Export(Decl(foo)));
    LeafFits(files, true, [main] + [a], [main] + [a], b, tb.how, Export(Decl(foo)));
    var one := Fresh(a, ByImport((main, 0), []), [tb]);
    ChainFits(files, [main], [main], a, one.how, tb);
    var row := [Visit(a, ByImport((main, 0), [])), Visit(b, ByImport((main, 1), [foo]))];
    StepsOfTwo(main, Import(a, []), Import(b, [foo]));
    assert StepsOf(files, main) == row;
    SecondRefused(files, main, one, b, foo);
  }

  /** A root whose second import asks a file that the first one has loaded. */
  lemma {:induction false} SecondRefused(files: map<Path, Source>, main: Path, one: Tree, b: Path, foo: string)
    requires main in files && files[main].Parsed? && foo != ""
    requires StepsOf(files, main) == [Head(one), Visit(b, ByImport((main, 1), [foo]))]
    requires Fits(files, true, [main], [main], one) && b in Files(one) && b != main
    ensures Justified(files, [main], NotDefined(main, foo))
  {
    hide Fits, FitsAll, StepsOf, Files, FilesAll;
    var top := Top([main], []);
    ReachedTop(files, [main]);
    ReachedInside(files, top, main);
    var inside := Inside(top, main, []);
    assert [] + [main] == [main];
    Alone(files, true, [main], [main], one);
    ReachedAfter(files, inside, [one]);
    var p := After(inside, [one]);
    assert p.done == [one];
    var t := Again(b, AsRoot);
    SecondVisit(files, PathOf(p), Now(p), t);
    assert RejectsAt(main, [foo], 0, [], NotDefined(main, foo));
    assert Rejects(main, [foo], Program(t), NotDefined(main, foo));
    assert Refuses(files, p, t, NotDefined(main, foo));
    assert Fails(files, p, NotDefined(main, foo));
    assert RootsOf(p) == [main];
  }

  lemma StrictTree(files: map<Path, Source>, path: seq<Path>, before: seq<Path>, t: Tree)
    requires Fits(files, true, path, before, t)
    ensures Fits(files, false, path, before, t)
  {
    hide Fits;
    Alone(files, true, path, before, t);
    Alone(files, false, path, before, t);
    StrictIsLoose(files, path, before, [t]);
  }

  /** Where the one way to load a project does not stand with its names, the project fails. */
  lemma OnlyThisForest(files: map<Path, Source>, roots: seq<Path>, forest: seq<Tree>)
    requires Loads(files, false, roots, forest) && !Loads(files, true, roots, forest)
    ensures Sound(files, roots) && !Loadable(files, roots)
  {
    hide Loads, Granted, Sound;
    SoundIffLoads(files, roots);
    NamesStandIff(files, roots, forest);
  }
}
