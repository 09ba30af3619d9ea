/** Programs with imports: statements, the import graph, and what an import takes over. */
module Imports {
  type Path = string

  /** Top-level statements. An import carries its resolved target, a wildcard import the files its
      pattern matched. `Unnamed` is every statement that declares no symbol (server, route, ...). */
  datatype Stmt =
    | Import(target: Path, names: seq<string>)
    | Wildcard(matches: seq<Path>)
    | Decl(name: string)
    | Export(inner: Stmt)
    | Unnamed

  datatype Source = Unparsable | Parsed(stmts: seq<Stmt>)

  /** A statement together with the place in the source it comes from. */
  datatype Item = Item(file: Path, index: nat, stmt: Stmt)

  datatype Error =
    | Circular(file: Path)
    | Unreadable(file: Path)
    | ParseFailed(file: Path)
    | NoMatch(file: Path)
    | NotDefined(file: Path, symbol: string)
    | NotExported(file: Path, symbol: string)

  datatype Result<+T> = Ok(value: T) | Err(error: Error)

  function StatementName(s: Stmt): string {
    match s
    case Decl(n) => n
    case Export(inner) => StatementName(inner)
    case _ => ""
  }

  predicate IsImport(s: Stmt) {
    s.Import? || s.Wildcard?
  }

  // ---------------------------------------------------------------- the import graph

  function StatementTargets(s: Stmt): seq<Path> {
    match s
    case Import(t, _) => [t]
    case Wildcard(ms) => ms
    case _ => []
  }

  /** The files that the first `n` statements import. */
  function Targets(stmts: seq<Stmt>, n: nat): seq<Path>
    requires n <= |stmts|
  {
    if n == 0 then [] else Targets(stmts, n - 1) + StatementTargets(stmts[n - 1])
  }

  ghost function ImportGraph(files: map<Path, Source>): map<Path, seq<Path>> {
    map f | f in files && files[f].Parsed? :: Targets(files[f].stmts, |files[f].stmts|)
  }

  // ---------------------------------------------------------------- merging

  function Unwrap(it: Item): Item {
    if it.stmt.Export? then it.(stmt := it.stmt.inner) else it
  }

  /** What a wildcard import takes over: everything, exports unwrapped. */
  function TakeAll(items: seq<Item>): seq<Item> {
    if items == [] then [] else [Unwrap(items[0])] + TakeAll(items[1..])
  }

  /** What a plain import takes over: unnamed statements, and exported named ones unwrapped. */
  function TakeVisible(items: seq<Item>): seq<Item> {
    if items == [] then [] else Visible(items[0]) + TakeVisible(items[1..])
  }

  function Visible(it: Item): seq<Item> {
    if StatementName(it.stmt) == "" then [it]
    else if it.stmt.Export? then [Unwrap(it)]
    else []
  }

  method CollectAll(items: seq<Item>) returns (merged: seq<Item>)
    ensures merged == TakeAll(items)
  {
    hide TakeAll, StatementName;
    merged := [];
    TakeNothing();
    for i := 0 to |items|
      invariant TakeAll(items) == merged + TakeAll(items[i..])
    {
      TakeStep(items, i);
      var it := items[i];
      if it.stmt.Export? {
        it := Item(it.file, it.index, it.stmt.inner);
      }
      Regroup(merged, [it], TakeAll(items[i + 1..]));
      merged := merged + [it];
    }
    assert items[|items|..] == [];
  }

  method CollectVisible(items: seq<Item>) returns (merged: seq<Item>)
    ensures merged == TakeVisible(items)
  {
    hide TakeVisible, StatementName;
    merged := [];
    TakeNothing();
    for i := 0 to |items|
      invariant TakeVisible(items) == merged + TakeVisible(items[i..])
    {
      TakeStep(items, i);
      Regroup(merged, Visible(items[i]), TakeVisible(items[i + 1..]));
      var name := StatementName(items[i].stmt);
      if name == "" {
        merged := merged + [items[i]];
      } else if items[i].stmt.Export? {
        merged := merged + [Item(items[i].file, items[i].index, items[i].stmt.inner)];
      } else {
        assert merged + [] == merged;
      }
    }
    assert items[|items|..] == [];
  }

  lemma Regroup<T>(a: seq<T>, b: seq<T>, c: seq<T>)
    ensures a + (b + c) == (a + b) + c
  {
  }

  lemma TakeNothing()
    ensures TakeAll([]) == [] && TakeVisible([]) == []
  {
  }

  lemma TakeStep(items: seq<Item>, i: nat)
    requires i < |items|
    ensures TakeAll(items[i..]) == [Unwrap(items[i])] + TakeAll(items[i + 1..])
    ensures TakeVisible(items[i..]) == Visible(items[i]) + TakeVisible(items[i + 1..])
  {
    assert items[i..][0] == items[i] && items[i..][1..] == items[i + 1..];
  }

  /** What a plain import makes visible: the unnamed statements as they are, and of the named ones
      exactly the exported, without the export. */
  lemma {:induction false} VisibleExactly(items: seq<Item>, it: Item)
    ensures it in TakeVisible(items) <==>
            exists k :: 0 <= k < |items| &&
              if StatementName(items[k].stmt) == "" then it == items[k]
              else items[k].stmt.Export? && it == items[k].(stmt := items[k].stmt.inner)
  {
    if items != [] {
      var rest := items[1..];
      VisibleExactly(rest, it);
      assert forall k :: 0 <= k < |rest| ==> rest[k] == items[k + 1];
      assert forall k :: 0 < k < |items| ==> items[k] == rest[k - 1];
    }
  }

  predicate Defines(items: seq<Item>, n: string) {
    n != "" && exists k :: 0 <= k < |items| && StatementName(items[k].stmt) == n
  }

  predicate Exports(items: seq<Item>, n: string) {
    n != "" && exists k :: 0 <= k < |items| && StatementName(items[k].stmt) == n && items[k].stmt.Export?
  }

  /** `e` names the first requested symbol that the loaded program does not export, and says whether it
      is defined there. */
  ghost predicate Rejects(file: Path, names: seq<string>, items: seq<Item>, e: Error) {
    exists j :: 0 <= j < |names| && RejectsAt(file, names, j, items, e)
  }

  ghost predicate RejectsAt(file: Path, names: seq<string>, j: nat, items: seq<Item>, e: Error)
    requires j < |names|
  {
    && (forall i :: 0 <= i < j ==> Exports(items, names[i]))
    && !Exports(items, names[j])
    && e == if Defines(items, names[j]) then NotExported(file, names[j]) else NotDefined(file, names[j])
  }

  /** Selective import validation: the first requested name that is missing or not exported. */
  method Validate(file: Path, names: seq<string>, items: seq<Item>) returns (r: Result<()>)
    ensures r.Ok? <==> forall n :: n in names ==> Exports(items, n)
    ensures r.Err? ==> Rejects(file, names, items, r.error)
  {
    var defined, exported: set<string> := {}, {};
    for i := 0 to |items|
      invariant forall n :: n in defined <==> n != "" && exists k :: 0 <= k < i && StatementName(items[k].stmt) == n
      invariant forall n :: n in exported <==>
        n != "" && exists k :: 0 <= k < i && StatementName(items[k].stmt) == n && items[k].stmt.Export?
    {
      var name := StatementName(items[i].stmt);
      if name != "" {
        defined := defined + {name};
        if items[i].stmt.Export? {
          exported := exported + {name};
        }
      }
    }
    for j := 0 to |names|
      invariant forall k :: 0 <= k < j ==> Exports(items, names[k])
    {
      if names[j] !in defined {
        assert RejectsAt(file, names, j, items, NotDefined(file, names[j]));
        return Err(NotDefined(file, names[j]));
      }
      if names[j] !in exported {
        assert RejectsAt(file, names, j, items, NotExported(file, names[j]));
        return Err(NotExported(file, names[j]));
      }
    }
    r := Ok(());
  }
}
