/** Cyclic step dependencies of a workflow: the dependency graph and its three-colour search. */
module Workflow {
  import opened Graphs
  import opened Places
  import Text

  /** Expressions, with the positions the identifier search descends into. `Opaque` is
      everything else (literals, closures, a missing expression). */
  datatype Expr =
    | Ident(name: string)
    | Await(value: Expr)
    | Call(callee: Expr, args: seq<Expr>)
    | Infix(left: Expr, right: Expr)
    | Prefix(operand: Expr)
    | Index(left: Expr, index: Expr)
    | Member(obj: Expr)
    | Opaque

  /** Statements; an absent body or else part is the empty block. `Other` is never descended into. */
  datatype Stmt =
    | Block(stmts: seq<Stmt>)
    | Let(name: string, value: Expr)
    | If(body: seq<Stmt>, orElse: seq<Stmt>)
    | For(body: seq<Stmt>)
    | Other

  datatype WorkflowDecl = WorkflowDecl(line: int, col: int, name: string, body: seq<Stmt>)

  datatype Diagnostic = Diagnostic(line: int, col: int, severity: string, message: string)

  // ---------------------------------------------------------------- referenced identifiers

  function ReferencedIdents(e: Expr): seq<string>
    decreases e
  {
    match e
    case Ident(x) => [x]
    case Await(v) => ReferencedIdents(v)
    case Call(f, args) => ReferencedIdents(f) + ReferencedInAll(args)
    case Infix(l, r) => ReferencedIdents(l) + ReferencedIdents(r)
    case Prefix(r) => ReferencedIdents(r)
    case Index(l, i) => ReferencedIdents(l) + ReferencedIdents(i)
    case Member(o) => ReferencedIdents(o)
    case Opaque => []
  }

  function ReferencedInAll(es: seq<Expr>): seq<string>
    decreases es
  {
    if es == [] then [] else ReferencedIdents(es[0]) + ReferencedInAll(es[1..])
  }

  /** The direct subexpressions that are evaluated as part of `e`. */
  ghost function Children(e: Expr): seq<Expr> {
    match e
    case Await(v) => [v]
    case Call(f, args) => [f] + args
    case Infix(l, r) => [l, r]
    case Prefix(r) => [r]
    case Index(l, i) => [l, i]
    case Member(o) => [o]
    case _ => []
  }

  /** `chain` leads from `e` down to an occurrence of identifier `x`. */
  ghost predicate Occurrence(chain: seq<Expr>, e: Expr, x: string) {
    && chain != [] && chain[0] == e && chain[|chain| - 1] == Ident(x)
    && forall i :: 0 <= i < |chain| - 1 ==> chain[i + 1] in Children(chain[i])
  }

  /** The reported identifiers are exactly those that occur in the expression. */
  lemma ReferencedIffOccurs(e: Expr, x: string)
    ensures x in ReferencedIdents(e) <==> exists chain :: Occurrence(chain, e, x)
  {
    if x in ReferencedIdents(e) {
      var chain := OccurrenceOf(e, x);
    }
    forall chain | Occurrence(chain, e, x)
      ensures x in ReferencedIdents(e)
    {
      OccurrenceIsReferenced(chain, e, x);
    }
  }

  lemma {:induction false} OccurrenceOf(e: Expr, x: string) returns (chain: seq<Expr>)
    requires x in ReferencedIdents(e)
    ensures Occurrence(chain, e, x)
    decreases e
  {
    if e == Ident(x) {
      return [e];
    }
    var c := ChildReferencing(e, x);
    var rest := OccurrenceOf(c, x);
    chain := [e] + rest;
  }

  lemma ChildReferencing(e: Expr, x: string) returns (c: Expr)
    requires x in ReferencedIdents(e) && e != Ident(x)
    ensures c in Children(e) && x in ReferencedIdents(c) && c < e
  {
    match e
    case Await(v) => c := v;
    case Call(f, args) =>
      if x in ReferencedIdents(f) {
        c := f;
      } else {
        c := MemberReferencing(args, x);
      }
    case Infix(l, r) => c := if x in ReferencedIdents(l) then l else r;
    case Prefix(r) => c := r;
    case Index(l, i) => c := if x in ReferencedIdents(l) then l else i;
    case Member(o) => c := o;
  }

  lemma {:induction false} MemberReferencing(es: seq<Expr>, x: string) returns (c: Expr)
    requires x in ReferencedInAll(es)
    ensures c in es && x in ReferencedIdents(c)
  {
    if x in ReferencedIdents(es[0]) { c := es[0]; } else { c := MemberReferencing(es[1..], x); }
  }

  lemma {:induction false} ReferencedInMember(es: seq<Expr>, c: Expr, x: string)
    requires c in es && x in ReferencedIdents(c)
    ensures x in ReferencedInAll(es)
  {
    if c != es[0] { ReferencedInMember(es[1..], c, x); }
  }

  lemma {:induction false} OccurrenceIsReferenced(chain: seq<Expr>, e: Expr, x: string)
    requires Occurrence(chain, e, x)
    ensures x in ReferencedIdents(e)
    decreases |chain|
  {
    if |chain| > 1 {
      var c := chain[1];
      assert c in Children(chain[0]);
      OccurrenceIsReferenced(chain[1..], c, x);
      if e.Call? && c != e.callee {
        ReferencedInMember(e.args, c, x);
      }
    }
  }

  // ---------------------------------------------------------------- the dependency graph

  type Graph = map<string, seq<string>>

  /** The let statements the traversal meets, in order. */
  function Lets(stmts: seq<Stmt>): seq<(string, Expr)>
    decreases stmts
  {
    if stmts == [] then [] else LetsOf(stmts[0]) + Lets(stmts[1..])
  }

  function LetsOf(s: Stmt): seq<(string, Expr)>
    decreases s
  {
    match s
    case Block(stmts) => Lets(stmts)
    case Let(x, e) => [(x, e)]
    case If(body, orElse) => Lets(body) + Lets(orElse)
    case For(body) => Lets(body)
    case Other => []
  }

  // ---------------------------------------------------------------- where the bindings stand

  /** The blocks nested in a statement that the traversal enters: a body, then an else part. */
  ghost function Parts(s: Stmt): seq<seq<Stmt>> {
    match s
    case Block(stmts) => [stmts]
    case If(body, orElse) => [body, orElse]
    case For(body) => [body]
    case _ => []
  }

  type Binding = (string, Expr)

  /** The place leads to this binding: an index into the block, and as long as it goes on, a part of
      that statement and a place in it. */
  ghost predicate BindsAt(stmts: seq<Stmt>, p: Place, b: Binding)
    decreases |p|
  {
    && p != [] && p[0] < |stmts|
    && if |p| == 1 then stmts[p[0]] == Let(b.0, b.1)
       else p[1] < |Parts(stmts[p[0]])| && BindsAt(Parts(stmts[p[0]])[p[1]], p[2..], b)
  }

  /** The bindings of a block from statement `i` on, those of statement `i`, and those of its part `j`. */
  ghost function BindingsFrom(stmts: seq<Stmt>, i: nat): iset<(Place, Binding)> {
    iset x: (Place, Binding) | BindsAt(stmts, x.0, x.1) && x.0[0] >= i
  }

  ghost function BindingsHere(stmts: seq<Stmt>, i: nat): iset<(Place, Binding)> {
    iset x: (Place, Binding) | BindsAt(stmts, x.0, x.1) && x.0[0] == i
  }

  ghost function BindingsIn(stmts: seq<Stmt>, i: nat, j: nat): iset<(Place, Binding)> {
    iset x: (Place, Binding) | BindsAt(stmts, x.0, x.1) && |x.0| > 1 && x.0[0] == i && x.0[1] == j
  }

  /** The traversal meets every binding at whatever depth, once, in text order, and nothing else. */
  lemma LetsInTextOrder(stmts: seq<Stmt>) returns (ps: seq<Place>)
    ensures Listing(ps, Lets(stmts), BindingsFrom(stmts, 0))
  {
    assert stmts[0..] == stmts;
    ps := LetsFrom(stmts, 0);
  }

  lemma {:induction false} LetsFrom(stmts: seq<Stmt>, i: nat) returns (ps: seq<Place>)
    requires i <= |stmts|
    ensures Listing(ps, Lets(stmts[i..]), BindingsFrom(stmts, i))
    decreases stmts, |stmts| - i
  {
    hide Listing, LetsOf;
    if i == |stmts| {
      ListingNothing<Binding>();
      assert BindingsFrom(stmts, i) == iset{};
      return [];
    }
    assert stmts[i..][0] == stmts[i] && stmts[i..][1..] == stmts[i + 1..];
    var here := LetsHere(stmts, i);
    var rest := LetsFrom(stmts, i + 1);
    ListingJoined(here, LetsOf(stmts[i]), BindingsHere(stmts, i),
                  rest, Lets(stmts[i + 1..]), BindingsFrom(stmts, i + 1), 0);
    assert BindingsHere(stmts, i) + BindingsFrom(stmts, i + 1) == BindingsFrom(stmts, i);
    ps := here + rest;
  }

  lemma {:induction false} LetsHere(stmts: seq<Stmt>, i: nat) returns (ps: seq<Place>)
    requires i < |stmts|
    ensures Listing(ps, LetsOf(stmts[i]), BindingsHere(stmts, i))
    decreases stmts[i], 1
  {
    hide Listing, Lets;
    PartBindings(stmts, i);
    match stmts[i]
    case Block(inner) => ps := LetsInPart(stmts, i, 0, inner);
    case For(body) => ps := LetsInPart(stmts, i, 0, body);
    case Let(x, e) =>
      ps := [[i]];
      OneBinding(stmts, i, x, e);
    case If(body, orElse) =>
      var a := LetsInPart(stmts, i, 0, body);
      var b := LetsInPart(stmts, i, 1, orElse);
      ListingJoined(a, Lets(body), BindingsIn(stmts, i, 0), b, Lets(orElse), BindingsIn(stmts, i, 1), 1);
      ps := a + b;
    case Other =>
      ListingNothing<Binding>();
      ps := [];
  }

  lemma OneBinding(stmts: seq<Stmt>, i: nat, x: string, e: Expr)
    requires i < |stmts| && stmts[i] == Let(x, e)
    ensures Listing([[i]], [(x, e)], BindingsHere(stmts, i))
  {
    forall y | y in BindingsHere(stmts, i)
      ensures y.0 in [[i]]
    {
      assert y.0 == [i];
    }
  }

  /** The bindings of a statement are those of its parts. */
  lemma PartBindings(stmts: seq<Stmt>, i: nat)
    requires i < |stmts|
    ensures match stmts[i]
            case If(_, _) => BindingsHere(stmts, i) == BindingsIn(stmts, i, 0) + BindingsIn(stmts, i, 1)
            case Block(_) => BindingsHere(stmts, i) == BindingsIn(stmts, i, 0)
            case For(_) => BindingsHere(stmts, i) == BindingsIn(stmts, i, 0)
            case Other => BindingsHere(stmts, i) == iset{}
            case Let(_, _) => true
    ensures Apart(BindingsIn(stmts, i, 0), BindingsIn(stmts, i, 1), 1)
  {
  }

  lemma {:induction false} LetsInPart(stmts: seq<Stmt>, i: nat, j: nat, part: seq<Stmt>) returns (ps: seq<Place>)
    requires i < |stmts| && j < |Parts(stmts[i])| && part == Parts(stmts[i])[j]
    ensures Listing(ps, Lets(part), BindingsIn(stmts, i, j))
    decreases stmts[i], 0
  {
    hide Listing;
    assert part[0..] == part;
    var qs := LetsFrom(part, 0);
    ps := Below([i, j], qs);
    ListingBelow([i, j], qs, Lets(part), BindingsFrom(part, 0));
    BindingsMoved(stmts, i, j, part);
  }

  lemma BindingsMoved(stmts: seq<Stmt>, i: nat, j: nat, part: seq<Stmt>)
    requires i < |stmts| && j < |Parts(stmts[i])| && part == Parts(stmts[i])[j]
    ensures Moved([i, j], BindingsFrom(part, 0)) == BindingsIn(stmts, i, j)
  {
    forall x: (Place, Binding)
      ensures x in Moved([i, j], BindingsFrom(part, 0)) <==> x in BindingsIn(stmts, i, j)
    {
      if |x.0| > 1 && x.0[0] == i && x.0[1] == j {
        assert x.0 == [i, j] + x.0[2..];
      }
    }
  }

  /** Recording bindings one after the other. */
  function Record(adj: Graph, lets: seq<(string, Expr)>): Graph
    decreases |lets|
  {
    if lets == [] then adj
    else Record(adj[lets[0].0 := ReferencedIdents(lets[0].1)], lets[1..])
  }

  lemma {:induction false} RecordConcat(adj: Graph, a: seq<(string, Expr)>, b: seq<(string, Expr)>)
    ensures Record(adj, a + b) == Record(Record(adj, a), b)
    decreases |a|
  {
    if a == [] {
      assert a + b == b;
    } else {
      assert (a + b)[1..] == a[1..] + b;
      RecordConcat(adj[a[0].0 := ReferencedIdents(a[0].1)], a[1..], b);
    }
  }

  /** The graph holds, for every name bound anywhere, the references of its last binding. */
  lemma {:induction false} LastBindingWins(lets: seq<(string, Expr)>, k: nat)
    requires k < |lets|
    requires forall j :: k < j < |lets| ==> lets[j].0 != lets[k].0
    ensures lets[k].0 in Record(map[], lets)
    ensures Record(map[], lets)[lets[k].0] == ReferencedIdents(lets[k].1)
  {
    var before, after := lets[..k], lets[k + 1..];
    assert lets == (before + [lets[k]]) + after;
    RecordConcat(map[], before + [lets[k]], after);
    RecordConcat(map[], before, [lets[k]]);
    var adj := Record(map[], before);
    assert Record(adj, [lets[k]]) == adj[lets[k].0 := ReferencedIdents(lets[k].1)];
    RecordKeeps(Record(adj, [lets[k]]), after, lets[k].0);
  }

  ghost predicate BoundIn(stmts: seq<Stmt>, x: string) {
    exists p: Place, e: Expr :: BindsAt(stmts, p, (x, e))
  }

  /** The place binds the name, and no later one does. */
  ghost predicate LastAt(stmts: seq<Stmt>, p: Place, b: Binding) {
    BindsAt(stmts, p, b) && forall q: Place, e: Expr :: BindsAt(stmts, q, (b.0, e)) ==> q == p || Earlier(q, p)
  }

  /** The graph of a workflow: the names bound anywhere in it, each with the references of the
      binding that comes last in the text. */
  lemma GraphOfText(stmts: seq<Stmt>)
    ensures forall x :: x in Record(map[], Lets(stmts)) <==> BoundIn(stmts, x)
    ensures forall p: Place, b: Binding :: LastAt(stmts, p, b) ==>
              b.0 in Record(map[], Lets(stmts)) && Record(map[], Lets(stmts))[b.0] == ReferencedIdents(b.1)
  {
    var lets := Lets(stmts);
    var ps := LetsInTextOrder(stmts);
    forall x
      ensures x in Record(map[], lets) <==> BoundIn(stmts, x)
    {
      BoundIffListed(stmts, lets, ps, x);
      RecordedIffBound(map[], lets, x);
    }
    forall p: Place, b: Binding | LastAt(stmts, p, b)
      ensures b.0 in Record(map[], lets) && Record(map[], lets)[b.0] == ReferencedIdents(b.1)
    {
      var k := LastListed(stmts, lets, ps, p, b);
      LastBindingWins(lets, k);
    }
  }

  lemma BoundIffListed(stmts: seq<Stmt>, lets: seq<Binding>, ps: seq<Place>, x: string)
    requires Listing(ps, lets, BindingsFrom(stmts, 0))
    ensures (exists k :: 0 <= k < |lets| && lets[k].0 == x) <==> BoundIn(stmts, x)
  {
    if k :| 0 <= k < |lets| && lets[k].0 == x {
      assert (ps[k], lets[k]) in BindingsFrom(stmts, 0);
      assert BindsAt(stmts, ps[k], (x, lets[k].1));
    }
    if p: Place, e: Expr :| BindsAt(stmts, p, (x, e)) {
      assert (p, (x, e)) in BindingsFrom(stmts, 0);
      var k :| 0 <= k < |ps| && ps[k] == p;
      assert (ps[k], lets[k]) in BindingsFrom(stmts, 0);
      OnePlaceOneBinding(stmts, p, (x, e), lets[k]);
    }
  }

  lemma {:induction false} OnePlaceOneBinding(stmts: seq<Stmt>, p: Place, a: Binding, b: Binding)
    requires BindsAt(stmts, p, a) && BindsAt(stmts, p, b)
    ensures a == b
    decreases |p|
  {
    if |p| > 1 { OnePlaceOneBinding(Parts(stmts[p[0]])[p[1]], p[2..], a, b); }
  }

  lemma LastListed(stmts: seq<Stmt>, lets: seq<Binding>, ps: seq<Place>, p: Place, b: Binding) returns (k: nat)
    requires Listing(ps, lets, BindingsFrom(stmts, 0)) && LastAt(stmts, p, b)
    ensures k < |lets| && lets[k] == b && forall j :: k < j < |lets| ==> lets[j].0 != b.0
  {
    assert (p, b) in BindingsFrom(stmts, 0);
    k :| 0 <= k < |ps| && ps[k] == p;
    assert (ps[k], lets[k]) in BindingsFrom(stmts, 0);
    OnePlaceOneBinding(stmts, p, b, lets[k]);
    forall j | k < j < |lets|
      ensures lets[j].0 != b.0
    {
      assert (ps[j], lets[j]) in BindingsFrom(stmts, 0);
      assert Earlier(ps[k], ps[j]);
      EarlierIsStrict(ps[k], ps[j]);
      assert !Earlier(ps[k], ps[k]) by { NotBeforeItself(ps[k]); }
      assert BindsAt(stmts, ps[j], (lets[j].0, lets[j].1));
    }
  }

  lemma NotBeforeItself(p: Place)
    ensures !Earlier(p, p)
  {
  }

  lemma {:induction false} RecordedIffBound(adj: Graph, lets: seq<Binding>, x: string)
    ensures x in Record(adj, lets) <==> x in adj || exists k :: 0 <= k < |lets| && lets[k].0 == x
    decreases |lets|
  {
    if lets != [] {
      var rest := lets[1..];
      RecordedIffBound(adj[lets[0].0 := ReferencedIdents(lets[0].1)], rest, x);
      assert forall k :: 0 <= k < |rest| ==> rest[k] == lets[k + 1];
      assert forall k :: 0 < k < |lets| ==> lets[k] == rest[k - 1];
    }
  }

  lemma {:induction false} RecordKeeps(adj: Graph, lets: seq<(string, Expr)>, x: string)
    requires x in adj && forall j :: 0 <= j < |lets| ==> lets[j].0 != x
    ensures x in Record(adj, lets) && Record(adj, lets)[x] == adj[x]
    decreases |lets|
  {
    if lets != [] {
      RecordKeeps(adj[lets[0].0 := ReferencedIdents(lets[0].1)], lets[1..], x);
    }
  }

  // ---------------------------------------------------------------- the analysis

  function Message(name: string, cycle: seq<string>): string {
    "Workflow '" + name + "' contains cyclic step dependency: " + Text.Join(cycle, " -> ")
  }

  /** A reported cycle: a closed walk along dependency edges that repeats no node but its ends. */
  ghost predicate GenuineCycle(adj: Graph, cycle: seq<string>) {
    ClosedWalk(adj, cycle) && Distinct(cycle[..|cycle| - 1])
  }

  method IndexOf(path: seq<string>, dep: string) returns (i: nat)
    requires dep in path
    ensures i < |path| && path[i] == dep
  {
    i := 0;
    while path[i] != dep
      invariant i < |path|
      invariant dep in path[i..]
      decreases |path| - i
    {
      assert path[i..] == [path[i]] + path[i + 1..];
      i := i + 1;
    }
  }

  class Analysis {
    var adj: Graph
    var visited: map<string, int>
    /** Nodes in the order in which their search finished. */
    ghost var finished: seq<string>

    constructor ()
      ensures adj == map[] && visited == map[] && finished == []
    {
      adj, visited, finished := map[], map[], [];
    }

    function Colour(n: string): int
      reads this
    {
      if n in visited then visited[n] else 0
    }

    /** Grey nodes are exactly those on the current path, black nodes exactly the finished ones,
        and the finished ones are topologically ordered. */
    ghost predicate Searching(path: seq<string>)
      reads this
    {
      && (forall n :: Colour(n) == 1 <==> n in path)
      && (forall n :: Colour(n) == 2 <==> n in finished)
      && (forall n :: n in visited ==> visited[n] == 1 || visited[n] == 2)
      && Distinct(path) && Walk(adj, path)
      && Distinct(finished) && Topological(adj, finished)
    }

    method WalkBlock(stmts: seq<Stmt>)
      modifies `adj
      ensures adj == Record(old(adj), Lets(stmts))
      decreases stmts, 1
    {
      ghost var start := adj;
      var i := 0;
      while i < |stmts|
        invariant 0 <= i <= |stmts|
        invariant Record(start, Lets(stmts)) == Record(adj, Lets(stmts[i..]))
      {
        assert stmts[i..][0] == stmts[i] && stmts[i..][1..] == stmts[i + 1..];
        RecordConcat(adj, LetsOf(stmts[i]), Lets(stmts[i + 1..]));
        WalkStmt(stmts[i]);
        i := i + 1;
      }
    }

    method WalkStmt(stmt: Stmt)
      modifies `adj
      ensures adj == Record(old(adj), LetsOf(stmt))
      decreases stmt, 0
    {
      match stmt {
        case Block(stmts) => WalkBlock(stmts);
        case Let(name, value) =>
          var deps := ReferencedIdents(value);
          adj := adj[name := deps];
        case If(body, orElse) =>
          RecordConcat(adj, Lets(body), Lets(orElse));
          WalkBlock(body);
          WalkBlock(orElse);
        case For(body) => WalkBlock(body);
        case Other =>
      }
    }

    /** One search. Without a result the node is finished and the path is as before; a result is a
        genuine cycle. */
    method DetectCycle(node: string, path: seq<string>) returns (cycle: seq<string>)
      requires Searching(path) && Colour(node) == 0 && node in Nodes(adj)
      requires path != [] ==> Edge(adj, path[|path| - 1], node)
      modifies `visited, `finished
      ensures cycle == [] ==> Searching(path) && node in finished && old(finished) <= finished
      ensures cycle != [] ==> GenuineCycle(adj, cycle)
      ensures visited.Keys >= old(visited.Keys)
      decreases Nodes(adj) - visited.Keys
    {
      hide Topological, Distinct, Walk;
      Enter(node, path);
      var path' := path + [node];
      var deps := if node in adj then adj[node] else [];
      var j := 0;
      while j < |deps|
        invariant 0 <= j <= |deps|
        invariant Searching(path') && old(finished) <= finished
        invariant visited.Keys >= old(visited.Keys) + {node}
        invariant forall k :: 0 <= k < j ==> deps[k] in finished
      {
        var dep := deps[j];
        assert Edge(adj, node, dep);
        assert dep in Nodes(adj);
        if Colour(dep) == 1 {
          var i := IndexOf(path', dep);
          cycle := path'[i..] + [dep];
          CycleFromPath(adj, path', i, dep);
          return;
        }
        if Colour(dep) == 0 {
          cycle := DetectCycle(dep, path');
          if |cycle| > 0 {
            return;
          }
        }
        j := j + 1;
      }
      Leave(node, path);
      cycle := [];
    }

    /** The node turns grey. */
    method Enter(node: string, ghost path: seq<string>)
      requires Searching(path) && Colour(node) == 0
      requires path != [] ==> Edge(adj, path[|path| - 1], node)
      modifies `visited
      ensures Searching(path + [node]) && visited.Keys == old(visited.Keys) + {node}
    {
      hide Topological, Distinct, Walk;
      WalkSnoc(adj, path, node);
      DistinctSnoc(path, node);
      visited := visited[node := 1];
    }

    /** The node turns black: all its dependencies are finished. */
    method Leave(node: string, ghost path: seq<string>)
      requires Searching(path + [node])
      requires forall v :: v in Successors(adj, node) ==> v in finished
      modifies `visited, `finished
      ensures Searching(path) && finished == old(finished) + [node] && visited.Keys == old(visited.Keys)
    {
      WalkPrefix(adj, path, node);
      DistinctPrefix(path, node);
      TopologicalSnoc(adj, finished, node);
      assert node in path + [node] && Colour(node) == 1;
      DistinctSnoc(finished, node);
      hide Topological, Distinct, Walk;
      assert forall n :: Colour(n) == 1 && n != node <==> n in path;
      visited := visited[node := 2];
      finished := finished + [node];
    }

    /** For whatever order the steps are visited in: one error exactly when the dependency graph
        of the last bindings has a cycle; otherwise every step is finished after its dependencies. */
    method AnalyzeWorkflowDAG(wf: WorkflowDecl) returns (diags: seq<Diagnostic>)
      requires adj == map[] && visited == map[] && finished == []
      modifies this
      ensures adj == Record(map[], Lets(wf.body))
      ensures forall x :: x in adj <==> BoundIn(wf.body, x)
      ensures forall p: Place, b: Binding :: LastAt(wf.body, p, b) ==> b.0 in adj && adj[b.0] == ReferencedIdents(b.1)
      ensures |diags| <= 1
      ensures |diags| == 1 <==> HasCycle(adj)
      ensures |diags| == 1 ==>
                exists cycle :: GenuineCycle(adj, cycle) &&
                                diags[0] == Diagnostic(wf.line, wf.col, "error",
                                                       "Workflow '" + wf.name + "' contains cyclic step dependency: " +
                                                       Text.Join(cycle, " -> "))
      ensures diags == [] ==> Distinct(finished) && Topological(adj, finished) && forall n :: n in adj ==> n in finished
    {
      WalkBlock(wf.body);
      GraphOfText(wf.body);
      hide LastAt, BindsAt;
      diags := [];
      var todo := adj.Keys;
      while todo != {}
        invariant adj == Record(map[], Lets(wf.body))
        invariant todo <= adj.Keys
        invariant diags == [] && Searching([])
        invariant forall n :: n in adj.Keys - todo ==> n in finished
        decreases todo
      {
        var node :| node in todo;
        todo := todo - {node};
        if Colour(node) == 0 {
          var cycle := DetectCycle(node, []);
          if |cycle| > 0 {
            assert ClosedWalk(adj, cycle);
            diags := [Diagnostic(wf.line, wf.col, "error", Message(wf.name, cycle))];
            return;
          }
        }
      }
      CoveringOrderIsAcyclic(adj, finished);
    }
  }

  lemma CycleFromPath(adj: Graph, path: seq<string>, i: nat, dep: string)
    requires Walk(adj, path) && Distinct(path)
    requires i < |path| && path[i] == dep && Edge(adj, path[|path| - 1], dep)
    ensures GenuineCycle(adj, path[i..] + [dep])
  {
    var w := path[i..];
    assert Walk(adj, w) by {
      forall k | 0 <= k < |w| - 1
        ensures Edge(adj, w[k], w[k + 1])
      {
        assert Edge(adj, path[i + k], path[i + k + 1]);
      }
    }
    WalkSnoc(adj, w, dep);
    assert (w + [dep])[..|w|] == w;
  }
}
