/** The statements of a function body of the Pranor language, as the flow analyses and the
    optimizer see them, and what executing them means. */
module FlowAst {

  /** A source position; statements whose position is unknown carry line 0. */
  datatype Token = Token(line: int, col: int)

  /** A condition after constant folding: a boolean literal, or something only known at run time. */
  datatype Cond = Literal(value: bool) | Dynamic

  /** `Simple` stands for every statement without control flow of its own (let, expression, publish, ...). */
  datatype Stmt =
    | Simple(tok: Token)
    | Return(tok: Token)
    | Break(tok: Token)
    | Continue(tok: Token)
    | If(tok: Token, cond: Cond, body: seq<Stmt>, orElse: Else)
    | For(tok: Token, cond: Cond, body: seq<Stmt>)
    | TryCatch(tok: Token, tryBody: seq<Stmt>, catchBody: seq<Stmt>)
    | Match(tok: Token, cases: seq<Case>)
    | Block(inner: seq<Stmt>)

  /** The else part of an `if`, which may be missing. */
  datatype Else = NoElse | Else(stmts: seq<Stmt>)

  /** One arm of a match; `isDefault` is the arm written `_`. */
  datatype Case = Case(isDefault: bool, body: seq<Stmt>)

  /** The position a diagnostic about `s` carries; a bare block has none. */
  function TokenOf(s: Stmt): Token {
    if s.Block? then Token(0, 0) else s.tok
  }

  predicate IsTerminator(s: Stmt) {
    s.Return? || s.Break? || s.Continue?
  }

  predicate HasDefault(cases: seq<Case>) {
    exists k :: 0 <= k < |cases| && cases[k].isDefault
  }

  // ---------------------------------------------------------------- executions

  /** What an execution leaves behind: which statement ran, and which way each decision went. */
  datatype Event = Ran(tok: Token) | Chose(tok: Token, branch: int)

  type Trace = seq<Event>

  /** How an execution of a statement or block ends. `Cut` is an execution observed before it
      ended, so the `Cut` traces of a program are the prefixes of its executions, and a
      divergent execution is a family of ever longer `Cut` traces. */
  datatype Outcome = Normal | Returned | Broke | Continued | Threw | Cut

  /** `Runs(b, tr, o)`: some execution of block `b` produces exactly `tr` and ends with `o`. */
  ghost predicate Runs(b: seq<Stmt>, tr: Trace, o: Outcome)
    decreases b, 0
  {
    if b == [] then
      tr == [] && o == Normal
    else
      || (o != Normal && RunsStmt(b[0], tr, o))
      || exists i :: 0 <= i <= |tr| && RunsStmt(b[0], tr[..i], Normal) && Runs(b[1..], tr[i..], o)
  }

  ghost predicate RunsStmt(s: Stmt, tr: Trace, o: Outcome)
    decreases s, 0
  {
    match s
    case Simple(t) =>
      (tr == [] && o == Cut) || (tr == [Ran(t)] && (o == Normal || o == Threw))
    case Return(t) =>
      (tr == [] && o == Cut) || (tr == [Ran(t)] && (o == Returned || o == Threw))
    case Break(t) =>
      (tr == [] && o == Cut) || (tr == [Ran(t)] && o == Broke)
    case Continue(t) =>
      (tr == [] && o == Cut) || (tr == [Ran(t)] && o == Continued)
    case If(t, Literal(v), body, orElse) =>
      if v then Runs(body, tr, o) else RunsElse(orElse, tr, o)
    case If(t, Dynamic, body, orElse) =>
      || (tr == [] && o == Cut)
      || (tr == [Ran(t)] && o == Threw)
      || (tr != [] && tr[0] == Chose(t, 1) && Runs(body, tr[1..], o))
      || (tr != [] && tr[0] == Chose(t, 0) && RunsElse(orElse, tr[1..], o))
    case For(t, c, body) =>
      exists k {:trigger IsCount(k)} :: IsCount(k) && RunsLoop(t, c, body, k, tr, o)
    case TryCatch(_, tryBody, catchBody) =>
      || (o != Threw && Runs(tryBody, tr, o))
      || exists i :: 0 <= i <= |tr| && Runs(tryBody, tr[..i], Threw) && Runs(catchBody, tr[i..], o)
    case Match(t, cases) =>
      || (tr == [] && o == Cut)
      || (tr == [Ran(t)] && o == Threw)
      || (!HasDefault(cases) && tr == [Chose(t, -1)] && o == Normal)
      || exists k :: 0 <= k < |cases| && tr != [] && tr[0] == Chose(t, k) && RunsCase(cases[k], tr[1..], o)
    case Block(stmts) =>
      Runs(stmts, tr, o)
  }

  ghost predicate RunsElse(orElse: Else, tr: Trace, o: Outcome)
    decreases orElse, 1
  {
    match orElse
    case NoElse => tr == [] && o == Normal
    case Else(b) => Runs(b, tr, o)
  }

  /** An arm is compiled to an arm of a Go `switch`, so a `break` in it leaves the match only. */
  ghost predicate RunsCase(c: Case, tr: Trace, o: Outcome)
    decreases c, 1
  {
    || (o != Broke && Runs(c.body, tr, o))
    || (o == Normal && Runs(c.body, tr, Broke))
  }

  predicate IsCount(k: int) {
    0 <= k
  }

  /** Exactly `k` further iterations are entered. */
  ghost predicate RunsLoop(t: Token, c: Cond, body: seq<Stmt>, k: nat, tr: Trace, o: Outcome)
    decreases body, 2, k
  {
    if k == 0 then
      || (tr == [] && o == Cut)
      || (c.Dynamic? && tr == [Ran(t)] && o == Threw)
      || (c != Literal(true) && tr == [Chose(t, 0)] && o == Normal)
    else
      c != Literal(false) && tr != [] && tr[0] == Chose(t, 1) &&
      (|| (o == Normal && Runs(body, tr[1..], Broke))
       || ((o == Returned || o == Threw || o == Cut) && Runs(body, tr[1..], o))
       || exists i :: 1 <= i <= |tr| && Finishes(body, tr[1..i]) && RunsLoop(t, c, body, k - 1, tr[i..], o))
  }

  /** An iteration after which the loop goes on. */
  ghost predicate Finishes(body: seq<Stmt>, tr: Trace)
    decreases body, 1
  {
    Runs(body, tr, Normal) || Runs(body, tr, Continued)
  }

  // ---------------------------------------------------------------- prefixes

  /** Every execution can be observed at every earlier moment. */
  lemma {:induction false} PrefixesAreCut(b: seq<Stmt>, tr: Trace, o: Outcome, j: nat)
    requires Runs(b, tr, o) && j < |tr|
    ensures Runs(b, tr[..j], Cut)
    decreases b, 0
  {
    var p := tr[..j];
    if o != Normal && RunsStmt(b[0], tr, o) {
      StmtPrefixesAreCut(b[0], tr, o, j);
    } else {
      var i :| 0 <= i <= |tr| && RunsStmt(b[0], tr[..i], Normal) && Runs(b[1..], tr[i..], o);
      if j < i {
        StmtPrefixesAreCut(b[0], tr[..i], Normal, j);
        assert tr[..i][..j] == p;
      } else {
        PrefixesAreCut(b[1..], tr[i..], o, j - i);
        assert p[..i] == tr[..i] && p[i..] == tr[i..][..j - i];
      }
    }
  }

  lemma {:induction false} StmtPrefixesAreCut(s: Stmt, tr: Trace, o: Outcome, j: nat)
    requires RunsStmt(s, tr, o) && j < |tr|
    ensures RunsStmt(s, tr[..j], Cut)
    decreases s, 0
  {
    var p := tr[..j];
    match s
    case If(t, c, body, orElse) =>
      if c.Literal? {
        if c.value { PrefixesAreCut(body, tr, o, j); } else { PrefixesAreCut(orElse.stmts, tr, o, j); }
      } else if j > 0 {
        assert p[1..] == tr[1..][..j - 1];
        if tr[0] == Chose(t, 1) && Runs(body, tr[1..], o) {
          PrefixesAreCut(body, tr[1..], o, j - 1);
        } else {
          PrefixesAreCut(orElse.stmts, tr[1..], o, j - 1);
        }
      }
    case For(t, c, body) =>
      var k :| IsCount(k) && RunsLoop(t, c, body, k, tr, o);
      var k' := LoopPrefixesAreCut(t, c, body, k, tr, o, j);
      assert IsCount(k');
    case TryCatch(_, x, y) =>
      if o != Threw && Runs(x, tr, o) {
        PrefixesAreCut(x, tr, o, j);
      } else {
        var i :| 0 <= i <= |tr| && Runs(x, tr[..i], Threw) && Runs(y, tr[i..], o);
        if j < i {
          PrefixesAreCut(x, tr[..i], Threw, j);
          assert tr[..i][..j] == p;
        } else {
          PrefixesAreCut(y, tr[i..], o, j - i);
          assert p[..i] == tr[..i] && p[i..] == tr[i..][..j - i];
        }
      }
    case Match(t, cases) =>
      if j > 0 {
        assert p[1..] == tr[1..][..j - 1];
        var k :| 0 <= k < |cases| && tr[0] == Chose(t, k) && RunsCase(cases[k], tr[1..], o);
        var inner := if o != Broke && Runs(cases[k].body, tr[1..], o) then o else Broke;
        PrefixesAreCut(cases[k].body, tr[1..], inner, j - 1);
        assert RunsCase(cases[k], p[1..], Cut);
      }
    case Block(inner) => PrefixesAreCut(inner, tr, o, j);
    case _ =>
  }

  lemma {:induction false} LoopPrefixesAreCut(t: Token, c: Cond, body: seq<Stmt>, k: nat, tr: Trace, o: Outcome, j: nat)
    returns (k': nat)
    requires RunsLoop(t, c, body, k, tr, o) && j < |tr|
    ensures RunsLoop(t, c, body, k', tr[..j], Cut)
    decreases body, 1, k
  {
    hide Runs, RunsStmt;
    var p := tr[..j];
    if j == 0 {
      return 0;
    }
    k' := 1;
    assert p[1..] == tr[1..][..j - 1];
    if o == Normal && Runs(body, tr[1..], Broke) {
      PrefixesAreCut(body, tr[1..], Broke, j - 1);
    } else if (o == Returned || o == Threw || o == Cut) && Runs(body, tr[1..], o) {
      PrefixesAreCut(body, tr[1..], o, j - 1);
    } else {
      var i :| 1 <= i <= |tr| && Finishes(body, tr[1..i]) && RunsLoop(t, c, body, k - 1, tr[i..], o);
      if j < i {
        PrefixesAreCut(body, tr[1..i], if Runs(body, tr[1..i], Normal) then Normal else Continued, j - 1);
        assert tr[1..i][..j - 1] == p[1..];
      } else {
        var rest := LoopPrefixesAreCut(t, c, body, k - 1, tr[i..], o, j - i);
        k' := rest + 1;
        assert p[1..i] == tr[1..i] && p[i..] == tr[i..][..j - i];
        assert Finishes(body, p[1..i]) && RunsLoop(t, c, body, k' - 1, p[i..], Cut);
      }
    }
  }

  // ---------------------------------------------------------------- equivalence

  /** Two blocks with the same executions: same traces, each with the same ways to end. */
  ghost predicate Equivalent(a: seq<Stmt>, b: seq<Stmt>) {
    forall tr: Trace, o: Outcome :: Runs(a, tr, o) <==> Runs(b, tr, o)
  }

  ghost predicate EquivalentStmt(s: Stmt, t: Stmt) {
    forall tr: Trace, o: Outcome :: RunsStmt(s, tr, o) <==> RunsStmt(t, tr, o)
  }

  ghost predicate EquivalentElse(a: Else, b: Else) {
    forall tr: Trace, o: Outcome :: RunsElse(a, tr, o) <==> RunsElse(b, tr, o)
  }

  lemma SeqCongruence(s: Stmt, t: Stmt, a: seq<Stmt>, b: seq<Stmt>)
    requires EquivalentStmt(s, t) && Equivalent(a, b)
    ensures Equivalent([s] + a, [t] + b)
  {
  }

  lemma IfCongruence(t: Token, c: Cond, a: seq<Stmt>, b: seq<Stmt>, x: Else, y: Else)
    requires Equivalent(a, b) && EquivalentElse(x, y)
    ensures EquivalentStmt(If(t, c, a, x), If(t, c, b, y))
  {
  }

  lemma {:induction false} LoopImplication(t: Token, c: Cond, a: seq<Stmt>, b: seq<Stmt>, k: nat, tr: Trace, o: Outcome)
    requires Equivalent(a, b)
    requires RunsLoop(t, c, a, k, tr, o)
    ensures RunsLoop(t, c, b, k, tr, o)
    decreases k
  {
    if k != 0 {
      assert Runs(a, tr[1..], o) <==> Runs(b, tr[1..], o);
      assert Runs(a, tr[1..], Broke) <==> Runs(b, tr[1..], Broke);
      if i :| 1 <= i <= |tr| && Finishes(a, tr[1..i]) && RunsLoop(t, c, a, k - 1, tr[i..], o) {
        assert Finishes(b, tr[1..i]);
        LoopImplication(t, c, a, b, k - 1, tr[i..], o);
      }
    }
  }

  lemma ForCongruence(t: Token, c: Cond, a: seq<Stmt>, b: seq<Stmt>)
    requires Equivalent(a, b)
    ensures EquivalentStmt(For(t, c, a), For(t, c, b))
  {
    forall tr: Trace, o: Outcome
      ensures RunsStmt(For(t, c, a), tr, o) <==> RunsStmt(For(t, c, b), tr, o)
    {
      if RunsStmt(For(t, c, a), tr, o) {
        var k :| IsCount(k) && RunsLoop(t, c, a, k, tr, o);
        LoopImplication(t, c, a, b, k, tr, o);
      }
      if RunsStmt(For(t, c, b), tr, o) {
        var k :| IsCount(k) && RunsLoop(t, c, b, k, tr, o);
        LoopImplication(t, c, b, a, k, tr, o);
      }
    }
  }

  lemma TryCongruence(t: Token, a: seq<Stmt>, b: seq<Stmt>, x: seq<Stmt>, y: seq<Stmt>)
    requires Equivalent(a, b) && Equivalent(x, y)
    ensures EquivalentStmt(TryCatch(t, a, x), TryCatch(t, b, y))
  {
  }

  lemma MatchCongruence(t: Token, cs: seq<Case>, ds: seq<Case>)
    requires |cs| == |ds|
    requires forall k :: 0 <= k < |cs| ==> cs[k].isDefault == ds[k].isDefault && Equivalent(cs[k].body, ds[k].body)
    ensures EquivalentStmt(Match(t, cs), Match(t, ds))
  {
    assert HasDefault(cs) <==> HasDefault(ds);
    forall tr: Trace, o: Outcome
      ensures RunsStmt(Match(t, cs), tr, o) <==> RunsStmt(Match(t, ds), tr, o)
    {
      if tr != [] {
        forall k | 0 <= k < |cs|
          ensures RunsCase(cs[k], tr[1..], o) <==> RunsCase(ds[k], tr[1..], o)
        {
          assert Equivalent(cs[k].body, ds[k].body);
          assert Runs(cs[k].body, tr[1..], o) <==> Runs(ds[k].body, tr[1..], o);
          assert Runs(cs[k].body, tr[1..], Broke) <==> Runs(ds[k].body, tr[1..], Broke);
        }
      }
    }
  }

  /** Nothing after a terminator executes. */
  lemma TerminatorCutsRest(s: Stmt, rest: seq<Stmt>)
    requires IsTerminator(s)
    ensures Equivalent([s] + rest, [s])
  {
  }
}
