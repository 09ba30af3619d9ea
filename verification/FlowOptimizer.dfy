/** The statement passes of the optimizer: dead-branch and unreachable-code elimination. */
module Optimizer {
  import opened FlowAst
  import opened MissingReturn
  import opened Options

  /** The optimized statement, or nothing when the statement disappears. */
  function OptimizeStmt(s: Stmt): Option<Stmt>
    decreases s
  {
    match s
    case Block(inner) => Some(Block(OptimizeBlock(inner)))
    case If(_, Literal(true), body, _) => Some(Block(OptimizeBlock(body)))
    case If(_, Literal(false), _, Else(e)) => Some(Block(OptimizeBlock(e)))
    case If(_, Literal(false), _, NoElse) => None
    case If(t, Dynamic, body, NoElse) => Some(If(t, Dynamic, OptimizeBlock(body), NoElse))
    case If(t, Dynamic, body, Else(e)) => Some(If(t, Dynamic, OptimizeBlock(body), Else(OptimizeBlock(e))))
    case For(t, c, body) => Some(For(t, c, OptimizeBlock(body)))
    case TryCatch(t, x, y) => Some(TryCatch(t, OptimizeBlock(x), OptimizeBlock(y)))
    case _ => Some(s)
  }

  function OptimizeBlock(b: seq<Stmt>): seq<Stmt>
    decreases b
  {
    if b == [] then []
    else
      var rest := OptimizeBlock(b[1..]);
      match OptimizeStmt(b[0])
      case None => rest
      case Some(s) => if IsTerminator(s) then [s] else [s] + rest
  }

  /** The block pass as written: append optimized statements until a terminator has been kept. */
  method OptimizeStatements(stmts: seq<Stmt>) returns (optimized: seq<Stmt>)
    ensures optimized == OptimizeBlock(stmts)
  {
    optimized := [];
    var i := 0;
    while i < |stmts|
      invariant 0 <= i <= |stmts|
      invariant OptimizeBlock(stmts) == optimized + OptimizeBlock(stmts[i..])
    {
      assert stmts[i..][0] == stmts[i] && stmts[i..][1..] == stmts[i + 1..];
      var optSub := OptimizeStmt(stmts[i]);
      if optSub.Some? {
        optimized := optimized + [optSub.value];
        if IsTerminator(optSub.value) {
          break;
        }
      }
      i := i + 1;
    }
  }

  /** Nothing is left to do outside match arms: a terminator only stands at the end of its block, and
      no `if` has a literal condition. */
  ghost predicate Clean(b: seq<Stmt>)
    decreases b
  {
    && (forall k :: 0 <= k < |b| - 1 ==> !IsTerminator(b[k]))
    && (forall k :: 0 <= k < |b| ==> CleanStmt(b[k]))
  }

  ghost predicate CleanStmt(s: Stmt)
    decreases s
  {
    match s
    case Block(inner) => Clean(inner)
    case If(_, c, body, orElse) => c.Dynamic? && Clean(body) && (orElse.Else? ==> Clean(orElse.stmts))
    case For(_, _, body) => Clean(body)
    case TryCatch(_, x, y) => Clean(x) && Clean(y)
    case _ => true
  }

  /** The optimizer leaves nothing to do. */
  lemma {:induction false} OptimizedIsClean(b: seq<Stmt>)
    ensures Clean(OptimizeBlock(b))
    decreases b
  {
    if b != [] {
      OptimizedIsClean(b[1..]);
      if OptimizeStmt(b[0]).Some? {
        OptimizedStmtIsClean(b[0]);
      }
    }
  }

  lemma {:induction false} OptimizedStmtIsClean(s: Stmt)
    requires OptimizeStmt(s).Some?
    ensures CleanStmt(OptimizeStmt(s).value)
    decreases s
  {
    match s
    case Block(inner) => OptimizedIsClean(inner);
    case If(_, c, body, orElse) =>
      OptimizedIsClean(body);
      if orElse.Else? { OptimizedIsClean(orElse.stmts); }
    case For(_, _, body) => OptimizedIsClean(body);
    case TryCatch(_, x, y) =>
      OptimizedIsClean(x);
      OptimizedIsClean(y);
    case _ =>
  }

  /** And what is clean already stays as it is. */
  lemma {:induction false} CleanStays(b: seq<Stmt>)
    requires Clean(b)
    ensures OptimizeBlock(b) == b
    decreases b
  {
    if b != [] {
      assert Clean(b[1..]);
      CleanStays(b[1..]);
      CleanStmtStays(b[0]);
      assert b == [b[0]] + b[1..];
    }
  }

  lemma {:induction false} CleanStmtStays(s: Stmt)
    requires CleanStmt(s)
    ensures OptimizeStmt(s) == Some(s)
    decreases s
  {
    match s
    case Block(inner) => CleanStays(inner);
    case If(_, c, body, orElse) =>
      CleanStays(body);
      if orElse.Else? { CleanStays(orElse.stmts); }
    case For(_, _, body) => CleanStays(body);
    case TryCatch(_, x, y) =>
      CleanStays(x);
      CleanStays(y);
    case _ =>
  }

  /** Optimizing a block changes no trace and no outcome. */
  lemma {:induction false} OptimizePreservesExecutions(b: seq<Stmt>)
    ensures Equivalent(b, OptimizeBlock(b))
    decreases b
  {
    if b != [] {
      var s, rest := b[0], b[1..];
      assert b == [s] + rest;
      OptimizePreservesExecutions(rest);
      match OptimizeStmt(s) {
        case None =>
          VanishingStmt(s, rest);
        case Some(t) =>
          OptimizeStmtPreserves(s, t);
          SeqCongruence(s, t, rest, OptimizeBlock(rest));
          if IsTerminator(t) {
            TerminatorCutsRest(t, OptimizeBlock(rest));
          }
      }
    }
  }

  /** `if false { ... }` without else does nothing at all. */
  lemma VanishingStmt(s: Stmt, rest: seq<Stmt>)
    requires OptimizeStmt(s).None?
    ensures Equivalent([s] + rest, rest)
  {
    forall tr: Trace, o: Outcome
      ensures Runs([s] + rest, tr, o) <==> Runs(rest, tr, o)
    {
      var b := [s] + rest;
      assert b[0] == s && b[1..] == rest;
      assert forall x: Trace, p: Outcome :: RunsStmt(s, x, p) <==> x == [] && p == Normal;
      if Runs(b, tr, o) {
        assert !(o != Normal && RunsStmt(b[0], tr, o));
        var i :| 0 <= i <= |tr| && RunsStmt(b[0], tr[..i], Normal) && Runs(b[1..], tr[i..], o);
        assert tr[i..] == tr;
      }
      if Runs(rest, tr, o) {
        assert tr[..0] == [] && tr[0..] == tr;
        assert RunsStmt(s, tr[..0], Normal) && Runs(rest, tr[0..], o);
      }
    }
  }

  lemma {:induction false} OptimizeStmtPreserves(s: Stmt, t: Stmt)
    requires OptimizeStmt(s) == Some(t)
    ensures EquivalentStmt(s, t)
    decreases s
  {
    match s
    case Block(inner) =>
      OptimizePreservesExecutions(inner);
      BlockStands(inner, OptimizeBlock(inner), s);
    case If(u, c, body, orElse) =>
      OptimizePreservesExecutions(body);
      if orElse.Else? {
        OptimizePreservesExecutions(orElse.stmts);
        assert EquivalentElse(orElse, Else(OptimizeBlock(orElse.stmts)));
      }
      if c.Literal? {
        if c.value {
          BlockStands(body, OptimizeBlock(body), s);
        } else {
          BlockStands(orElse.stmts, OptimizeBlock(orElse.stmts), s);
        }
      } else {
        IfCongruence(u, c, body, OptimizeBlock(body), orElse,
                     if orElse.Else? then Else(OptimizeBlock(orElse.stmts)) else NoElse);
      }
    case For(u, c, body) =>
      OptimizePreservesExecutions(body);
      ForCongruence(u, c, body, OptimizeBlock(body));
    case TryCatch(u, x, y) =>
      OptimizePreservesExecutions(x);
      OptimizePreservesExecutions(y);
      TryCongruence(u, x, OptimizeBlock(x), y, OptimizeBlock(y));
    case _ =>
  }

  /** A statement that runs like block `a` can be replaced by a bare block equivalent to `a`. */
  lemma BlockStands(a: seq<Stmt>, b: seq<Stmt>, s: Stmt)
    requires Equivalent(a, b)
    requires forall tr: Trace, o: Outcome :: RunsStmt(s, tr, o) <==> Runs(a, tr, o)
    ensures EquivalentStmt(s, Block(b))
  {
  }

  /** Optimizing keeps the set of possible outcomes, so it neither adds nor removes a path that
      falls off the end of a function. */
  lemma OptimizeKeepsOutcomes(b: seq<Stmt>)
    ensures Outcomes(OptimizeBlock(b)) == Outcomes(b)
  {
    OptimizePreservesExecutions(b);
    forall o: Outcome
      ensures o in Outcomes(b) <==> o in Outcomes(OptimizeBlock(b))
    {
      if o in Outcomes(b) {
        var tr := OutcomesAreRealised(b, o);
        assert Runs(OptimizeBlock(b), tr, o);
        OutcomesAreComplete(OptimizeBlock(b), tr, o);
      }
      if o in Outcomes(OptimizeBlock(b)) {
        var tr := OutcomesAreRealised(OptimizeBlock(b), o);
        assert Runs(b, tr, o);
        OutcomesAreComplete(b, tr, o);
      }
    }
  }
}
