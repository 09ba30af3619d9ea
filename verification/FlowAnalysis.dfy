/** Unreachable-code reports: what they promise about every execution. */
module UnreachableCode {
  import opened FlowAst
  import opened Places

  /** The positions reported for a block, in report order. */
  function Reports(b: seq<Stmt>): seq<Token>
    decreases b
  {
    if b == [] then []
    else if IsTerminator(b[0]) then FirstDead(b[1..])
    else ReportsStmt(b[0]) + Reports(b[1..])
  }

  function FirstDead(rest: seq<Stmt>): seq<Token> {
    if rest != [] && TokenOf(rest[0]).line > 0 then [TokenOf(rest[0])] else []
  }

  function ReportsStmt(s: Stmt): seq<Token>
    decreases s
  {
    match s
    case If(_, _, body, NoElse) => Reports(body)
    case If(_, _, body, Else(b)) => Reports(body) + Reports(b)
    case For(_, _, body) => Reports(body)
    case TryCatch(_, t, c) => Reports(t) + Reports(c)
    case Match(_, cases) => ReportsCases(cases)
    case _ => []
  }

  function ReportsCases(cases: seq<Case>): seq<Token>
    decreases cases
  {
    if cases == [] then [] else Reports(cases[0].body) + ReportsCases(cases[1..])
  }

  /** The report loop: stop at the first statement after a terminator, otherwise recurse. */
  method Analyze(block: seq<Stmt>) returns (diags: seq<Token>)
    ensures diags == Reports(block)
    decreases block, 1
  {
    hide Reports, ReportsStmt, FirstDead;
    diags := [];
    var terminated := false;
    var i := 0;
    assert block[0..] == block;
    while i < |block|
      invariant 0 <= i <= |block|
      invariant Reports(block) == diags + if terminated then FirstDead(block[i..]) else Reports(block[i..])
    {
      var stmt := block[i];
      ReportsAt(block, i);
      if terminated {
        if TokenOf(stmt).line > 0 {
          diags := diags + [TokenOf(stmt)];
        }
        break;
      }
      if stmt.Return? || stmt.Break? || stmt.Continue? {
        terminated := true;
      }
      var nested := AnalyzeNested(stmt);
      diags := diags + nested;
      i := i + 1;
    }
    ReportsNothing(block[|block|..]);
  }

  lemma ReportsAt(block: seq<Stmt>, i: nat)
    requires i < |block|
    ensures FirstDead(block[i..]) == if TokenOf(block[i]).line > 0 then [TokenOf(block[i])] else []
    ensures Reports(block[i..]) ==
            if IsTerminator(block[i]) then FirstDead(block[i + 1..])
            else ReportsStmt(block[i]) + Reports(block[i + 1..])
    ensures IsTerminator(block[i]) ==> ReportsStmt(block[i]) == []
  {
    assert block[i..][0] == block[i] && block[i..][1..] == block[i + 1..];
  }

  lemma ReportsNothing(block: seq<Stmt>)
    requires block == []
    ensures Reports(block) == FirstDead(block) == []
  {
  }

  /** The recursion into the blocks nested in one statement. */
  method AnalyzeNested(stmt: Stmt) returns (diags: seq<Token>)
    ensures diags == ReportsStmt(stmt)
    decreases stmt, 0
  {
    hide Reports, ReportsCases;
    diags := [];
    match stmt {
      case If(_, _, body, orElse) =>
        diags := Analyze(body);
        if orElse.Else? {
          var d := Analyze(orElse.stmts);
          diags := diags + d;
        }
      case For(_, _, body) =>
        diags := Analyze(body);
      case TryCatch(_, tryBody, catchBody) =>
        diags := Analyze(tryBody);
        var d := Analyze(catchBody);
        diags := diags + d;
      case Match(_, cases) =>
        diags := AnalyzeCases(cases);
      case _ =>
    }
  }

  method AnalyzeCases(cases: seq<Case>) returns (diags: seq<Token>)
    ensures diags == ReportsCases(cases)
    decreases cases, 2
  {
    hide Reports;
    diags := [];
    var j := 0;
    while j < |cases|
      invariant 0 <= j <= |cases|
      invariant ReportsCases(cases) == diags + ReportsCases(cases[j..])
    {
      assert cases[j..][0] == cases[j] && cases[j..][1..] == cases[j + 1..];
      var d := Analyze(cases[j].body);
      diags := diags + d;
      j := j + 1;
    }
  }

  // ---------------------------------------------------------------- where the reports stand

  /** The blocks nested in a statement that the analysis enters, in order. */
  ghost function Branches(s: Stmt): seq<seq<Stmt>> {
    match s
    case If(_, _, body, NoElse) => [body]
    case If(_, _, body, Else(b)) => [body, b]
    case For(_, _, body) => [body]
    case TryCatch(_, t, c) => [t, c]
    case Match(_, cases) => seq(|cases|, k requires 0 <= k < |cases| => cases[k].body)
    case _ => []
  }

  ghost predicate NoTerminator(b: seq<Stmt>, n: nat)
    requires n <= |b|
  {
    forall k :: 0 <= k < n ==> !IsTerminator(b[k])
  }

  /** The statement at the place, with position `t`, comes right behind the first terminator of its
      block, and no block on the way to it lies behind a terminator. */
  ghost predicate DeadAt(b: seq<Stmt>, p: Place, t: Token)
    decreases |p|
  {
    && p != [] && p[0] < |b|
    && if |p| == 1 then
         && p[0] > 0 && IsTerminator(b[p[0] - 1]) && NoTerminator(b, p[0] - 1)
         && t == TokenOf(b[p[0]]) && t.line > 0
       else
         && NoTerminator(b, p[0])
         && p[1] < |Branches(b[p[0]])| && DeadAt(Branches(b[p[0]])[p[1]], p[2..], t)
  }

  /** These statements from index `i` of a block on, and those in the branches of statement `i` from
      branch `j` on, or in branch `j` alone. */
  ghost function DeadFrom(b: seq<Stmt>, i: nat): iset<(Place, Token)> {
    iset x: (Place, Token) | DeadAt(b, x.0, x.1) && x.0[0] >= i
  }

  ghost function DeadBelow(b: seq<Stmt>, i: nat, j: nat): iset<(Place, Token)> {
    iset x: (Place, Token) | DeadAt(b, x.0, x.1) && |x.0| > 1 && x.0[0] == i && x.0[1] >= j
  }

  ghost function DeadIn(b: seq<Stmt>, i: nat, j: nat): iset<(Place, Token)> {
    iset x: (Place, Token) | DeadAt(b, x.0, x.1) && |x.0| > 1 && x.0[0] == i && x.0[1] == j
  }

  /** The analysis reports, in text order and once each, exactly the statements right behind the first
      terminator of every block it enters. */
  lemma ReportsInTextOrder(b: seq<Stmt>) returns (ps: seq<Place>)
    ensures Listing(ps, Reports(b), DeadFrom(b, 0))
  {
    assert b[0..] == b;
    ps := ReportsFrom(b, 0);
  }

  lemma {:induction false} ReportsFrom(b: seq<Stmt>, i: nat) returns (ps: seq<Place>)
    requires i <= |b| && NoTerminator(b, i)
    ensures Listing(ps, Reports(b[i..]), DeadFrom(b, i))
    decreases b, |b| - i
  {
    hide Listing, Reports, ReportsStmt, FirstDead;
    if i == |b| {
      ReportsNothing(b[i..]);
      ListingNothing<Token>();
      assert DeadFrom(b, i) == iset{};
      return [];
    }
    ReportsAt(b, i);
    if IsTerminator(b[i]) {
      ps := FirstDeadListed(b, i);
    } else {
      var here := ReportsBelow(b, i, 0);
      var rest := ReportsFrom(b, i + 1);
      ReportsByBranch(b[i]);
      var below := Branches(b[i]);
      assert below[0..] == below;
      DeadSplits(b, i);
      ListingJoined(here, ReportsStmt(b[i]), DeadBelow(b, i, 0), rest, Reports(b[i + 1..]), DeadFrom(b, i + 1), 0);
      ps := here + rest;
    }
  }

  lemma DeadSplits(b: seq<Stmt>, i: nat)
    requires i < |b| && NoTerminator(b, i + 1)
    ensures DeadFrom(b, i) == DeadBelow(b, i, 0) + DeadFrom(b, i + 1)
    ensures Apart(DeadBelow(b, i, 0), DeadFrom(b, i + 1), 0)
  {
    forall x: (Place, Token) | x in DeadFrom(b, i) && x.0[0] == i
      ensures |x.0| > 1
    {
    }
  }

  lemma FirstDeadListed(b: seq<Stmt>, i: nat) returns (ps: seq<Place>)
    requires i < |b| && NoTerminator(b, i) && IsTerminator(b[i])
    ensures Listing(ps, FirstDead(b[i + 1..]), DeadFrom(b, i))
  {
    ps := if i + 1 < |b| && TokenOf(b[i + 1]).line > 0 then [[i + 1]] else [];
    forall x: (Place, Token) | x in DeadFrom(b, i)
      ensures i + 1 < |b| && x == ([i + 1], TokenOf(b[i + 1])) && x.1.line > 0
    {
      OnlyBehind(b, i, x.0, x.1);
      assert x.0 == [i + 1];
    }
  }

  lemma OnlyBehind(b: seq<Stmt>, i: nat, p: Place, t: Token)
    requires i < |b| && NoTerminator(b, i) && IsTerminator(b[i]) && DeadAt(b, p, t) && p[0] >= i
    ensures |p| == 1 && p[0] == i + 1
  {
    assert Branches(b[i]) == [];
    assert forall n :: 0 <= n <= |b| && NoTerminator(b, n) ==> n <= i;
  }

  /** The reports of the branches one after the other. */
  ghost function ReportsAll(branches: seq<seq<Stmt>>): seq<Token> {
    if branches == [] then [] else Reports(branches[0]) + ReportsAll(branches[1..])
  }

  lemma ReportsByBranch(s: Stmt)
    ensures ReportsStmt(s) == ReportsAll(Branches(s))
  {
    hide Reports, ReportsAll;
    match s
    case If(_, _, body, orElse) =>
      FewReports(body, if orElse.Else? then orElse.stmts else []);
    case For(_, _, body) => FewReports(body, []);
    case TryCatch(_, t, c) => FewReports(t, c);
    case Match(_, cases) => ReportsByCase(cases);
    case _ => FewReports([], []);
  }

  lemma FewReports(a: seq<Stmt>, b: seq<Stmt>)
    ensures ReportsAll([]) == [] && ReportsAll([a]) == Reports(a) && ReportsAll([a, b]) == Reports(a) + Reports(b)
  {
    hide Reports;
    assert [a, b][1..] == [b] && [b][1..] == [] && [a][1..] == [];
  }

  lemma {:induction false} ReportsByCase(cases: seq<Case>)
    ensures ReportsCases(cases) == ReportsAll(seq(|cases|, k requires 0 <= k < |cases| => cases[k].body))
  {
    hide Reports;
    if cases != [] {
      ReportsByCase(cases[1..]);
      var bodies := seq(|cases|, k requires 0 <= k < |cases| => cases[k].body);
      assert bodies[1..] == seq(|cases[1..]|, k requires 0 <= k < |cases[1..]| => cases[1..][k].body);
    }
  }

  lemma {:induction false} ReportsBelow(b: seq<Stmt>, i: nat, j: nat) returns (ps: seq<Place>)
    requires i < |b| && NoTerminator(b, i) && j <= |Branches(b[i])|
    ensures Listing(ps, ReportsAll(Branches(b[i])[j..]), DeadBelow(b, i, j))
    decreases b[i], 1, |Branches(b[i])| - j
  {
    hide Listing, Reports;
    var branches := Branches(b[i]);
    if j == |branches| {
      ListingNothing<Token>();
      assert DeadBelow(b, i, j) == iset{};
      return [];
    }
    assert branches[j..][0] == branches[j] && branches[j..][1..] == branches[j + 1..];
    var here := ReportsIn(b, i, j, branches[j]);
    var rest := ReportsBelow(b, i, j + 1);
    assert DeadBelow(b, i, j) == DeadIn(b, i, j) + DeadBelow(b, i, j + 1);
    ListingJoined(here, Reports(branches[j]), DeadIn(b, i, j),
                  rest, ReportsAll(branches[j + 1..]), DeadBelow(b, i, j + 1), 1);
    ps := here + rest;
  }

  lemma {:induction false} ReportsIn(b: seq<Stmt>, i: nat, j: nat, branch: seq<Stmt>) returns (ps: seq<Place>)
    requires i < |b| && NoTerminator(b, i) && j < |Branches(b[i])| && branch == Branches(b[i])[j]
    ensures Listing(ps, Reports(branch), DeadIn(b, i, j))
    decreases b[i], 0, 0
  {
    hide Listing, Reports;
    assert branch[0..] == branch;
    var qs := ReportsFrom(branch, 0);
    ps := Below([i, j], qs);
    ListingBelow([i, j], qs, Reports(branch), DeadFrom(branch, 0));
    DeadMoved(b, i, j, branch);
  }

  lemma DeadMoved(b: seq<Stmt>, i: nat, j: nat, branch: seq<Stmt>)
    requires i < |b| && NoTerminator(b, i) && j < |Branches(b[i])| && branch == Branches(b[i])[j]
    ensures Moved([i, j], DeadFrom(branch, 0)) == DeadIn(b, i, j)
  {
    forall x: (Place, Token)
      ensures x in Moved([i, j], DeadFrom(branch, 0)) <==> x in DeadIn(b, i, j)
    {
      if |x.0| > 1 && x.0[0] == i && x.0[1] == j {
        assert x.0 == [i, j] + x.0[2..];
      }
    }
  }

  // ---------------------------------------------------------------- deleting what is reported

  /** The block without its unreachable statements: at every nesting level the analysis visits,
      everything behind the first terminator is gone. */
  function Prune(b: seq<Stmt>): seq<Stmt>
    decreases b
  {
    if b == [] then []
    else if IsTerminator(b[0]) then [b[0]]
    else [PruneStmt(b[0])] + Prune(b[1..])
  }

  function PruneStmt(s: Stmt): Stmt
    decreases s
  {
    match s
    case If(t, c, body, NoElse) => If(t, c, Prune(body), NoElse)
    case If(t, c, body, Else(b)) => If(t, c, Prune(body), Else(Prune(b)))
    case For(t, c, body) => For(t, c, Prune(body))
    case TryCatch(t, x, y) => TryCatch(t, Prune(x), Prune(y))
    case Match(t, cases) => Match(t, PruneCases(cases))
    case _ => s
  }

  function PruneCases(cases: seq<Case>): (r: seq<Case>)
    ensures |r| == |cases|
    ensures forall k :: 0 <= k < |r| ==> r[k] == Case(cases[k].isDefault, Prune(cases[k].body))
    decreases cases
  {
    if cases == [] then [] else [Case(cases[0].isDefault, Prune(cases[0].body))] + PruneCases(cases[1..])
  }

  /** Deleting the unreachable statements changes no trace and no outcome. */
  lemma {:induction false} PrunePreservesExecutions(b: seq<Stmt>)
    ensures Equivalent(b, Prune(b))
    decreases b
  {
    if b == [] {
    } else if IsTerminator(b[0]) {
      TerminatorCutsRest(b[0], b[1..]);
      assert b == [b[0]] + b[1..];
    } else {
      PruneStmtPreserves(b[0]);
      PrunePreservesExecutions(b[1..]);
      SeqCongruence(b[0], PruneStmt(b[0]), b[1..], Prune(b[1..]));
      assert b == [b[0]] + b[1..];
    }
  }

  lemma {:induction false} PruneStmtPreserves(s: Stmt)
    ensures EquivalentStmt(s, PruneStmt(s))
    decreases s
  {
    match s
    case If(t, c, body, orElse) =>
      PrunePreservesExecutions(body);
      if orElse.Else? {
        PrunePreservesExecutions(orElse.stmts);
        assert EquivalentElse(orElse, Else(Prune(orElse.stmts)));
        IfCongruence(t, c, body, Prune(body), orElse, Else(Prune(orElse.stmts)));
      } else {
        IfCongruence(t, c, body, Prune(body), orElse, orElse);
      }
    case For(t, c, body) =>
      PrunePreservesExecutions(body);
      ForCongruence(t, c, body, Prune(body));
    case TryCatch(t, x, y) =>
      PrunePreservesExecutions(x);
      PrunePreservesExecutions(y);
      TryCongruence(t, x, Prune(x), y, Prune(y));
    case Match(t, cases) =>
      forall k | 0 <= k < |cases|
        ensures Equivalent(cases[k].body, Prune(cases[k].body))
      {
        PrunePreservesExecutions(cases[k].body);
      }
      MatchCongruence(t, cases, PruneCases(cases));
    case _ =>
  }

  // ---------------------------------------------------------------- reported statements never run

  /** All positions in a block, with multiplicity. */
  ghost function Tokens(b: seq<Stmt>): multiset<Token>
    decreases b
  {
    if b == [] then multiset{} else TokensStmt(b[0]) + Tokens(b[1..])
  }

  ghost function TokensStmt(s: Stmt): multiset<Token>
    decreases s
  {
    match s
    case If(t, _, body, NoElse) => multiset{t} + Tokens(body)
    case If(t, _, body, Else(b)) => multiset{t} + Tokens(body) + Tokens(b)
    case For(t, _, body) => multiset{t} + Tokens(body)
    case TryCatch(t, x, y) => multiset{t} + Tokens(x) + Tokens(y)
    case Match(t, cases) => multiset{t} + TokensCases(cases)
    case Block(inner) => Tokens(inner)
    case _ => multiset{s.tok}
  }

  ghost function TokensCases(cases: seq<Case>): multiset<Token>
    decreases cases
  {
    if cases == [] then multiset{} else Tokens(cases[0].body) + TokensCases(cases[1..])
  }

  ghost predicate Mentions(tr: Trace, t: Token) {
    exists i :: 0 <= i < |tr| && tr[i].tok == t
  }

  lemma MentionsSplit(tr: Trace, i: nat, t: Token)
    requires i <= |tr|
    ensures Mentions(tr, t) <==> Mentions(tr[..i], t) || Mentions(tr[i..], t)
  {
  }

  lemma MentionsFirst(tr: Trace, t: Token)
    requires Mentions(tr, t)
    ensures tr != [] && (tr[0].tok == t || (|tr| > 1 && Mentions(tr[1..], t)))
  {
    var i :| 0 <= i < |tr| && tr[i].tok == t;
    assert i > 0 ==> tr[1..][i - 1].tok == t;
  }

  lemma {:induction false} EventsComeFromBlock(b: seq<Stmt>, tr: Trace, o: Outcome, t: Token)
    requires Runs(b, tr, o) && Mentions(tr, t)
    ensures t in Tokens(b)
    decreases b, 0
  {
    if b != [] {
      if o != Normal && RunsStmt(b[0], tr, o) {
        EventsComeFromStmt(b[0], tr, o, t);
      } else {
        var i :| 0 <= i <= |tr| && RunsStmt(b[0], tr[..i], Normal) && Runs(b[1..], tr[i..], o);
        MentionsSplit(tr, i, t);
        if Mentions(tr[..i], t) {
          EventsComeFromStmt(b[0], tr[..i], Normal, t);
        } else {
          EventsComeFromBlock(b[1..], tr[i..], o, t);
        }
      }
    }
  }

  lemma {:induction false} EventsComeFromStmt(s: Stmt, tr: Trace, o: Outcome, t: Token)
    requires RunsStmt(s, tr, o) && Mentions(tr, t)
    ensures t in TokensStmt(s)
    decreases s, 0
  {
    match s
    case If(u, c, body, orElse) =>
      if c.Literal? {
        if c.value {
          EventsComeFromBlock(body, tr, o, t);
        } else if orElse.Else? {
          EventsComeFromBlock(orElse.stmts, tr, o, t);
        }
      } else if t != u {
        MentionsSplit(tr, 1, t);
        if tr[0] == Chose(u, 1) && Runs(body, tr[1..], o) {
          EventsComeFromBlock(body, tr[1..], o, t);
        } else if orElse.Else? {
          EventsComeFromBlock(orElse.stmts, tr[1..], o, t);
        }
      }
    case For(u, c, body) =>
      var k :| IsCount(k) && RunsLoop(u, c, body, k, tr, o);
      EventsComeFromLoop(u, c, body, k, tr, o, t);
    case TryCatch(u, x, y) =>
      if o != Threw && Runs(x, tr, o) {
        EventsComeFromBlock(x, tr, o, t);
      } else {
        var i :| 0 <= i <= |tr| && Runs(x, tr[..i], Threw) && Runs(y, tr[i..], o);
        MentionsSplit(tr, i, t);
        if Mentions(tr[..i], t) {
          EventsComeFromBlock(x, tr[..i], Threw, t);
        } else {
          EventsComeFromBlock(y, tr[i..], o, t);
        }
      }
    case Match(u, cases) =>
      if t != u {
        MentionsSplit(tr, 1, t);
        var k :| 0 <= k < |cases| && tr[0] == Chose(u, k) && RunsCase(cases[k], tr[1..], o);
        var o' := if o != Broke && Runs(cases[k].body, tr[1..], o) then o else Broke;
        EventsComeFromBlock(cases[k].body, tr[1..], o', t);
        CaseTokens(cases, k);
      }
    case Block(inner) =>
      EventsComeFromBlock(inner, tr, o, t);
    case _ =>
  }

  lemma {:induction false} EventsComeFromLoop(u: Token, c: Cond, body: seq<Stmt>, k: nat, tr: Trace, o: Outcome,
                                              t: Token)
    requires RunsLoop(u, c, body, k, tr, o) && Mentions(tr, t)
    ensures t == u || t in Tokens(body)
    decreases body, 1, k
  {
    hide Runs, RunsStmt, Tokens, Mentions;
    MentionsFirst(tr, t);
    if k != 0 && t != u {
      if o == Normal && Runs(body, tr[1..], Broke) {
        EventsComeFromBlock(body, tr[1..], Broke, t);
      } else if (o == Returned || o == Threw || o == Cut) && Runs(body, tr[1..], o) {
        EventsComeFromBlock(body, tr[1..], o, t);
      } else {
        var i :| 1 <= i <= |tr| && Finishes(body, tr[1..i]) && RunsLoop(u, c, body, k - 1, tr[i..], o);
        assert tr[1..][..i - 1] == tr[1..i] && tr[1..][i - 1..] == tr[i..];
        MentionsSplit(tr[1..], i - 1, t);
        if Mentions(tr[1..i], t) {
          EventsComeFromBlock(body, tr[1..i], if Runs(body, tr[1..i], Normal) then Normal else Continued, t);
        } else {
          EventsComeFromLoop(u, c, body, k - 1, tr[i..], o, t);
        }
      }
    }
  }

  lemma {:induction false} CaseTokens(cases: seq<Case>, k: nat)
    requires k < |cases|
    ensures Tokens(cases[k].body) <= TokensCases(cases)
  {
    if k != 0 {
      CaseTokens(cases[1..], k - 1);
    }
  }

  /** A reported position is that of a deleted statement, counted with multiplicity. */
  lemma {:induction false} ReportsAreDeleted(b: seq<Stmt>)
    ensures Tokens(Prune(b)) + multiset(Reports(b)) <= Tokens(b)
    decreases b
  {
    if b == [] {
    } else if IsTerminator(b[0]) {
      var rest := b[1..];
      if rest != [] && TokenOf(rest[0]).line > 0 {
        assert TokenOf(rest[0]) in TokensStmt(rest[0]);
      }
    } else {
      ReportsStmtAreDeleted(b[0]);
      ReportsAreDeleted(b[1..]);
      assert Prune(b)[1..] == Prune(b[1..]);
    }
  }

  /** There is room for the kept and the reported positions side by side. */
  ghost predicate Covers(all: multiset<Token>, kept: multiset<Token>, reported: seq<Token>) {
    kept + multiset(reported) <= all
  }

  lemma CoversItself(all: multiset<Token>)
    ensures Covers(all, all, [])
  {
  }

  lemma {:induction false} ReportsStmtAreDeleted(s: Stmt)
    ensures Covers(TokensStmt(s), TokensStmt(PruneStmt(s)), ReportsStmt(s))
    decreases s
  {
    hide Tokens, Reports, Prune, TokensCases, ReportsCases, PruneCases, Covers;
    match s
    case If(t, _, body, NoElse) =>
      ReportsAreDeleted(body);
      AddOne(t, Tokens(Prune(body)), Reports(body), Tokens(body));
    case If(t, _, body, Else(e)) =>
      ReportsAreDeleted(body);
      ReportsAreDeleted(e);
      AddUp(t, Tokens(Prune(body)), Reports(body), Tokens(body), Tokens(Prune(e)), Reports(e), Tokens(e));
    case For(t, _, body) =>
      ReportsAreDeleted(body);
      AddOne(t, Tokens(Prune(body)), Reports(body), Tokens(body));
    case TryCatch(t, x, y) =>
      ReportsAreDeleted(x);
      ReportsAreDeleted(y);
      AddUp(t, Tokens(Prune(x)), Reports(x), Tokens(x), Tokens(Prune(y)), Reports(y), Tokens(y));
    case Match(t, cases) =>
      ReportsCasesAreDeleted(cases);
      AddOne(t, TokensCases(PruneCases(cases)), ReportsCases(cases), TokensCases(cases));
    case _ =>
      CoversItself(TokensStmt(s));
  }

  lemma AddOne(t: Token, kept: multiset<Token>, reported: seq<Token>, all: multiset<Token>)
    requires kept + multiset(reported) <= all
    ensures Covers(multiset{t} + all, multiset{t} + kept, reported)
  {
  }

  lemma AddUp(t: Token, kept1: multiset<Token>, reported1: seq<Token>, all1: multiset<Token>,
              kept2: multiset<Token>, reported2: seq<Token>, all2: multiset<Token>)
    requires kept1 + multiset(reported1) <= all1 && kept2 + multiset(reported2) <= all2
    ensures Covers(multiset{t} + all1 + all2, multiset{t} + kept1 + kept2, reported1 + reported2)
  {
  }

  lemma {:induction false} ReportsCasesAreDeleted(cases: seq<Case>)
    ensures TokensCases(PruneCases(cases)) + multiset(ReportsCases(cases)) <= TokensCases(cases)
    decreases cases
  {
    if cases != [] {
      ReportsAreDeleted(cases[0].body);
      ReportsCasesAreDeleted(cases[1..]);
      assert PruneCases(cases)[1..] == PruneCases(cases[1..]);
    }
  }

  /** No execution, finished or not, ever touches a statement that was reported unreachable, when no
      other statement has its position. */
  lemma ReportedNeverRuns(b: seq<Stmt>, t: Token, tr: Trace, o: Outcome)
    requires t in Reports(b) && Tokens(b)[t] <= 1
    requires Runs(b, tr, o)
    ensures !Mentions(tr, t)
  {
    PrunePreservesExecutions(b);
    ReportsAreDeleted(b);
    assert multiset(Reports(b))[t] >= 1;
    assert t !in Tokens(Prune(b));
    if Mentions(tr, t) {
      EventsComeFromBlock(Prune(b), tr, o, t);
    }
  }

  // ---------------------------------------------------------------- silence means nothing to delete

  /** Every statement the analysis looks at has a known position. */
  ghost predicate Positioned(b: seq<Stmt>)
    decreases b
  {
    forall k :: 0 <= k < |b| ==> TokenOf(b[k]).line > 0 && PositionedStmt(b[k])
  }

  ghost predicate PositionedStmt(s: Stmt)
    decreases s
  {
    match s
    case If(_, _, body, NoElse) => Positioned(body)
    case If(_, _, body, Else(b)) => Positioned(body) && Positioned(b)
    case For(_, _, body) => Positioned(body)
    case TryCatch(_, x, y) => Positioned(x) && Positioned(y)
    case Match(_, cases) => forall k :: 0 <= k < |cases| ==> Positioned(cases[k].body)
    case _ => true
  }

  /** Nothing is reported of a pruned block. */
  lemma {:induction false} PrunedIsSilent(b: seq<Stmt>)
    ensures Reports(Prune(b)) == []
    decreases b
  {
    if b != [] {
      if IsTerminator(b[0]) {
        assert [b[0]][1..] == [];
      } else {
        PrunedStmtIsSilent(b[0]);
        PrunedIsSilent(b[1..]);
        assert Prune(b)[0] == PruneStmt(b[0]) && Prune(b)[1..] == Prune(b[1..]);
      }
    }
  }

  lemma {:induction false} PrunedStmtIsSilent(s: Stmt)
    ensures ReportsStmt(PruneStmt(s)) == []
    decreases s
  {
    match s
    case If(_, _, body, orElse) =>
      PrunedIsSilent(body);
      if orElse.Else? { PrunedIsSilent(orElse.stmts); }
    case For(_, _, body) => PrunedIsSilent(body);
    case TryCatch(_, x, y) =>
      PrunedIsSilent(x);
      PrunedIsSilent(y);
    case Match(_, cases) => PrunedCasesAreSilent(cases);
    case _ =>
  }

  lemma {:induction false} PrunedCasesAreSilent(cases: seq<Case>)
    ensures ReportsCases(PruneCases(cases)) == []
    decreases cases
  {
    if cases != [] {
      PrunedIsSilent(cases[0].body);
      PrunedCasesAreSilent(cases[1..]);
      assert PruneCases(cases)[1..] == PruneCases(cases[1..]);
    }
  }

  /** On positioned code the analysis is silent exactly when there is nothing to delete. */
  lemma {:induction false} SilentIffNothingDeleted(b: seq<Stmt>)
    requires Positioned(b)
    ensures Reports(b) == [] <==> Prune(b) == b
    decreases b
  {
    if b == [] {
    } else if IsTerminator(b[0]) {
      if |b| == 1 { assert b == [b[0]]; } else { assert b[1..][0] == b[1]; }
    } else {
      SilentStmt(b[0]);
      SilentIffNothingDeleted(b[1..]);
      assert b == [b[0]] + b[1..];
      assert Prune(b) == b <==> PruneStmt(b[0]) == b[0] && Prune(b[1..]) == b[1..] by {
        assert Prune(b)[0] == PruneStmt(b[0]) && Prune(b)[1..] == Prune(b[1..]);
      }
    }
  }

  lemma {:induction false} SilentStmt(s: Stmt)
    requires PositionedStmt(s)
    ensures ReportsStmt(s) == [] <==> PruneStmt(s) == s
    decreases s
  {
    match s
    case If(_, _, body, orElse) =>
      SilentIffNothingDeleted(body);
      if orElse.Else? {
        SilentIffNothingDeleted(orElse.stmts);
      }
    case For(_, _, body) => SilentIffNothingDeleted(body);
    case TryCatch(_, x, y) =>
      SilentIffNothingDeleted(x);
      SilentIffNothingDeleted(y);
    case Match(_, cases) => SilentCases(cases);
    case _ =>
  }

  lemma ConsEqual<T>(x: T, xs: seq<T>, y: T, ys: seq<T>)
    ensures [x] + xs == [y] + ys <==> x == y && xs == ys
  {
    if [x] + xs == [y] + ys {
      assert ([x] + xs)[0] == x && ([y] + ys)[0] == y;
      assert ([x] + xs)[1..] == xs && ([y] + ys)[1..] == ys;
    }
  }

  lemma {:induction false} SilentCases(cases: seq<Case>)
    requires forall k :: 0 <= k < |cases| ==> Positioned(cases[k].body)
    ensures ReportsCases(cases) == [] <==> PruneCases(cases) == cases
    decreases cases
  {
    if cases != [] {
      var c, rest := cases[0], cases[1..];
      SilentIffNothingDeleted(c.body);
      SilentCases(rest);
      var pc := Case(c.isDefault, Prune(c.body));
      assert PruneCases(cases) == [pc] + PruneCases(rest);
      ConsEqual(pc, PruneCases(rest), c, rest);
      assert cases == [c] + rest;
    }
  }
}
