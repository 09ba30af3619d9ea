/** The missing-return check: when its "yes" means that no execution falls off the end. */
module MissingReturn {
  import opened FlowAst

  /** The answer of the check on a block. */
  predicate HasReturn(b: seq<Stmt>)
    decreases b
  {
    b != [] &&
    match b[|b| - 1]
    case Return(_) => true
    case If(_, _, _, NoElse) => false
    case If(_, _, body, Else(e)) => HasReturn(body) && HasReturn(e)
    case Match(_, cases) =>
      HasDefault(cases) && forall k :: 0 <= k < |cases| ==> HasReturn(cases[k].body)
    case _ => exists k :: 0 <= k < |b| && b[k].Return?
  }

  method BlockHasReturn(block: seq<Stmt>) returns (r: bool)
    ensures r == HasReturn(block)
    decreases block
  {
    if |block| == 0 {
      return false;
    }
    match block[|block| - 1] {
      case Return(_) =>
        return true;
      case If(_, _, body, orElse) =>
        if orElse.NoElse? {
          return false;
        }
        r := BlockHasReturn(body);
        if r {
          r := BlockHasReturn(orElse.stmts);
        }
        return;
      case Match(_, cases) =>
        var hasDefault := false;
        for j := 0 to |cases|
          invariant hasDefault <==> exists k :: 0 <= k < j && cases[k].isDefault
          invariant forall k :: 0 <= k < j ==> HasReturn(cases[k].body)
        {
          if cases[j].isDefault {
            hasDefault := true;
          }
          var ok := BlockHasReturn(cases[j].body);
          if !ok {
            return false;
          }
        }
        return hasDefault;
      case _ =>
        for i := 0 to |block|
          invariant forall k :: 0 <= k < i ==> !block[k].Return?
        {
          if block[i].Return? {
            return true;
          }
        }
        return false;
    }
  }

  // ---------------------------------------------------------------- when the check says yes

  /** The blocks a block goes on in, when its last statement is an `if` with else part or a match. */
  ghost function TailBlocks(b: seq<Stmt>): seq<seq<Stmt>> {
    if b == [] then []
    else
      match b[|b| - 1]
      case If(_, _, body, Else(e)) => [body, e]
      case Match(_, cases) => seq(|cases|, k requires 0 <= k < |cases| => cases[k].body)
      case _ => []
  }

  /** A chain of blocks from `b`, each one of those the block before it goes on in. */
  ghost predicate TailChain(chain: seq<seq<Stmt>>, b: seq<Stmt>) {
    && chain != [] && chain[0] == b
    && forall i :: 0 <= i < |chain| - 1 ==> chain[i + 1] in TailBlocks(chain[i])
  }

  /** A block that lets the check down: an empty one, an `if` without else part or a match without
      default at its end, or no `return` where it does not go on. */
  ghost predicate LetsDown(b: seq<Stmt>) {
    || b == []
    || match b[|b| - 1]
       case If(_, _, _, orElse) => orElse.NoElse?
       case Match(_, cases) => !HasDefault(cases)
       case _ => forall k :: 0 <= k < |b| ==> !b[k].Return?
  }

  /** The check says yes if and only if no chain of tail blocks leads to one that lets it down. */
  lemma SaysYesIff(b: seq<Stmt>)
    ensures HasReturn(b) <==> forall chain :: TailChain(chain, b) ==> !LetsDown(chain[|chain| - 1])
  {
    hide HasReturn, LetsDown;
    if HasReturn(b) {
      forall chain | TailChain(chain, b)
        ensures !LetsDown(chain[|chain| - 1])
      {
        YesDownTheTail(chain, b);
      }
    } else {
      var chain := LetDownBy(b);
    }
  }

  lemma {:induction false} YesDownTheTail(chain: seq<seq<Stmt>>, b: seq<Stmt>)
    requires HasReturn(b) && TailChain(chain, b)
    ensures !LetsDown(chain[|chain| - 1])
    decreases |chain|
  {
    if |chain| > 1 {
      var c := chain[1];
      assert c in TailBlocks(chain[0]);
      var k :| 0 <= k < |TailBlocks(b)| && TailBlocks(b)[k] == c;
      assert HasReturn(c);
      assert forall i :: 0 <= i < |chain| - 2 ==> chain[1..][i + 1] in TailBlocks(chain[1..][i]);
      YesDownTheTail(chain[1..], c);
    }
  }

  lemma {:induction false} LetDownBy(b: seq<Stmt>) returns (chain: seq<seq<Stmt>>)
    requires !HasReturn(b)
    ensures TailChain(chain, b) && LetsDown(chain[|chain| - 1])
    decreases b
  {
    if LetsDown(b) {
      return [b];
    }
    match b[|b| - 1]
    case If(_, _, body, Else(e)) =>
      if !HasReturn(body) {
        var rest := LetDownBy(body);
        chain := Longer(b, rest, body);
      } else {
        var rest := LetDownBy(e);
        chain := Longer(b, rest, e);
      }
    case Match(_, cases) =>
      var k :| 0 <= k < |cases| && !HasReturn(cases[k].body);
      var rest := LetDownBy(cases[k].body);
      assert TailBlocks(b)[k] == cases[k].body;
      chain := Longer(b, rest, cases[k].body);
  }

  lemma Longer(b: seq<Stmt>, rest: seq<seq<Stmt>>, c: seq<Stmt>) returns (chain: seq<seq<Stmt>>)
    requires TailChain(rest, c) && c in TailBlocks(b)
    ensures TailChain(chain, b) && chain[|chain| - 1] == rest[|rest| - 1]
  {
    chain := [b] + rest;
  }

  // ---------------------------------------------------------------- the exact set of outcomes

  /** The ways a block can end, computed from its text. */
  function Outcomes(b: seq<Stmt>): set<Outcome>
    decreases b
  {
    if b == [] then {Normal}
    else Then(OutcomesStmt(b[0]), Outcomes(b[1..]))
  }

  function Then(first: set<Outcome>, second: set<Outcome>): set<Outcome> {
    if Normal in first then (first - {Normal}) + second else first
  }

  function OutcomesStmt(s: Stmt): set<Outcome>
    decreases s
  {
    match s
    case Simple(_) => {Normal, Threw}
    case Return(_) => {Returned, Threw}
    case Break(_) => {Broke}
    case Continue(_) => {Continued}
    case If(_, Literal(v), body, NoElse) => if v then Outcomes(body) else {Normal}
    case If(_, Literal(v), body, Else(e)) => if v then Outcomes(body) else Outcomes(e)
    case If(_, Dynamic, body, NoElse) => {Threw, Normal} + Outcomes(body)
    case If(_, Dynamic, body, Else(e)) => {Threw} + Outcomes(body) + Outcomes(e)
    case For(_, c, body) =>
      var inner := if c == Literal(false) then {} else Outcomes(body);
      (inner * {Returned, Threw})
      + (if c.Dynamic? then {Threw} else {})
      + (if c != Literal(true) || Broke in inner then {Normal} else {})
    case TryCatch(_, x, y) =>
      if Threw in Outcomes(x) then (Outcomes(x) - {Threw}) + Outcomes(y) else Outcomes(x)
    case Match(_, cases) =>
      {Threw} + OutcomesCases(cases) + if HasDefault(cases) then {} else {Normal}
    case Block(inner) => Outcomes(inner)
  }

  function OutcomesCases(cases: seq<Case>): set<Outcome>
    decreases cases
  {
    if cases == [] then {} else ArmOutcomes(Outcomes(cases[0].body)) + OutcomesCases(cases[1..])
  }

  /** A `break` in an arm ends the match normally. */
  function ArmOutcomes(body: set<Outcome>): set<Outcome> {
    (body - {Broke}) + if Broke in body then {Normal} else {}
  }

  lemma {:induction false} OutcomesOfCase(cases: seq<Case>, o: Outcome)
    ensures o in OutcomesCases(cases) <==>
            exists k :: 0 <= k < |cases| && o in ArmOutcomes(Outcomes(cases[k].body))
    decreases cases
  {
    if cases != [] {
      OutcomesOfCase(cases[1..], o);
      if k :| 0 <= k < |cases| && o in ArmOutcomes(Outcomes(cases[k].body)) {
        if k > 0 { assert cases[1..][k - 1] == cases[k]; }
      }
      if k :| 0 <= k < |cases[1..]| && o in ArmOutcomes(Outcomes(cases[1..][k].body)) {
        assert cases[k + 1] == cases[1..][k];
      }
    }
  }

  /** Every outcome an execution has is in the computed set. */
  lemma {:induction false} OutcomesAreComplete(b: seq<Stmt>, tr: Trace, o: Outcome)
    requires Runs(b, tr, o) && o != Cut
    ensures o in Outcomes(b)
    decreases b, 0
  {
    if b != [] {
      if o != Normal && RunsStmt(b[0], tr, o) {
        OutcomesStmtComplete(b[0], tr, o);
      } else {
        var i :| 0 <= i <= |tr| && RunsStmt(b[0], tr[..i], Normal) && Runs(b[1..], tr[i..], o);
        OutcomesStmtComplete(b[0], tr[..i], Normal);
        OutcomesAreComplete(b[1..], tr[i..], o);
      }
    }
  }

  lemma {:induction false} OutcomesStmtComplete(s: Stmt, tr: Trace, o: Outcome)
    requires RunsStmt(s, tr, o) && o != Cut
    ensures o in OutcomesStmt(s)
    decreases s, 0
  {
    match s
    case If(t, c, body, orElse) =>
      if c.Literal? {
        if c.value {
          OutcomesAreComplete(body, tr, o);
        } else if orElse.Else? {
          OutcomesAreComplete(orElse.stmts, tr, o);
        }
      } else if tr != [] && tr[0] == Chose(t, 1) && Runs(body, tr[1..], o) {
        OutcomesAreComplete(body, tr[1..], o);
      } else if tr != [] && tr[0] == Chose(t, 0) && orElse.Else? {
        OutcomesAreComplete(orElse.stmts, tr[1..], o);
      }
    case For(t, c, body) =>
      var k :| IsCount(k) && RunsLoop(t, c, body, k, tr, o);
      OutcomesLoopComplete(t, c, body, k, tr, o);
    case TryCatch(_, x, y) =>
      if o != Threw && Runs(x, tr, o) {
        OutcomesAreComplete(x, tr, o);
      } else {
        var i :| 0 <= i <= |tr| && Runs(x, tr[..i], Threw) && Runs(y, tr[i..], o);
        OutcomesAreComplete(x, tr[..i], Threw);
        OutcomesAreComplete(y, tr[i..], o);
      }
    case Match(t, cases) =>
      if k :| 0 <= k < |cases| && tr != [] && tr[0] == Chose(t, k) && RunsCase(cases[k], tr[1..], o) {
        OutcomesAreComplete(cases[k].body, tr[1..],
                            if o != Broke && Runs(cases[k].body, tr[1..], o) then o else Broke);
        OutcomesOfCase(cases, o);
      }
    case Block(inner) => OutcomesAreComplete(inner, tr, o);
    case _ =>
  }

  lemma {:induction false} OutcomesLoopComplete(t: Token, c: Cond, body: seq<Stmt>, k: nat, tr: Trace, o: Outcome)
    requires RunsLoop(t, c, body, k, tr, o) && o != Cut
    ensures o in OutcomesStmt(For(t, c, body))
    decreases body, 1, k
  {
    if k != 0 {
      if o == Normal && Runs(body, tr[1..], Broke) {
        OutcomesAreComplete(body, tr[1..], Broke);
      } else if (o == Returned || o == Threw) && Runs(body, tr[1..], o) {
        OutcomesAreComplete(body, tr[1..], o);
      } else {
        var i :| 1 <= i <= |tr| && Finishes(body, tr[1..i]) && RunsLoop(t, c, body, k - 1, tr[i..], o);
        OutcomesLoopComplete(t, c, body, k - 1, tr[i..], o);
      }
    }
  }

  /** Every computed outcome is that of some execution. */
  lemma {:induction false} OutcomesAreRealised(b: seq<Stmt>, o: Outcome) returns (tr: Trace)
    requires o in Outcomes(b)
    ensures o != Cut && Runs(b, tr, o)
    decreases b, 0
  {
    if b == [] {
      return [];
    }
    if o in OutcomesStmt(b[0]) && o != Normal {
      tr := OutcomesStmtRealised(b[0], o);
    } else {
      var first := OutcomesStmtRealised(b[0], Normal);
      var rest := OutcomesAreRealised(b[1..], o);
      tr := first + rest;
      assert tr[..|first|] == first && tr[|first|..] == rest;
    }
  }

  lemma {:induction false} OutcomesStmtRealised(s: Stmt, o: Outcome) returns (tr: Trace)
    requires o in OutcomesStmt(s)
    ensures o != Cut && RunsStmt(s, tr, o)
    decreases s, 0
  {
    match s
    case If(t, c, body, orElse) =>
      if c.Literal? {
        if c.value {
          tr := OutcomesAreRealised(body, o);
        } else if orElse.Else? {
          tr := OutcomesAreRealised(orElse.stmts, o);
        } else {
          tr := [];
        }
      } else if o == Threw {
        tr := [Ran(t)];
      } else if o in Outcomes(body) {
        var rest := OutcomesAreRealised(body, o);
        tr := [Chose(t, 1)] + rest;
        assert tr[1..] == rest;
      } else {
        var rest := [];
        if orElse.Else? { rest := OutcomesAreRealised(orElse.stmts, o); }
        tr := [Chose(t, 0)] + rest;
        assert tr[1..] == rest;
      }
    case For(t, c, body) =>
      tr := OutcomesLoopRealised(t, c, body, o);
    case TryCatch(_, x, y) =>
      if o != Threw && o in Outcomes(x) {
        tr := OutcomesAreRealised(x, o);
      } else {
        var first := OutcomesAreRealised(x, Threw);
        var rest := OutcomesAreRealised(y, o);
        tr := first + rest;
        assert tr[..|first|] == first && tr[|first|..] == rest;
      }
    case Match(t, cases) =>
      if o == Threw {
        tr := [Ran(t)];
      } else if o in OutcomesCases(cases) {
        OutcomesOfCase(cases, o);
        var k :| 0 <= k < |cases| && o in ArmOutcomes(Outcomes(cases[k].body));
        var rest := OutcomesAreRealised(cases[k].body, if o in Outcomes(cases[k].body) && o != Broke then o else Broke);
        tr := [Chose(t, k)] + rest;
        assert tr[1..] == rest && RunsCase(cases[k], rest, o);
      } else {
        tr := [Chose(t, -1)];
      }
    case Block(inner) => tr := OutcomesAreRealised(inner, o);
    case Break(t) => tr := [Ran(t)];
    case Continue(t) => tr := [Ran(t)];
    case Return(t) => tr := [Ran(t)];
    case Simple(t) => tr := [Ran(t)];
  }

  lemma {:induction false} OutcomesLoopRealised(t: Token, c: Cond, body: seq<Stmt>, o: Outcome) returns (tr: Trace)
    requires o in OutcomesStmt(For(t, c, body))
    ensures o != Cut && RunsStmt(For(t, c, body), tr, o)
    decreases body, 1
  {
    if o == Normal && c != Literal(true) {
      tr := [Chose(t, 0)];
      assert IsCount(0) && RunsLoop(t, c, body, 0, tr, o);
    } else if o == Threw && c.Dynamic? {
      tr := [Ran(t)];
      assert IsCount(0) && RunsLoop(t, c, body, 0, tr, o);
    } else {
      var rest := OutcomesAreRealised(body, if o == Normal then Broke else o);
      tr := [Chose(t, 1)] + rest;
      assert tr[1..] == rest;
      assert IsCount(1) && RunsLoop(t, c, body, 1, tr, o);
    }
  }

  /** The computed outcomes are exactly the possible ones. */
  lemma OutcomesAreExact(b: seq<Stmt>, o: Outcome)
    requires o != Cut
    ensures o in Outcomes(b) <==> exists tr :: Runs(b, tr, o)
  {
    if o in Outcomes(b) {
      var tr := OutcomesAreRealised(b, o);
      assert Runs(b, tr, o);
    }
    forall tr | Runs(b, tr, o)
      ensures o in Outcomes(b)
    {
      OutcomesAreComplete(b, tr, o);
    }
  }

  // ---------------------------------------------------------------- what "has a return" is worth

  /** A reachable `break` leaves a match in tail position: the one thing the check overlooks. */
  predicate BreaksOutOfTailMatch(b: seq<Stmt>)
    decreases b
  {
    b != [] && Normal in Outcomes(b[..|b| - 1]) &&
    match b[|b| - 1]
    case If(_, c, body, Else(e)) =>
      || (c != Literal(false) && BreaksOutOfTailMatch(body))
      || (c != Literal(true) && BreaksOutOfTailMatch(e))
    case Match(_, cases) =>
      exists k :: 0 <= k < |cases| &&
                  (Broke in Outcomes(cases[k].body) || BreaksOutOfTailMatch(cases[k].body))
    case _ => false
  }

  lemma {:induction false} OutcomesOfConcat(p: seq<Stmt>, q: seq<Stmt>)
    ensures Outcomes(p + q) == Then(Outcomes(p), Outcomes(q))
  {
    if p == [] {
      assert p + q == q;
    } else {
      assert (p + q)[1..] == p[1..] + q;
      OutcomesOfConcat(p[1..], q);
    }
  }

  lemma {:induction false} EarlierReturnCutsOff(b: seq<Stmt>, k: nat)
    requires k < |b| && b[k].Return?
    ensures Normal !in Outcomes(b)
  {
    if k != 0 {
      EarlierReturnCutsOff(b[1..], k - 1);
    }
  }

  lemma {:induction false} FallsOffIffBreaksOut(b: seq<Stmt>)
    requires HasReturn(b)
    ensures Normal in Outcomes(b) <==> BreaksOutOfTailMatch(b)
    decreases b
  {
    var n := |b| - 1;
    var last := b[n];
    assert b == b[..n] + [last];
    OutcomesOfConcat(b[..n], [last]);
    assert Outcomes([last]) == Then(OutcomesStmt(last), {Normal});
    match last {
      case Return(_) =>
      case If(_, c, body, orElse) =>
        FallsOffIffBreaksOut(body);
        FallsOffIffBreaksOut(orElse.stmts);
      case Match(_, cases) =>
        OutcomesOfCase(cases, Normal);
        forall k | 0 <= k < |cases|
          ensures Normal in ArmOutcomes(Outcomes(cases[k].body)) <==>
                  Broke in Outcomes(cases[k].body) || BreaksOutOfTailMatch(cases[k].body)
        {
          FallsOffIffBreaksOut(cases[k].body);
        }
      case _ =>
        var k :| 0 <= k < |b| && b[k].Return?;
        EarlierReturnCutsOff(b, k);
    }
  }

  /** When the check says yes, some execution still falls off the end exactly if a reachable
      `break` leaves a match in tail position. */
  lemma ReturnCheckExactness(b: seq<Stmt>)
    requires HasReturn(b)
    ensures (exists tr :: Runs(b, tr, Normal)) <==> BreaksOutOfTailMatch(b)
  {
    FallsOffIffBreaksOut(b);
    OutcomesAreExact(b, Normal);
  }

  /** The end of the block is built of dynamic `if`s, matches, simple statements and returns, and what
      stands before it in the same block can be run through. */
  predicate TidyTail(b: seq<Stmt>)
    decreases b
  {
    b == [] ||
    var before := b[..|b| - 1];
    match b[|b| - 1]
    case If(_, c, body, NoElse) => c.Dynamic? && Normal in Outcomes(before)
    case If(_, c, body, Else(e)) => c.Dynamic? && Normal in Outcomes(before) && TidyTail(body) && TidyTail(e)
    case Match(_, cases) =>
      Normal in Outcomes(before) && forall k :: 0 <= k < |cases| ==> TidyTail(cases[k].body)
    case Simple(_) => Normal in Outcomes(before) || exists k :: 0 <= k < |before| && before[k].Return?
    case Return(_) => true
    case _ => false
  }

  /** On such blocks the check is complete: what never falls off its end is accepted. */
  lemma TidyIsAccepted(b: seq<Stmt>)
    requires TidyTail(b) && !exists tr :: Runs(b, tr, Normal)
    ensures HasReturn(b)
  {
    OutcomesAreExact(b, Normal);
    TidyNeedsReturn(b);
  }

  lemma {:induction false} TidyNeedsReturn(b: seq<Stmt>)
    requires TidyTail(b) && Normal !in Outcomes(b)
    ensures HasReturn(b)
    decreases b
  {
    if b != [] {
      var n := |b| - 1;
      var last := b[n];
      assert b == b[..n] + [last];
      OutcomesOfConcat(b[..n], [last]);
      assert Outcomes([last]) == Then(OutcomesStmt(last), {Normal});
      match last {
        case If(_, _, body, Else(e)) =>
          TidyNeedsReturn(body);
          TidyNeedsReturn(e);
        case Match(_, cases) =>
          OutcomesOfCase(cases, Normal);
          forall k | 0 <= k < |cases|
            ensures HasReturn(cases[k].body)
          {
            assert Normal !in ArmOutcomes(Outcomes(cases[k].body));
            TidyNeedsReturn(cases[k].body);
          }
        case Simple(_) =>
          var k :| 0 <= k < n && b[..n][k].Return?;
          assert b[k].Return?;
        case _ =>
      }
    }
  }

  /** `fn f() -> int { match x { _ => { if c { break } return 1 } } }` passes the check and can
      fall off its end. */
  lemma ReturnCheckIsFooled() returns (b: seq<Stmt>, tr: Trace)
    ensures HasReturn(b) && Runs(b, tr, Normal)
  {
    var inner := [Break(Token(3, 9))];
    var branch := If(Token(3, 5), Dynamic, inner, NoElse);
    var arm := [branch, Return(Token(4, 5))];
    b := [Match(Token(1, 1), [Case(true, arm)])];
    assert HasReturn(arm);
    assert HasDefault([Case(true, arm)]) by { assert [Case(true, arm)][0].isDefault; }
    assert Broke in OutcomesStmt(branch) by { assert Outcomes(inner) == {Broke}; }
    assert Broke in Outcomes(arm);
    assert Normal in OutcomesCases([Case(true, arm)]);
    assert Normal in Outcomes(b);
    tr := OutcomesAreRealised(b, Normal);
  }

  // ---------------------------------------------------------------- whole function bodies

  /** `break` only inside a loop or a match, `continue` only inside a loop. */
  predicate Scoped(b: seq<Stmt>, inLoop: bool, inMatch: bool)
    decreases b
  {
    forall k :: 0 <= k < |b| ==> ScopedStmt(b[k], inLoop, inMatch)
  }

  predicate ScopedStmt(s: Stmt, inLoop: bool, inMatch: bool)
    decreases s
  {
    match s
    case Break(_) => inLoop || inMatch
    case Continue(_) => inLoop
    case If(_, _, body, NoElse) => Scoped(body, inLoop, inMatch)
    case If(_, _, body, Else(e)) => Scoped(body, inLoop, inMatch) && Scoped(e, inLoop, inMatch)
    case For(_, _, body) => Scoped(body, true, inMatch)
    case TryCatch(_, x, y) => Scoped(x, inLoop, inMatch) && Scoped(y, inLoop, inMatch)
    case Match(_, cases) => forall k :: 0 <= k < |cases| ==> Scoped(cases[k].body, inLoop, true)
    case Block(inner) => Scoped(inner, inLoop, inMatch)
    case _ => true
  }

  lemma {:induction false} ScopedOutcomes(b: seq<Stmt>, inLoop: bool, inMatch: bool)
    requires Scoped(b, inLoop, inMatch)
    ensures Broke in Outcomes(b) ==> inLoop || inMatch
    ensures Continued in Outcomes(b) ==> inLoop
    decreases b
  {
    if b != [] {
      ScopedOutcomesStmt(b[0], inLoop, inMatch);
      ScopedOutcomes(b[1..], inLoop, inMatch);
    }
  }

  lemma {:induction false} ScopedOutcomesStmt(s: Stmt, inLoop: bool, inMatch: bool)
    requires ScopedStmt(s, inLoop, inMatch)
    ensures Broke in OutcomesStmt(s) ==> inLoop || inMatch
    ensures Continued in OutcomesStmt(s) ==> inLoop
    decreases s
  {
    match s
    case If(_, _, body, orElse) =>
      ScopedOutcomes(body, inLoop, inMatch);
      if orElse.Else? { ScopedOutcomes(orElse.stmts, inLoop, inMatch); }
    case TryCatch(_, x, y) =>
      ScopedOutcomes(x, inLoop, inMatch);
      ScopedOutcomes(y, inLoop, inMatch);
    case Match(_, cases) =>
      OutcomesOfCase(cases, Broke);
      OutcomesOfCase(cases, Continued);
      forall k | 0 <= k < |cases|
        ensures Broke !in ArmOutcomes(Outcomes(cases[k].body))
        ensures Continued in ArmOutcomes(Outcomes(cases[k].body)) ==> inLoop
      {
        ScopedOutcomes(cases[k].body, inLoop, true);
      }
    case Block(inner) => ScopedOutcomes(inner, inLoop, inMatch);
    case _ =>
  }

  /** A function body that passes the check and has no overlooked `break` can only return,
      throw, or still be running. */
  lemma FunctionBodyReturns(b: seq<Stmt>, tr: Trace, o: Outcome)
    requires HasReturn(b) && Scoped(b, false, false) && !BreaksOutOfTailMatch(b)
    requires Runs(b, tr, o)
    ensures o == Returned || o == Threw || o == Cut
  {
    if o != Cut {
      OutcomesAreComplete(b, tr, o);
      FallsOffIffBreaksOut(b);
      ScopedOutcomes(b, false, false);
    }
  }

  /** `break` and `continue` only inside loops; a match does not admit them. */
  predicate OnlyInLoops(b: seq<Stmt>)
    decreases b
  {
    forall k :: 0 <= k < |b| ==> OnlyInLoopsStmt(b[k])
  }

  predicate OnlyInLoopsStmt(s: Stmt)
    decreases s
  {
    match s
    case Break(_) => false
    case Continue(_) => false
    case If(_, _, body, NoElse) => OnlyInLoops(body)
    case If(_, _, body, Else(e)) => OnlyInLoops(body) && OnlyInLoops(e)
    case For(_, _, _) => true
    case TryCatch(_, x, y) => OnlyInLoops(x) && OnlyInLoops(y)
    case Match(_, cases) => forall k :: 0 <= k < |cases| ==> OnlyInLoops(cases[k].body)
    case Block(inner) => OnlyInLoops(inner)
    case _ => true
  }

  lemma {:induction false} LoopsKeepThem(b: seq<Stmt>)
    requires OnlyInLoops(b)
    ensures Broke !in Outcomes(b) && Continued !in Outcomes(b)
    decreases b
  {
    if b != [] {
      LoopsKeepThemStmt(b[0]);
      LoopsKeepThem(b[1..]);
    }
  }

  lemma {:induction false} LoopsKeepThemStmt(s: Stmt)
    requires OnlyInLoopsStmt(s)
    ensures Broke !in OutcomesStmt(s) && Continued !in OutcomesStmt(s)
    decreases s
  {
    match s
    case If(_, _, body, orElse) =>
      LoopsKeepThem(body);
      if orElse.Else? { LoopsKeepThem(orElse.stmts); }
    case TryCatch(_, x, y) =>
      LoopsKeepThem(x);
      LoopsKeepThem(y);
    case Match(_, cases) =>
      OutcomesOfCase(cases, Broke);
      OutcomesOfCase(cases, Continued);
      forall k | 0 <= k < |cases|
        ensures Continued !in ArmOutcomes(Outcomes(cases[k].body))
      {
        LoopsKeepThem(cases[k].body);
      }
    case Block(inner) => LoopsKeepThem(inner);
    case _ =>
  }

  lemma {:induction false} NoTailBreak(b: seq<Stmt>)
    requires OnlyInLoops(b)
    ensures !BreaksOutOfTailMatch(b)
    decreases b
  {
    if b != [] {
      match b[|b| - 1]
      case If(_, _, body, Else(e)) =>
        assert OnlyInLoopsStmt(b[|b| - 1]);
        NoTailBreak(body);
        NoTailBreak(e);
      case Match(_, cases) =>
        assert OnlyInLoopsStmt(b[|b| - 1]);
        forall k | 0 <= k < |cases|
          ensures Broke !in Outcomes(cases[k].body) && !BreaksOutOfTailMatch(cases[k].body)
        {
          LoopsKeepThem(cases[k].body);
          NoTailBreak(cases[k].body);
        }
      case _ =>
    }
  }

  /** With breaks and continues only inside loops the check alone is enough. */
  lemma ReturnCheckSound(b: seq<Stmt>, tr: Trace, o: Outcome)
    requires HasReturn(b) && OnlyInLoops(b)
    requires Runs(b, tr, o)
    ensures o == Returned || o == Threw || o == Cut
  {
    if o != Cut {
      OutcomesAreComplete(b, tr, o);
      NoTailBreak(b);
      FallsOffIffBreaksOut(b);
      LoopsKeepThem(b);
    }
  }
}
