/** The policy compiler: rule lines become a chain of conditionals, the first match decides. */
module Policy {
  import opened Text
  import opened Options

  /** A decoded request. A header that is not there reads as the empty string. */
  datatype Request = Request(verb: string, path: string, headers: map<string, string>)

  function Header(req: Request, name: string): string {
    if name in req.headers then req.headers[name] else ""
  }

  // ---------------------------------------------------------------- rules

  datatype HeaderTest = HeaderTest(name: string, value: string)

  datatype Rule = Rule(action: string, verb: string, path: string, test: Option<HeaderTest>)

  function ToLower(s: string): string {
    seq(|s|, i requires 0 <= i < |s| => if 'A' <= s[i] <= 'Z' then (s[i] as int + 32) as char else s[i])
  }

  function TrimQuotesLeft(s: string): string {
    if s != [] && s[0] == '"' then TrimQuotesLeft(s[1..]) else s
  }

  function TrimQuotesRight(s: string): string {
    if s != [] && s[|s| - 1] == '"' then TrimQuotesRight(s[..|s| - 1]) else s
  }

  function TrimQuotes(s: string): string {
    TrimQuotesRight(TrimQuotesLeft(s))
  }

  const HEADER_PREFIX: string := "header."

  /** The header test of a rule, when its tail is `if header.NAME == VALUE`; any other tail is ignored. */
  function TestOf(parts: seq<string>): Option<HeaderTest> {
    if |parts| >= 6 && parts[3] == "if" && HEADER_PREFIX <= parts[4] && parts[5] == "==" then
      Some(HeaderTest(ToLower(parts[4][|HEADER_PREFIX|..]), TrimQuotes(Join(parts[6..], " "))))
    else None
  }

  /** Blank lines, comments and lines of fewer than three words are no rules. */
  function RuleOf(line: string): Option<Rule> {
    var trimmed := TrimSpace(line);
    var parts := Fields(trimmed);
    if trimmed == "" || "#" <= trimmed || |parts| < 3 then None
    else Some(Rule(parts[0], parts[1], parts[2], TestOf(parts)))
  }

  predicate Applies(rule: Rule, req: Request) {
    && (rule.verb == "*" || rule.verb == req.verb)
    && (rule.path == "*" || rule.path == req.path)
    && (rule.test.Some? ==> Header(req, rule.test.value.name) == rule.test.value.value)
  }

  // ---------------------------------------------------------------- emitted code

  /** The conditions the compiler emits. */
  datatype Expr =
    | True
    | VerbIs(text: string)
    | PathIs(text: string)
    | HeaderIs(name: string, text: string)
    | And(left: Expr, right: Expr)

  /** `if cond { print(action); return }` */
  datatype Clause = Clause(cond: Expr, action: string)

  predicate Eval(e: Expr, req: Request) {
    match e
    case True => true
    case VerbIs(t) => req.verb == t
    case PathIs(t) => req.path == t
    case HeaderIs(n, t) => Header(req, n) == t
    case And(l, r) => Eval(l, req) && Eval(r, req)
  }

  /** Running the emitted program: undecodable input is denied, so is what no clause catches. */
  function RunProgram(clauses: seq<Clause>, input: Option<Request>): string {
    if input.None? || clauses == [] then "deny"
    else if Eval(clauses[0].cond, input.value) then clauses[0].action
    else RunProgram(clauses[1..], input)
  }

  /** The clauses emitted for a list of lines. */
  function Emitted(lines: seq<string>): seq<Clause> {
    if lines == [] then []
    else
      var rule := RuleOf(lines[0]);
      (if rule.Some? then [ClauseOf(rule.value)] else []) + Emitted(lines[1..])
  }

  function ClauseOf(rule: Rule): Clause {
    var verb := if rule.verb == "*" then True else VerbIs(rule.verb);
    var path := if rule.path == "*" then True else PathIs(rule.path);
    var both := And(verb, path);
    var all := if rule.test.Some? then And(both, HeaderIs(rule.test.value.name, rule.test.value.value)) else both;
    Clause(all, rule.action)
  }

  /** The compile loop: what each line emits is appended. */
  method Compile(content: string) returns (rulesCode: seq<Clause>)
    ensures rulesCode == Emitted(Split(content, '\n'))
  {
    hide RuleOf, Split, Emitted, ClauseOf;
    EmittedNothing();
    var lines := Split(content, '\n');
    rulesCode := [];
    for i := 0 to |lines|
      invariant Emitted(lines) == rulesCode + Emitted(lines[i..])
    {
      EmittedStep(lines, i);
      var clause := CompileLine(lines[i]);
      if clause.Some? {
        rulesCode := rulesCode + [clause.value];
      }
    }
    assert lines[|lines|..] == [];
  }

  lemma EmittedNothing()
    ensures Emitted([]) == []
  {
  }

  lemma EmittedStep(lines: seq<string>, i: nat)
    requires i < |lines|
    ensures var rule := RuleOf(lines[i]);
            Emitted(lines[i..]) == (if rule.Some? then [ClauseOf(rule.value)] else []) + Emitted(lines[i + 1..])
  {
    assert lines[i..][1..] == lines[i + 1..];
  }

  method CompileLine(source: string) returns (clause: Option<Clause>)
    ensures clause == if RuleOf(source).Some? then Some(ClauseOf(RuleOf(source).value)) else None
  {
    hide TrimSpace, Fields;
    var line := TrimSpace(source);
    if line == "" || "#" <= line {
      return None;
    }
    var parts := Fields(line);
    if |parts| < 3 {
      return None;
    }
    var action, verb, path := parts[0], parts[1], parts[2];
    var methodCond := VerbIs(verb);
    if verb == "*" {
      methodCond := True;
    }
    var pathCond := PathIs(path);
    if path == "*" {
      pathCond := True;
    }
    var cond := And(methodCond, pathCond);
    if |parts| >= 6 && parts[3] == "if" && HEADER_PREFIX <= parts[4] && parts[5] == "==" {
      var hdrName := ToLower(parts[4][|HEADER_PREFIX|..]);
      var val := TrimQuotes(Join(parts[6..], " "));
      cond := And(cond, HeaderIs(hdrName, val));
    }
    clause := Some(Clause(cond, action));
  }

  // ---------------------------------------------------------------- first match

  ghost predicate Catches(line: string, req: Request) {
    RuleOf(line).Some? && Applies(RuleOf(line).value, req)
  }

  ghost predicate FirstCatch(lines: seq<string>, k: nat, req: Request) {
    k < |lines| && Catches(lines[k], req) && forall j :: 0 <= j < k ==> !Catches(lines[j], req)
  }

  /** The emitted condition means what the rule says. */
  lemma ClauseMeansRule(rule: Rule, req: Request)
    ensures Eval(ClauseOf(rule).cond, req) <==> Applies(rule, req)
  {
    var verb := if rule.verb == "*" then True else VerbIs(rule.verb);
    var path := if rule.path == "*" then True else PathIs(rule.path);
    assert Eval(And(verb, path), req) <==>
           (rule.verb == "*" || rule.verb == req.verb) && (rule.path == "*" || rule.path == req.path);
  }

  /** The first line either decides or can be skipped. */
  lemma FirstLine(lines: seq<string>, req: Request)
    requires lines != []
    ensures RunProgram(Emitted(lines), Some(req)) ==
            if Catches(lines[0], req) then RuleOf(lines[0]).value.action else RunProgram(Emitted(lines[1..]), Some(req))
  {
    hide RuleOf, Eval, Applies;
    var rest := Emitted(lines[1..]);
    if RuleOf(lines[0]).Some? {
      var clause := ClauseOf(RuleOf(lines[0]).value);
      ClauseMeansRule(RuleOf(lines[0]).value, req);
      assert ([clause] + rest)[1..] == rest;
    } else {
      assert [] + rest == rest;
    }
  }

  /** The emitted program prints the action of the first rule line that applies. */
  lemma {:induction false} FirstMatchDecides(lines: seq<string>, k: nat, req: Request)
    requires FirstCatch(lines, k, req)
    ensures RunProgram(Emitted(lines), Some(req)) == RuleOf(lines[k]).value.action
    decreases k
  {
    hide RuleOf, Emitted, RunProgram, Applies;
    FirstLine(lines, req);
    if k > 0 {
      assert forall j :: 0 <= j < |lines| - 1 ==> lines[1..][j] == lines[j + 1];
      FirstMatchDecides(lines[1..], k - 1, req);
    }
  }

  /** And "deny" when no rule line applies. */
  lemma {:induction false} NoMatchDenies(lines: seq<string>, req: Request)
    requires forall k :: 0 <= k < |lines| ==> !Catches(lines[k], req)
    ensures RunProgram(Emitted(lines), Some(req)) == "deny"
  {
    hide RuleOf, Applies;
    if lines != [] {
      FirstLine(lines, req);
      NoMatchDenies(lines[1..], req);
    }
  }

  /** Input that cannot be decoded is denied, whatever the rules are. */
  lemma UndecodableIsDenied(clauses: seq<Clause>)
    ensures RunProgram(clauses, None) == "deny"
  {
  }

  /** Blank lines, comments and lines of fewer than three words change nothing. */
  lemma SkippedLine(before: seq<string>, line: string, after: seq<string>)
    requires TrimSpace(line) == "" || "#" <= TrimSpace(line) || |Fields(TrimSpace(line))| < 3
    ensures Emitted(before + [line] + after) == Emitted(before + after)
  {
    hide TrimSpace, Fields, RuleOf;
    assert RuleOf(line).None? by { NoRule(line); }
    EmittedConcat(before + [line], after);
    EmittedConcat(before, [line]);
    EmittedConcat(before, after);
    assert [line][1..] == [];
  }

  lemma NoRule(line: string)
    requires TrimSpace(line) == "" || "#" <= TrimSpace(line) || |Fields(TrimSpace(line))| < 3
    ensures RuleOf(line).None?
  {
    hide TrimSpace, Fields;
  }

  lemma {:induction false} EmittedConcat(a: seq<string>, b: seq<string>)
    ensures Emitted(a + b) == Emitted(a) + Emitted(b)
  {
    hide RuleOf, ClauseOf;
    if a == [] {
      assert a + b == b;
    } else {
      assert (a + b)[1..] == a[1..] + b;
      EmittedConcat(a[1..], b);
    }
  }

  // ---------------------------------------------------------------- writing rules down

  /** The words a rule is written with; the value is put in quotes. */
  function WordsOf(rule: Rule, value: seq<string>): seq<string> {
    [rule.action, rule.verb, rule.path] +
    if rule.test.Some? then ["if", HEADER_PREFIX + rule.test.value.name, "=="] + Quoted(value) else []
  }

  function Quoted(value: seq<string>): seq<string> {
    if value == [] then ["\"\""]
    else if |value| == 1 then ["\"" + value[0] + "\""]
    else ["\"" + value[0]] + value[1..|value| - 1] + [value[|value| - 1] + "\""]
  }

  /** A rule that can be written on one line: words without spaces, a first word that starts no
      comment, a value of words that neither starts nor ends with a quote. */
  ghost predicate Writable(rule: Rule, value: seq<string>) {
    && IsWord(rule.action) && rule.action[0] != '#' && IsWord(rule.verb) && IsWord(rule.path)
    && (rule.test.Some? ==>
          && (forall c :: c in rule.test.value.name ==> !IsSpace(c))
          && AllWords(value)
          && (value != [] ==>
                var last := value[|value| - 1];
                IsWord(value[0]) && IsWord(last) && value[0][0] != '"' && last[|last| - 1] != '"')
          && rule.test.value.value == Join(value, " "))
  }

  lemma QuotedWords(value: seq<string>)
    requires AllWords(value)
    ensures AllWords(Quoted(value))
  {
    if value != [] {
      assert IsWord(value[0]) && IsWord(value[|value| - 1]);
    }
  }

  lemma JoinHeadPrefix(q: string, w: string, rest: seq<string>)
    ensures Join([q + w] + rest, " ") == q + Join([w] + rest, " ")
  {
    assert ([q + w] + rest)[1..] == rest && ([w] + rest)[1..] == rest;
    if rest != [] {
      assert (q + w) + " " + Join(rest, " ") == q + (w + " " + Join(rest, " "));
    }
  }

  lemma QuotedJoin(value: seq<string>)
    ensures Join(Quoted(value), " ") == "\"" + Join(value, " ") + "\""
  {
    if |value| >= 2 {
      var n := |value| - 1;
      var mid := value[1..n];
      assert value[..n] == [value[0]] + mid && value == value[..n] + [value[n]];
      JoinSnoc(value[..n], value[n], " ");
      JoinSnoc(["\"" + value[0]] + mid, value[n] + "\"", " ");
      JoinHeadPrefix("\"", value[0], mid);
      hide Join;
      assert Join(Quoted(value), " ") == ("\"" + Join(value[..n], " ")) + " " + (value[n] + "\"");
    }
  }

  lemma UnquoteQuoted(v: string)
    requires v == "" || (v[0] != '"' && v[|v| - 1] != '"')
    ensures TrimQuotes("\"" + v + "\"") == v
  {
    var s, t := "\"" + v + "\"", v + "\"";
    assert s[1..] == t;
    assert TrimQuotesLeft(s) == TrimQuotesLeft(t);
    if v == "" {
      assert t == "\"" && t[1..] == [];
      assert TrimQuotesLeft(t) == TrimQuotesLeft(t[1..]) == [];
    } else {
      assert t[0] == v[0] && t[..|v|] == v;
      assert TrimQuotesRight(t) == TrimQuotesRight(v);
    }
  }

  lemma {:induction false} JoinEnds(words: seq<string>)
    requires words != [] && AllWords(words)
    ensures var j := Join(words, " "); var first, last := words[0], words[|words| - 1];
            IsWord(first) && IsWord(last) && j != "" && j[0] == first[0] && j[|j| - 1] == last[|last| - 1]
  {
    assert IsWord(words[0]);
    if |words| > 1 {
      JoinEnds(words[1..]);
    }
  }

  /** The rule with the name of its header in lower case. */
  function Lowered(rule: Rule): Rule {
    if rule.test.None? then rule
    else rule.(test := Some(HeaderTest(ToLower(rule.test.value.name), rule.test.value.value)))
  }

  /** Lower case: every capital letter becomes the small one at the same distance from the first, and
      every other character stays. */
  lemma LowerByLetter(s: string)
    ensures |ToLower(s)| == |s|
    ensures forall i :: 0 <= i < |s| && 'A' <= s[i] <= 'Z' ==>
              'a' <= ToLower(s)[i] <= 'z' && ToLower(s)[i] as int - 'a' as int == s[i] as int - 'A' as int
    ensures forall i :: 0 <= i < |s| && !('A' <= s[i] <= 'Z') ==> ToLower(s)[i] == s[i]
    ensures (forall c :: c in s ==> !('A' <= c <= 'Z')) ==> ToLower(s) == s
  {
    if forall c :: c in s ==> !('A' <= c <= 'Z') {
      LowerStays(s);
    }
  }

  /** A rule written down and compiled is the same rule, with its header name in lower case. */
  lemma RuleRoundTrip(rule: Rule, value: seq<string>)
    requires Writable(rule, value)
    ensures RuleOf(Join(WordsOf(rule, value), " ")) == Some(Lowered(rule))
    ensures rule.test.None? || (forall c :: c in rule.test.value.name ==> !('A' <= c <= 'Z')) ==> Lowered(rule) == rule
  {
    hide Join, Fields, TrimQuotes, Quoted, TrimLeft, TrimRight, ToLower;
    var words := WordsOf(rule, value);
    if rule.test.Some? {
      LowerByLetter(rule.test.value.name);
    }
    if rule.test.Some? {
      QuotedWords(value);
      QuotedJoin(value);
      IfWords(rule.test.value.name);
    }
    assert AllWords(words);
    FieldsJoin(words);
    JoinEnds(words);
    WordsAreTrimmed(words);
    if rule.test.Some? {
      assert words[3] == "if" && words[4] == HEADER_PREFIX + rule.test.value.name && words[5] == "==";
      assert words[6..] == Quoted(value);
      assert words[4][|HEADER_PREFIX|..] == rule.test.value.name;
      if value != [] {
        JoinEnds(value);
      } else {
        JoinNothing();
      }
      UnquoteQuoted(rule.test.value.value);
    }
  }

  // ---------------------------------------------------------------- rules without a header test

  /** The line ends in `if header.NAME == ...`. */
  predicate HasHeaderTest(line: string) {
    var parts := Fields(TrimSpace(line));
    |parts| >= 6 && parts[3] == "if" && HEADER_PREFIX <= parts[4] && parts[5] == "=="
  }

  /** The rule decides alike whatever the headers are. */
  ghost predicate IgnoresHeaders(rule: Rule) {
    forall req: Request, hs: map<string, string> :: Applies(rule, req) <==> Applies(rule, req.(headers := hs))
  }

  /** A rule line ignores headers if and only if its tail is not exactly of that form. */
  lemma {:induction false} HeaderTestIff(line: string)
    requires RuleOf(line).Some?
    ensures IgnoresHeaders(RuleOf(line).value) <==> !HasHeaderTest(line)
  {
    hide Fields, TrimSpace, Join, TrimQuotes, ToLower;
    var rule := RuleOf(line).value;
    if rule.test.Some? {
      var test := rule.test.value;
      var req := Request(rule.verb, rule.path, map[test.name := test.value]);
      assert Applies(rule, req);
      assert !Applies(rule, req.(headers := map[test.name := test.value + "x"]));
    }
  }

  /** Method and path of the request are those of the rule, or the rule leaves them open. */
  predicate Fitting(verb: string, path: string, req: Request) {
    (verb == "*" || verb == req.verb) && (path == "*" || path == req.path)
  }

  /** Any other tail is dropped: the rule decides by method and path alone. */
  lemma {:induction false} OtherTailIsDropped(words: seq<string>, req: Request)
    requires |words| >= 3 && AllWords(words) && words[0][0] != '#' && TestOf(words).None?
    ensures RunProgram(Emitted([Join(words, " ")]), Some(req)) ==
            if Fitting(words[1], words[2], req) then words[0] else "deny"
  {
    hide Join, Fields, TrimSpace, Emitted, RunProgram, TestOf;
    FieldsJoin(words);
    JoinEnds(words);
    WordsAreTrimmed(words);
    var line := Join(words, " ");
    assert RuleOf(line) == Some(Rule(words[0], words[1], words[2], None));
    OneLineDecides(line, req);
  }

  /** A written rule answers with its action if and only if method, path and header are as it says; a
      header that is missing counts as empty. */
  lemma {:induction false} WrittenRuleDecides(rule: Rule, value: seq<string>, req: Request)
    requires Writable(rule, value)
    ensures var held := Fitting(rule.verb, rule.path, req) &&
                        (rule.test.Some? ==>
                           var name := ToLower(rule.test.value.name);
                           rule.test.value.value == if name in req.headers then req.headers[name] else "");
            RunProgram(Emitted([Join(WordsOf(rule, value), " ")]), Some(req)) == if held then rule.action else "deny"
  {
    hide Join, WordsOf, Emitted, RunProgram, RuleOf, ToLower, Writable;
    RuleRoundTrip(rule, value);
    OneLineDecides(Join(WordsOf(rule, value), " "), req);
  }

  lemma {:induction false} OneLineDecides(line: string, req: Request)
    requires RuleOf(line).Some?
    ensures RunProgram(Emitted([line]), Some(req)) ==
            if Applies(RuleOf(line).value, req) then RuleOf(line).value.action else "deny"
  {
    hide Emitted, RunProgram, RuleOf, Applies;
    assert [line][0] == line;
    if Applies(RuleOf(line).value, req) {
      FirstMatchDecides([line], 0, req);
    } else {
      NoMatchDenies([line], req);
    }
  }

  /** The words of `allow GET /admin if header.role = admin`. */
  const MISSPELT: seq<string> := ["allow", "GET", "/admin", "if", "header.role", "=", "admin"]

  /** With a single `=` the condition on the role is lost, and everybody is let in. */
  lemma {:induction false} MisspeltTestLetsIn(headers: map<string, string>)
    ensures RunProgram(Emitted([Join(MISSPELT, " ")]), Some(Request("GET", "/admin", headers))) == "allow"
  {
    hide Join, Emitted, RunProgram;
    MisspeltWords();
    OtherTailIsDropped(MISSPELT, Request("GET", "/admin", headers));
  }

  lemma MisspeltWords()
    ensures AllWords(MISSPELT)
  {
    assert IsWord("allow") && IsWord("GET") && IsWord("/admin");
    assert IsWord("if") && IsWord("header.role") && IsWord("=") && IsWord("admin");
  }

  lemma JoinNothing()
    ensures Join([], " ") == ""
  {
  }

  lemma LowerStays(s: string)
    requires forall c :: c in s ==> !('A' <= c <= 'Z')
    ensures ToLower(s) == s
  {
    assert forall i :: 0 <= i < |s| ==> s[i] in s;
  }

  lemma IfWords(name: string)
    requires forall c :: c in name ==> !IsSpace(c)
    ensures IsWord("if") && IsWord("==") && IsWord(HEADER_PREFIX + name) && HEADER_PREFIX <= HEADER_PREFIX + name
  {
  }

  lemma WordsAreTrimmed(words: seq<string>)
    requires words != [] && AllWords(words)
    ensures TrimSpace(Join(words, " ")) == Join(words, " ")
  {
    JoinEnds(words);
    var j := Join(words, " ");
    var last := words[|words| - 1];
    assert IsWord(words[0]) && words[0][0] in words[0];
    assert IsWord(last) && last[|last| - 1] in last;
    assert IsTrimmed(j);
    TrimIndented("", j);
    assert "" + j == j;
  }
}
