/** Cron schedules: what a field denotes, and the search for the next runs. */
module Cron {
  import opened Text
  import opened Options

  // ---------------------------------------------------------------- numbers

  const MAX_INT: int := 0x7FFF_FFFF_FFFF_FFFF

  predicate IsDigit(c: char) {
    '0' <= c <= '9'
  }

  predicate AllDigits(s: string) {
    forall k :: 0 <= k < |s| ==> IsDigit(s[k])
  }

  function Value(s: string): int {
    if s == [] then 0 else 10 * Value(s[..|s| - 1]) + (s[|s| - 1] as int - '0' as int)
  }

  /** Decimal numbers with an optional sign that fit 64 bits; anything else is an error. */
  function Atoi(s: string): Option<int> {
    var negative := s != [] && s[0] == '-';
    var digits := if s != [] && (s[0] == '-' || s[0] == '+') then s[1..] else s;
    if digits == [] || !AllDigits(digits) then None
    else
      var n := if negative then -Value(digits) else Value(digits);
      if -MAX_INT - 1 <= n <= MAX_INT then Some(n) else None
  }

  /** The decimal notation of a number. */
  function Decimal(n: nat): string {
    if n < 10 then [('0' as int + n) as char] else Decimal(n / 10) + [('0' as int + n % 10) as char]
  }

  lemma {:induction false} DecimalRoundTrip(n: nat)
    ensures Decimal(n) != [] && AllDigits(Decimal(n)) && Value(Decimal(n)) == n
  {
    if n < 10 {
      assert Decimal(n)[..0] == [];
    } else {
      DecimalRoundTrip(n / 10);
      var d := Decimal(n / 10);
      assert Decimal(n)[..|d|] == d;
    }
  }

  lemma AtoiOfDecimal(n: nat)
    requires n <= MAX_INT
    ensures Atoi(Decimal(n)) == Some(n)
    ensures forall c :: c in Decimal(n) ==> IsDigit(c)
  {
    DecimalRoundTrip(n);
    assert IsDigit(Decimal(n)[0]);
  }

  // ---------------------------------------------------------------- fields

  /** The stepping loop visits start, start + step, ... up to end. */
  datatype Range = Range(start: int, end: int, step: int)

  function StepOf(field: string): int {
    if '/' in field then
      SplitShrinks(field, '/');
      var n := Atoi(Split(field, '/')[1]);
      if n.Some? then n.value else 1
    else 1
  }

  /** The range of a field without commas; nothing when its number cannot be read. A malformed
      lower or upper bound leaves both bounds at zero. */
  function RangeOf(field: string, minVal: int, maxVal: int): Option<Range> {
    var step := StepOf(field);
    var rangeStr := Split(field, '/')[0];
    if rangeStr == "*" then Some(Range(minVal, maxVal, step))
    else if '-' in rangeStr then
      SplitShrinks(rangeStr, '-');
      var lo, hi := Atoi(Split(rangeStr, '-')[0]), Atoi(Split(rangeStr, '-')[1]);
      if lo.Some? && hi.Some? then Some(Range(lo.value, hi.value, step)) else Some(Range(0, 0, step))
    else
      var n := Atoi(rangeStr);
      if n.Some? then Some(Range(n.value, n.value, step)) else None
  }

  function Term(r: Range, m: nat): int {
    r.start + m * r.step
  }

  ghost predicate Visits(r: Range, val: int) {
    exists m: nat :: Term(r, m) == val
  }

  /** Membership in the arithmetic progression of a range. */
  ghost predicate InRange(r: Range, val: int) {
    r.start <= r.end && val <= r.end && Visits(r, val)
  }

  /** The stepping loop ends: it moves forward, is never entered, or meets the value. */
  ghost predicate Ends(r: Range, val: int) {
    r.step >= 1 || r.start > r.end || Visits(r, val)
  }

  /** Otherwise it goes on forever: it never leaves the range and never meets the value. */
  lemma EndsExactly(r: Range, val: int)
    ensures Ends(r, val) <==> exists m: nat :: Term(r, m) == val || Term(r, m) > r.end
  {
    if r.step >= 1 && r.start <= r.end {
      var m := r.end - r.start + 1;
      assert m * r.step >= m;
      assert Term(r, m) > r.end;
    } else if r.start > r.end {
      assert Term(r, 0) > r.end;
    } else {
      forall m: nat
        ensures Term(r, m) <= r.end
      {
        assert m * r.step <= 0;
      }
    }
  }

  /** What a field matches. */
  ghost predicate Matches(field: string, val: int, minVal: int, maxVal: int)
    decreases |field|
  {
    || field == "*"
    || if ',' in field then
         SplitShrinks(field, ',');
         exists k :: 0 <= k < |Split(field, ',')| && Matches(Split(field, ',')[k], val, minVal, maxVal)
       else
         var r := RangeOf(field, minVal, maxVal);
         r.Some? && InRange(r.value, val)
  }

  /** The loop over one part without commas ends. */
  ghost predicate PartHalts(part: string, val: int, minVal: int, maxVal: int) {
    part == "*" || (var r := RangeOf(part, minVal, maxVal); r.Some? ==> Ends(r.value, val))
  }

  /** The test of a field ends: so does every part that is looked at, up to the first that matches. */
  ghost predicate Halts(field: string, val: int, minVal: int, maxVal: int) {
    var parts := Split(field, ',');
    forall k :: 0 <= k < |parts| && (forall j :: 0 <= j < k ==> !Matches(parts[j], val, minVal, maxVal)) ==>
      PartHalts(parts[k], val, minVal, maxVal)
  }

  /** No part steps by zero or backwards. */
  predicate Steps(field: string) {
    forall p :: p in Split(field, ',') ==> StepOf(p) >= 1
  }

  /** Then every test of the field ends. */
  lemma SteppingHalts(field: string, val: int, minVal: int, maxVal: int)
    requires Steps(field)
    ensures Halts(field, val, minVal, maxVal)
  {
    hide Matches, StepOf, Split;
  }

  /** A star with step zero does not end on minute 5: the loop stays at 0. */
  lemma ZeroStepNeverEnds()
    ensures !Halts("*/0", 5, 0, 59)
  {
    var field := "*/0";
    assert field == "*" + ['/'] + "0" && "0" == Decimal(0);
    assert Split("0", '/') == ["0"] by { SplitNoSep("0", '/'); }
    SplitAtSep("*", '/', "0");
    AtoiOfDecimal(0);
    SplitNoSep(field, ',');
    hide Atoi, Split, Matches;
    assert RangeOf(field, 0, 59) == Some(Range(0, 59, 0));
    assert !PartHalts(Split(field, ',')[0], 5, 0, 59);
  }

  lemma {:induction false} SplitShrinks(s: string, sep: char)
    ensures forall k :: 0 <= k < |Split(s, sep)| ==> |Split(s, sep)[k]| <= |s|
    ensures sep in s ==> |Split(s, sep)| > 1 && forall k :: 0 <= k < |Split(s, sep)| ==> |Split(s, sep)[k]| < |s|
  {
    if s != [] {
      SplitShrinks(s[1..], sep);
      SplitPieces(s[1..], sep);
      var rest := Split(s[1..], sep);
      if s[0] != sep {
        var parts := [[s[0]] + rest[0]] + rest[1..];
        assert forall k :: 1 <= k < |rest| ==> parts[k] == rest[k];
      }
    }
  }

  /** The field test, on every input on which it ends. */
  method MatchField(field: string, val: int, minVal: int, maxVal: int) returns (r: bool)
    requires Halts(field, val, minVal, maxVal)
    ensures r <==> Matches(field, val, minVal, maxVal)
    decreases |field|
  {
    hide RangeOf, Split, Matches, PartHalts, Halts, InRange, Ends;
    MatchesUnfolded(field, val, minVal, maxVal);
    if field == "*" {
      return true;
    }
    if ',' in field {
      var parts := Split(field, ',');
      SplitShrinks(field, ',');
      SplitPieces(field, ',');
      for k := 0 to |parts|
        invariant forall j :: 0 <= j < k ==> !Matches(parts[j], val, minVal, maxVal)
      {
        HaltsAt(field, k, val, minVal, maxVal);
        PartAlone(parts[k], val, minVal, maxVal);
        var found := MatchField(parts[k], val, minVal, maxVal);
        if found {
          return true;
        }
      }
      return false;
    }
    PartAlone(field, val, minVal, maxVal);
    var range := RangeOf(field, minVal, maxVal);
    if range.None? {
      return false;
    }
    r := Scan(range.value, val);
  }

  lemma HaltsAt(field: string, k: nat, val: int, minVal: int, maxVal: int)
    requires Halts(field, val, minVal, maxVal) && k < |Split(field, ',')|
    requires forall j :: 0 <= j < k ==> !Matches(Split(field, ',')[j], val, minVal, maxVal)
    ensures PartHalts(Split(field, ',')[k], val, minVal, maxVal)
  {
    hide Split, Matches, PartHalts;
  }

  /** A field without commas is its only part. */
  lemma PartAlone(field: string, val: int, minVal: int, maxVal: int)
    requires ',' !in field
    ensures Halts(field, val, minVal, maxVal) <==> PartHalts(field, val, minVal, maxVal)
    ensures PartHalts(field, val, minVal, maxVal) && field != "*" && RangeOf(field, minVal, maxVal).Some? ==>
              Ends(RangeOf(field, minVal, maxVal).value, val)
  {
    hide RangeOf, Matches, Split;
    SplitNoSep(field, ',');
    assert [field][0] == field;
  }

  lemma MatchesUnfolded(field: string, val: int, minVal: int, maxVal: int)
    ensures Matches(field, val, minVal, maxVal) <==>
            || field == "*"
            || if ',' in field then
                 exists k :: 0 <= k < |Split(field, ',')| && Matches(Split(field, ',')[k], val, minVal, maxVal)
               else RangeOf(field, minVal, maxVal).Some? && InRange(RangeOf(field, minVal, maxVal).value, val)
  {
    hide RangeOf, Split, InRange;
    SplitShrinks(field, ',');
  }

  /** The stepping loop. */
  method Scan(range: Range, val: int) returns (r: bool)
    requires Ends(range, val)
    ensures r <==> InRange(range, val)
  {
    var i := range.start;
    ghost var n: nat := 0;
    EndsExactly(range, val);
    ghost var stop: nat :| Term(range, stop) == val || Term(range, stop) > range.end;
    assert Term(range, 0) == range.start;
    hide Term;
    while i <= range.end
      invariant i == Term(range, n) && n <= stop
      invariant n > 0 ==> range.start <= range.end
      invariant forall m: nat :: m < n ==> Term(range, m) != val
      decreases stop - n
    {
      if i == val {
        return true;
      }
      TermStep(range, n);
      i := i + range.step;
      n := n + 1;
    }
    ScanMisses(range, n, val);
    r := false;
  }

  lemma TermStep(r: Range, n: nat)
    ensures Term(r, n + 1) == Term(r, n) + r.step
  {
    assert (n + 1) * r.step == n * r.step + r.step;
  }

  lemma ScanMisses(r: Range, n: nat, val: int)
    requires Term(r, n) > r.end && forall m: nat :: m < n ==> Term(r, m) != val
    ensures !InRange(r, val)
  {
    if InRange(r, val) {
      ForwardOnly(r, n);
      hide Term;
      var m: nat :| Term(r, m) == val;
      TermGrows(r, n, m);
    }
  }

  /** Only a positive step leads beyond the start. */
  lemma ForwardOnly(r: Range, n: nat)
    ensures Term(r, n) > r.start ==> r.step >= 1
  {
    if r.step <= 0 {
      assert n * r.step <= 0;
    }
  }

  lemma TermGrows(r: Range, m: nat, n: nat)
    requires r.step >= 1
    ensures m <= n ==> Term(r, m) <= Term(r, n)
    ensures n == m + 1 ==> Term(r, n) == Term(r, m) + r.step
  {
  }

  // ---------------------------------------------------------------- well-formed fields

  /** A number as it may be written: digits, perhaps with leading zeros or a plus sign, that fit 64
      bits. A minus sign separates bounds. */
  predicate Numeral(s: string) {
    Atoi(s).Some? && '-' !in s
  }

  function Number(s: string): int
    requires Numeral(s)
  {
    Atoi(s).value
  }

  /** The parts a schedule is written with. */
  datatype Part =
    | Any
    | AnyStep(step: string)
    | One(a: string)
    | OneStep(a: string, step: string)
    | Between(a: string, b: string)
    | BetweenStep(a: string, b: string, step: string)

  function Show(p: Part): string {
    match p
    case Any => "*"
    case AnyStep(k) => "*" + "/" + k
    case One(a) => a
    case OneStep(a, k) => a + "/" + k
    case Between(a, b) => a + "-" + b
    case BetweenStep(a, b, k) => (a + "-" + b) + "/" + k
  }

  /** The numbers can be read and steps are positive. */
  predicate WellFormed(p: Part) {
    && (p.AnyStep? || p.OneStep? || p.BetweenStep? ==> Numeral(p.step) && Number(p.step) >= 1)
    && (p.One? || p.OneStep? || p.Between? || p.BetweenStep? ==> Numeral(p.a))
    && (p.Between? || p.BetweenStep? ==> Numeral(p.b))
  }

  /** The values a part stands for. */
  ghost predicate Denotes(p: Part, val: int, minVal: int, maxVal: int)
    requires WellFormed(p)
  {
    match p
    case Any => true
    case AnyStep(k) => InRange(Range(minVal, maxVal, Number(k)), val)
    case One(a) => val == Number(a)
    case OneStep(a, _) => val == Number(a)
    case Between(a, b) => Number(a) <= val <= Number(b)
    case BetweenStep(a, b, k) => InRange(Range(Number(a), Number(b), Number(k)), val)
  }

  function ShowAll(ps: seq<Part>): seq<string> {
    if ps == [] then [] else [Show(ps[0])] + ShowAll(ps[1..])
  }

  function ShowField(ps: seq<Part>): string {
    Join(ShowAll(ps), ",")
  }

  lemma {:induction false} ShowAllIs(ps: seq<Part>)
    ensures |ShowAll(ps)| == |ps| && forall k :: 0 <= k < |ps| ==> ShowAll(ps)[k] == Show(ps[k])
  {
    if ps != [] { ShowAllIs(ps[1..]); }
  }

  /** The text before the slash of a printed part. */
  function Base(p: Part): string {
    match p
    case Any => "*"
    case AnyStep(_) => "*"
    case One(a) => a
    case OneStep(a, _) => a
    case Between(a, b) => a + "-" + b
    case BetweenStep(a, b, _) => a + "-" + b
  }

  predicate Stepped(p: Part) {
    p.AnyStep? || p.OneStep? || p.BetweenStep?
  }

  lemma NumeralIsPlain(s: string)
    requires Numeral(s)
    ensures ',' !in s && '/' !in s && s != "*"
  {
    forall c | c in s
      ensures IsDigit(c) || c == '+'
    {
      var k :| 0 <= k < |s| && s[k] == c;
      assert s[0] in s;
      if k > 0 { assert s[1..][k - 1] == c; }
    }
  }

  /** The canonical notation is one of the ways to write a number. */
  lemma DecimalIsNumeral(n: nat)
    requires n <= MAX_INT
    ensures Numeral(Decimal(n)) && Number(Decimal(n)) == n
  {
    hide Decimal, Atoi;
    AtoiOfDecimal(n);
  }

  /** Leading zeros and a plus sign do not change a number. */
  lemma PaddedIsSame(s: string)
    requires s != "" && AllDigits(s) && Value(s) <= MAX_INT
    ensures Numeral(s) && Numeral("0" + s) && Numeral("+" + s)
    ensures Number("0" + s) == Number("+" + s) == Number(s) == Value(s)
  {
    DigitsValue(s);
    ValueOfPadded(s);
    assert ("+" + s)[1..] == s;
    assert IsDigit(s[0]);
    assert forall k :: 0 < k < |"0" + s| ==> ("0" + s)[k] == s[k - 1];
    assert forall k :: 0 < k < |"+" + s| ==> ("+" + s)[k] == s[k - 1];
  }

  /** A minus sign negates, a number beyond 64 bits cannot be read, nor can any other text. */
  lemma {:induction false} ReadingNumbers(s: string)
    requires s != "" && AllDigits(s)
    ensures Value(s) <= MAX_INT ==> Atoi("-" + s) == Some(-Value(s))
    ensures Value(s) > MAX_INT ==> Atoi(s) == None
    ensures forall c: char, t: string :: !IsDigit(c) ==> Atoi(s + [c] + t) == None
    ensures Atoi("") == None
  {
    DigitsValue(s);
    assert IsDigit(s[0]) && ("-" + s)[1..] == s;
    forall c: char, t: string | !IsDigit(c)
      ensures Atoi(s + [c] + t) == None
    {
      var text := s + [c] + t;
      assert text[0] == s[0] && text[|s|] == c;
    }
  }

  lemma {:induction false} DigitsValue(s: string)
    requires AllDigits(s)
    ensures Value(s) >= 0
  {
    if s != [] { DigitsValue(s[..|s| - 1]); }
  }

  lemma {:induction false} ValueOfPadded(s: string)
    ensures Value("0" + s) == Value(s)
  {
    if s == [] {
      assert "0"[..0] == [];
    } else {
      assert ("0" + s)[..|s|] == "0" + s[..|s| - 1];
      ValueOfPadded(s[..|s| - 1]);
    }
  }

  lemma BaseIsPlain(p: Part)
    requires WellFormed(p)
    ensures ',' !in Base(p) && '/' !in Base(p)
  {
    hide Numeral;
    match p
    case One(a) => NumeralIsPlain(a);
    case OneStep(a, _) => NumeralIsPlain(a);
    case Between(a, b) => NumeralIsPlain(a); NumeralIsPlain(b);
    case BetweenStep(a, b, _) => NumeralIsPlain(a); NumeralIsPlain(b);
    case _ =>
  }

  /** A printed part splits at its slash into base and step. */
  lemma ShowSplits(p: Part)
    requires WellFormed(p)
    ensures ',' !in Show(p)
    ensures Split(Show(p), '/')[0] == Base(p)
    ensures StepOf(Show(p)) == if Stepped(p) then Number(p.step) else 1
  {
    hide Atoi;
    BaseIsPlain(p);
    if Stepped(p) {
      var k := p.step;
      NumeralIsPlain(k);
      assert Show(p) == Base(p) + ['/'] + k;
      SplitAtSep(Base(p), '/', k);
      SplitNoSep(k, '/');
    } else {
      SplitNoSep(Show(p), '/');
    }
  }

  /** The range read back from a printed part. */
  lemma RangeOfShow(p: Part, minVal: int, maxVal: int)
    requires WellFormed(p)
    ensures RangeOf(Show(p), minVal, maxVal) ==
            var step := if Stepped(p) then Number(p.step) else 1;
            match p
            case Any => Some(Range(minVal, maxVal, step))
            case AnyStep(_) => Some(Range(minVal, maxVal, step))
            case One(a) => Some(Range(Number(a), Number(a), step))
            case OneStep(a, _) => Some(Range(Number(a), Number(a), step))
            case Between(a, b) => Some(Range(Number(a), Number(b), step))
            case BetweenStep(a, b, _) => Some(Range(Number(a), Number(b), step))
  {
    hide Atoi, StepOf, Show;
    ShowSplits(p);
    if p.One? || p.OneStep? {
      NumeralIsPlain(p.a);
    } else if p.Between? || p.BetweenStep? {
      BetweenSplits(p.a, p.b);
    }
  }

  lemma BetweenSplits(a: string, b: string)
    requires Numeral(a) && Numeral(b)
    ensures var s := a + "-" + b;
            s != "*" && '-' in s && Split(s, '-') == [a, b]
  {
    hide Atoi;
    var s := a + "-" + b;
    assert s == a + ['-'] + b && s[|a|] == '-';
    SplitAtSep(a, '-', b);
    SplitNoSep(b, '-');
  }

  lemma SingleStep(a: int, k: int, val: int)
    requires k >= 1
    ensures InRange(Range(a, a, k), val) <==> val == a
  {
    assert Term(Range(a, a, k), 0) == a;
    forall m: nat | Term(Range(a, a, k), m) == val && val <= a
      ensures val == a
    {
      TermGrows(Range(a, a, k), 0, m);
    }
  }

  lemma UnitStep(a: int, b: int, val: int)
    ensures InRange(Range(a, b, 1), val) <==> a <= val <= b
  {
    if a <= val {
      assert Term(Range(a, b, 1), val - a) == val;
    }
  }

  /** A printed part matches what it denotes. */
  lemma PartMatches(p: Part, val: int, minVal: int, maxVal: int)
    requires WellFormed(p)
    ensures Matches(Show(p), val, minVal, maxVal) <==> Denotes(p, val, minVal, maxVal)
  {
    hide Atoi, StepOf, RangeOf, Numeral, Number;
    if !p.Any? {
      ShowSplits(p);
      RangeOfShow(p, minVal, maxVal);
      NotStar(p);
      if p.One? || p.OneStep? {
        SingleStep(Number(p.a), if Stepped(p) then Number(p.step) else 1, val);
      } else if p.Between? {
        UnitStep(Number(p.a), Number(p.b), val);
      }
    }
  }

  lemma NotStar(p: Part)
    requires WellFormed(p) && !p.Any?
    ensures Show(p) != "*"
  {
    hide Atoi;
    match p
    case AnyStep(k) => assert Show(p)[1] == '/';
    case One(a) => NumeralIsPlain(a);
    case OneStep(a, k) => assert '/' in Show(p) by { assert Show(p)[|a|] == '/'; }
    case Between(a, b) => BetweenSplits(a, b);
    case BetweenStep(a, b, k) => assert '/' in Show(p) by { assert Show(p)[|Base(p)|] == '/'; }
  }

  /** A printed field never stops the loop, and matches exactly the union of what its parts denote. */
  lemma FieldMatches(ps: seq<Part>, val: int, minVal: int, maxVal: int)
    requires ps != [] && forall k :: 0 <= k < |ps| ==> WellFormed(ps[k])
    ensures Steps(ShowField(ps))
    ensures Matches(ShowField(ps), val, minVal, maxVal) <==>
            exists k :: 0 <= k < |ps| && Denotes(ps[k], val, minVal, maxVal)
  {
    hide Atoi, StepOf, RangeOf, Show, Denotes, Split, Join, Numeral, Number;
    var parts := ShowAll(ps);
    ShowAllIs(ps);
    forall k | 0 <= k < |ps|
      ensures ',' !in parts[k] && StepOf(parts[k]) >= 1
      ensures Matches(parts[k], val, minVal, maxVal) <==> Denotes(ps[k], val, minVal, maxVal)
    {
      ShowSplits(ps[k]);
      PartMatches(ps[k], val, minVal, maxVal);
    }
    SplitJoin(parts, ',');
    if |ps| == 1 {
      JoinOne(parts);
    } else {
      JoinHasSep(parts, ',');
      StarHasNoComma();
    }
  }

  lemma StarHasNoComma()
    ensures ',' !in "*"
  {
  }

  lemma JoinOne(parts: seq<string>)
    requires |parts| == 1
    ensures Join(parts, ",") == parts[0]
  {
  }

  lemma JoinHasSep(parts: seq<string>, sep: char)
    requires |parts| > 1
    ensures sep in Join(parts, [sep])
  {
  }

  /** What malformed parts match: a bound that cannot be read makes the range zero to zero, a step that
      cannot be read counts as one, and any other text matches nothing. */
  lemma {:induction false} MalformedParts(a: string, b: string, val: int, minVal: int, maxVal: int)
    requires Plain(a) && Plain(b)
    ensures Atoi(a).None? || Atoi(b).None? ==> (Matches(a + "-" + b, val, minVal, maxVal) <==> val == 0)
    ensures Atoi(a).None? && a != "*" ==> !Matches(a, val, minVal, maxVal)
    ensures Atoi(b).None? && a != "*" ==>
              (Matches(a + "/" + b, val, minVal, maxVal) <==> Matches(a, val, minVal, maxVal))
  {
    hide Atoi, Split, Matches;
    if Atoi(a).None? || Atoi(b).None? {
      BadBounds(a, b, val, minVal, maxVal);
    }
    PlainRange(a, minVal, maxVal);
    MatchesUnfolded(a, val, minVal, maxVal);
    if Atoi(b).None? && a != "*" {
      BadStep(a, b, minVal, maxVal);
      MatchesUnfolded(a + "/" + b, val, minVal, maxVal);
    }
  }

  /** No separators. */
  predicate Plain(s: string) {
    ',' !in s && '/' !in s && '-' !in s
  }

  lemma PlainRange(a: string, minVal: int, maxVal: int)
    requires Plain(a)
    ensures RangeOf(a, minVal, maxVal) ==
            if a == "*" then Some(Range(minVal, maxVal, 1))
            else if Atoi(a).Some? then Some(Range(Atoi(a).value, Atoi(a).value, 1)) else None
  {
    hide Atoi;
    SplitNoSep(a, '/');
  }

  lemma BadBounds(a: string, b: string, val: int, minVal: int, maxVal: int)
    requires Plain(a) && Plain(b) && (Atoi(a).None? || Atoi(b).None?)
    ensures Matches(a + "-" + b, val, minVal, maxVal) <==> val == 0
  {
    hide Atoi, Matches;
    var s := a + "-" + b;
    assert s == a + ['-'] + b && s[|a|] == '-';
    SplitNoSep(s, '/');
    SplitAtSep(a, '-', b);
    SplitNoSep(b, '-');
    assert RangeOf(s, minVal, maxVal) == Some(Range(0, 0, 1));
    MatchesUnfolded(s, val, minVal, maxVal);
    SingleStep(0, 1, val);
  }

  lemma BadStep(a: string, b: string, minVal: int, maxVal: int)
    requires Plain(a) && Plain(b) && Atoi(b).None? && a != "*"
    ensures RangeOf(a + "/" + b, minVal, maxVal) == RangeOf(a, minVal, maxVal)
    ensures ',' !in a + "/" + b && a + "/" + b != "*"
  {
    hide Atoi;
    var s := a + "/" + b;
    assert s == a + ['/'] + b && s[|a|] == '/';
    SplitAtSep(a, '/', b);
    SplitNoSep(b, '/');
    SplitNoSep(a, '/');
  }

  // ---------------------------------------------------------------- whole expressions

  /** The calendar fields of an instant. */
  datatype Moment = Moment(minute: int, hour: int, day: int, month: int, weekday: int)

  /** All five fields must match, the two day fields included; Sunday is 0 or 7. */
  ghost predicate MatchesCron(fields: seq<string>, m: Moment) {
    && |fields| == 5
    && Matches(fields[0], m.minute, 0, 59)
    && Matches(fields[1], m.hour, 0, 23)
    && Matches(fields[2], m.day, 1, 31)
    && Matches(fields[3], m.month, 1, 12)
    && (Matches(fields[4], m.weekday, 0, 6) || (m.weekday == 0 && Matches(fields[4], 7, 0, 7)))
  }

  /** Some part of the list denotes the value. */
  ghost predicate AnyDenotes(ps: seq<Part>, val: int, minVal: int, maxVal: int)
    requires AllWellFormed(ps)
  {
    exists k :: 0 <= k < |ps| && Denotes(ps[k], val, minVal, maxVal)
  }

  predicate AllWellFormed(ps: seq<Part>) {
    ps != [] && forall k :: 0 <= k < |ps| ==> WellFormed(ps[k])
  }

  /** A written schedule fires at the moments whose minute, hour, day, month and weekday are denoted by
      its five lists in this order, a Sunday as 0 or as 7. */
  lemma ScheduleFires(minute: seq<Part>, hour: seq<Part>, day: seq<Part>, month: seq<Part>, weekday: seq<Part>,
                      m: Moment)
    requires AllWellFormed(minute) && AllWellFormed(hour) && AllWellFormed(day)
    requires AllWellFormed(month) && AllWellFormed(weekday)
    ensures var text := Join([ShowField(minute), ShowField(hour), ShowField(day), ShowField(month),
                              ShowField(weekday)], " ");
            MatchesCron(Fields(text), m) <==>
            && AnyDenotes(minute, m.minute, 0, 59)
            && AnyDenotes(hour, m.hour, 0, 23)
            && AnyDenotes(day, m.day, 1, 31)
            && AnyDenotes(month, m.month, 1, 12)
            && (AnyDenotes(weekday, m.weekday, 0, 6) || (m.weekday == 0 && AnyDenotes(weekday, 7, 0, 7)))
  {
    hide Matches, ShowField, Join, Fields, Denotes, WellFormed, Steps;
    var fields := [ShowField(minute), ShowField(hour), ShowField(day), ShowField(month), ShowField(weekday)];
    FieldIsWord(minute);
    FieldIsWord(hour);
    FieldIsWord(day);
    FieldIsWord(month);
    FieldIsWord(weekday);
    FieldsJoin(fields);
    FieldMatches(minute, m.minute, 0, 59);
    FieldMatches(hour, m.hour, 0, 23);
    FieldMatches(day, m.day, 1, 31);
    FieldMatches(month, m.month, 1, 12);
    FieldMatches(weekday, m.weekday, 0, 6);
    FieldMatches(weekday, 7, 0, 7);
  }

  /** A written field is one word. */
  lemma FieldIsWord(ps: seq<Part>)
    requires AllWellFormed(ps)
    ensures IsWord(ShowField(ps))
  {
    hide Show, Join, WellFormed, IsSpace;
    ShowAllIs(ps);
    forall k | 0 <= k < |ps|
      ensures IsWord(Show(ps[k]))
    {
      PartIsWord(ps[k]);
    }
    JoinIsWord(ShowAll(ps));
  }

  lemma {:induction false} JoinIsWord(parts: seq<string>)
    requires parts != [] && forall k :: 0 <= k < |parts| ==> IsWord(parts[k])
    ensures IsWord(Join(parts, ","))
  {
    assert IsWord(parts[0]);
    if |parts| > 1 { JoinIsWord(parts[1..]); }
  }

  lemma PartIsWord(p: Part)
    requires WellFormed(p)
    ensures IsWord(Show(p))
  {
    hide Atoi;
    if p.AnyStep? || p.OneStep? || p.BetweenStep? { NumeralIsWord(p.step); }
    if p.One? || p.OneStep? || p.Between? || p.BetweenStep? { NumeralIsWord(p.a); }
    if p.Between? || p.BetweenStep? { NumeralIsWord(p.b); }
  }

  lemma NumeralIsWord(s: string)
    requires Numeral(s)
    ensures IsWord(s)
  {
    forall c | c in s
      ensures IsDigit(c) || c == '+'
    {
      var k :| 0 <= k < |s| && s[k] == c;
      assert s[0] in s;
      if k > 0 { assert s[1..][k - 1] == c; }
    }
  }

  /** The test of an expression ends: so does every field that is looked at, up to the first that
      does not match. */
  ghost predicate HaltsCron(fields: seq<string>, m: Moment) {
    |fields| == 5 ==>
      && Halts(fields[0], m.minute, 0, 59)
      && (Matches(fields[0], m.minute, 0, 59) ==>
            && Halts(fields[1], m.hour, 0, 23)
            && (Matches(fields[1], m.hour, 0, 23) ==>
                  && Halts(fields[2], m.day, 1, 31)
                  && (Matches(fields[2], m.day, 1, 31) ==>
                        && Halts(fields[3], m.month, 1, 12)
                        && (Matches(fields[3], m.month, 1, 12) ==> HaltsWeekday(fields[4], m.weekday)))))
  }

  ghost predicate HaltsWeekday(field: string, weekday: int) {
    && Halts(field, weekday, 0, 6)
    && (weekday == 0 && !Matches(field, weekday, 0, 6) ==> Halts(field, 7, 0, 7))
  }

  method MatchCron(fields: seq<string>, m: Moment) returns (r: bool)
    requires HaltsCron(fields, m)
    ensures r <==> MatchesCron(fields, m)
  {
    hide Matches, Halts;
    if |fields| != 5 {
      return false;
    }
    r := MatchField(fields[0], m.minute, 0, 59);
    if r { r := MatchField(fields[1], m.hour, 0, 23); }
    if r { r := MatchField(fields[2], m.day, 1, 31); }
    if r { r := MatchField(fields[3], m.month, 1, 12); }
    if r {
      r := MatchField(fields[4], m.weekday, 0, 6);
      if !r && m.weekday == 0 {
        r := MatchField(fields[4], 7, 0, 7);
      }
    }
  }

  predicate AllStep(fields: seq<string>) {
    forall k :: 0 <= k < |fields| ==> Steps(fields[k])
  }

  lemma AllStepHalts(fields: seq<string>, m: Moment)
    requires AllStep(fields)
    ensures HaltsCron(fields, m)
  {
    hide Matches, Steps, Halts;
    if |fields| == 5 {
      SteppingHalts(fields[0], m.minute, 0, 59);
      SteppingHalts(fields[1], m.hour, 0, 23);
      SteppingHalts(fields[2], m.day, 1, 31);
      SteppingHalts(fields[3], m.month, 1, 12);
      SteppingHalts(fields[4], m.weekday, 0, 6);
      SteppingHalts(fields[4], 7, 0, 7);
    }
  }

  // ---------------------------------------------------------------- the search

  /** One minute in nanoseconds; instants count from a whole minute. */
  const MINUTE: int := 60_000_000_000

  /** A whole minute at which the schedule fires. */
  ghost predicate Fires(fields: seq<string>, calendar: int -> Moment, t: int) {
    t % MINUTE == 0 && MatchesCron(fields, calendar(t))
  }

  /** Nothing fires strictly between two instants. */
  ghost predicate SilentBetween(fields: seq<string>, calendar: int -> Moment, from: int, until: int) {
    forall t :: from < t < until ==> !Fires(fields, calendar, t)
  }

  /** `t` is the first firing minute strictly after `from`, and before `horizon`. */
  ghost predicate IsNext(fields: seq<string>, calendar: int -> Moment, from: int, horizon: int, t: int) {
    from < t < horizon && Fires(fields, calendar, t) && SilentBetween(fields, calendar, from, t)
  }

  /** The search ends: so does the test of every minute it looks at, up to the first that fires. */
  ghost predicate SearchEnds(fields: seq<string>, calendar: int -> Moment, from: int, horizon: int) {
    forall t :: from < t < horizon && t % MINUTE == 0 && SilentBetween(fields, calendar, from, t) ==>
      HaltsCron(fields, calendar(t))
  }

  datatype Outcome = Run(at: int) | BadFieldCount | NoRun | NoSchedule | BadInterval

  method NextCron(expr: string, calendar: int -> Moment, from: int, horizon: int) returns (o: Outcome)
    requires SearchEnds(Fields(expr), calendar, from, horizon)
    ensures |Fields(expr)| != 5 ==> o == BadFieldCount
    ensures |Fields(expr)| == 5 ==>
              if exists t :: from < t < horizon && Fires(Fields(expr), calendar, t)
              then o.Run? && IsNext(Fields(expr), calendar, from, horizon, o.at)
              else o == NoRun
  {
    hide HaltsCron, MatchesCron, SilentBetween;
    var fields := Fields(expr);
    if |fields| != 5 {
      return BadFieldCount;
    }
    var t := from - from % MINUTE + MINUTE;
    FirstMinute(fields, calendar, from);
    while t < horizon
      invariant from < t && t % MINUTE == 0
      invariant SilentBetween(fields, calendar, from, t)
      decreases horizon - t
    {
      var found := MatchCron(fields, calendar(t));
      if found {
        assert Fires(fields, calendar, t);
        return Run(t);
      }
      NextMinute(fields, calendar, from, t);
      t := t + MINUTE;
    }
    SilentMeansNone(fields, calendar, from, t, horizon);
    o := NoRun;
  }

  lemma FirstMinute(fields: seq<string>, calendar: int -> Moment, from: int)
    ensures var t := from - from % MINUTE + MINUTE;
            from < t && t % MINUTE == 0 && SilentBetween(fields, calendar, from, t)
  {
    hide MatchesCron;
  }

  lemma NextMinute(fields: seq<string>, calendar: int -> Moment, from: int, t: int)
    requires t % MINUTE == 0 && !Fires(fields, calendar, t) && SilentBetween(fields, calendar, from, t)
    ensures SilentBetween(fields, calendar, from, t + MINUTE)
  {
    hide MatchesCron;
  }

  lemma SilentMeansNone(fields: seq<string>, calendar: int -> Moment, from: int, t: int, horizon: int)
    requires SilentBetween(fields, calendar, from, t) && t >= horizon
    ensures !exists u :: from < u < horizon && Fires(fields, calendar, u)
  {
  }

  // ---------------------------------------------------------------- projecting runs

  /** A job has a cron expression or an interval; `duration` is the interval as a length of time,
      when it is one. */
  datatype Job = Job(cron: string, interval: string, duration: Option<int>)

  method NextRun(job: Job, calendar: int -> Moment, from: int, horizon: int) returns (o: Outcome)
    requires job.cron != "" ==> SearchEnds(Fields(job.cron), calendar, from, horizon)
    ensures job.cron != "" && |Fields(job.cron)| == 5 ==>
              if exists t :: from < t < horizon && Fires(Fields(job.cron), calendar, t)
              then o.Run? && IsNext(Fields(job.cron), calendar, from, horizon, o.at)
              else o == NoRun
    ensures job.cron == "" && job.interval != "" && job.duration.Some? ==> o == Run(from + job.duration.value)
    ensures o.Run? <==> ((job.cron != "" && |Fields(job.cron)| == 5 &&
                          exists t :: from < t < horizon && Fires(Fields(job.cron), calendar, t)) ||
                         (job.cron == "" && job.interval != "" && job.duration.Some?))
    ensures o == BadFieldCount <==> job.cron != "" && |Fields(job.cron)| != 5
    ensures o == NoSchedule <==> job.cron == "" && job.interval == ""
    ensures o == BadInterval <==> job.cron == "" && job.interval != "" && job.duration.None?
  {
    hide Fires, SearchEnds;
    if job.cron != "" {
      o := NextCron(job.cron, calendar, from, horizon);
      return;
    }
    if job.interval == "" {
      return NoSchedule;
    }
    if job.duration.None? {
      return BadInterval;
    }
    o := Run(from + job.duration.value);
  }

  function Previous(start: int, runs: seq<int>, i: nat): int
    requires i <= |runs|
  {
    if i == 0 then start else runs[i - 1]
  }

  ghost predicate Follows(fields: seq<string>, calendar: int -> Moment, twoYearsAfter: int -> int, start: int,
                          runs: seq<int>, i: nat)
    requires i < |runs|
  {
    var prev := Previous(start, runs, i);
    IsNext(fields, calendar, prev, twoYearsAfter(prev), runs[i])
  }

  /** Every run is the next one after the run before it. */
  ghost predicate Chain(fields: seq<string>, calendar: int -> Moment, twoYearsAfter: int -> int, start: int,
                        runs: seq<int>) {
    forall i {:trigger Follows(fields, calendar, twoYearsAfter, start, runs, i)} ::
      0 <= i < |runs| ==> Follows(fields, calendar, twoYearsAfter, start, runs, i)
  }

  /** The next `n` searches end, each from the run the one before it found. */
  ghost predicate ProjectionEnds(fields: seq<string>, calendar: int -> Moment, twoYearsAfter: int -> int,
                                 from: int, n: nat)
    decreases n
  {
    n > 0 ==>
      && SearchEnds(fields, calendar, from, twoYearsAfter(from))
      && forall t :: IsNext(fields, calendar, from, twoYearsAfter(from), t) ==>
           ProjectionEnds(fields, calendar, twoYearsAfter, t, n - 1)
  }

  /** Positive steps make all of it end. */
  lemma {:induction false} AllStepEnds(fields: seq<string>, calendar: int -> Moment, twoYearsAfter: int -> int,
                                        from: int, n: nat)
    requires AllStep(fields)
    ensures ProjectionEnds(fields, calendar, twoYearsAfter, from, n)
    decreases n
  {
    hide HaltsCron, Fires;
    if n > 0 {
      forall t ensures HaltsCron(fields, calendar(t)) { AllStepHalts(fields, calendar(t)); }
      forall t | IsNext(fields, calendar, from, twoYearsAfter(from), t)
        ensures ProjectionEnds(fields, calendar, twoYearsAfter, t, n - 1)
      {
        AllStepEnds(fields, calendar, twoYearsAfter, t, n - 1);
      }
    }
  }

  method ProjectNext5Runs(job: Job, calendar: int -> Moment, twoYearsAfter: int -> int, start: int)
    returns (runs: seq<int>)
    requires job.cron != "" ==> ProjectionEnds(Fields(job.cron), calendar, twoYearsAfter, start, 5)
    ensures |runs| <= 5
    ensures job.cron != "" && |Fields(job.cron)| == 5 ==>
              && Chain(Fields(job.cron), calendar, twoYearsAfter, start, runs)
              && (|runs| < 5 ==>
                    var last := Previous(start, runs, |runs|);
                    SilentBetween(Fields(job.cron), calendar, last, twoYearsAfter(last)))
    ensures job.cron != "" && |Fields(job.cron)| != 5 ==> runs == []
    ensures job.cron == "" && job.interval != "" && job.duration.Some? ==>
              |runs| == 5 && forall i :: 0 <= i < 5 ==> runs[i] == Previous(start, runs, i) + job.duration.value
    ensures job.cron == "" && (job.interval == "" || job.duration.None?) ==> runs == []
  {
    hide Fires, SearchEnds, IsNext;
    runs := [];
    var curr := start;
    while |runs| < 5
      invariant |runs| <= 5 && curr == Previous(start, runs, |runs|)
      invariant job.cron != "" ==> ProjectionEnds(Fields(job.cron), calendar, twoYearsAfter, curr, 5 - |runs|)
      invariant job.cron != "" ==> Chain(Fields(job.cron), calendar, twoYearsAfter, start, runs)
      invariant job.cron != "" && |Fields(job.cron)| != 5 ==> runs == []
      invariant job.cron == "" && (job.interval == "" || job.duration.None?) ==> runs == []
      invariant job.cron == "" && job.interval != "" && job.duration.Some? ==>
                  forall i :: 0 <= i < |runs| ==> runs[i] == Previous(start, runs, i) + job.duration.value
      decreases 5 - |runs|
    {
      var next := NextRun(job, calendar, curr, twoYearsAfter(curr));
      if !next.Run? {
        break;
      }
      ghost var before := runs;
      runs := runs + [next.at];
      assert forall i :: 0 <= i <= |before| ==> Previous(start, runs, i) == Previous(start, before, i);
      assert job.cron != "" ==> forall i :: 0 <= i < |before| ==>
          (Follows(Fields(job.cron), calendar, twoYearsAfter, start, before, i) ==>
           Follows(Fields(job.cron), calendar, twoYearsAfter, start, runs, i));
      curr := next.at;
    }
  }

  lemma {:induction false} ChainIncreases(fields: seq<string>, calendar: int -> Moment, twoYearsAfter: int -> int,
                                           start: int, runs: seq<int>, i: nat, j: nat)
    requires Chain(fields, calendar, twoYearsAfter, start, runs)
    requires i < j <= |runs|
    ensures Previous(start, runs, i) < Previous(start, runs, j)
    decreases j
  {
    hide Fires;
    assert Follows(fields, calendar, twoYearsAfter, start, runs, j - 1);
    if i < j - 1 {
      ChainIncreases(fields, calendar, twoYearsAfter, start, runs, i, j - 1);
    }
  }

  /** A chain is strictly increasing, and a minute up to its last run fires exactly if it is listed. */
  lemma {:induction false} ChainSkipsNothing(fields: seq<string>, calendar: int -> Moment, twoYearsAfter: int -> int,
                                              start: int, runs: seq<int>, n: nat, u: int)
    requires Chain(fields, calendar, twoYearsAfter, start, runs) && n <= |runs|
    requires start < u <= Previous(start, runs, n)
    ensures forall i, j :: 0 <= i < j < |runs| ==> runs[i] < runs[j]
    ensures Fires(fields, calendar, u) <==> u in runs[..n]
    decreases n
  {
    hide Fires;
    forall i, j | 0 <= i < j < |runs|
      ensures runs[i] < runs[j]
    {
      ChainIncreases(fields, calendar, twoYearsAfter, start, runs, i + 1, j + 1);
    }
    var prev := Previous(start, runs, n - 1);
    assert runs[..n] == runs[..n - 1] + [runs[n - 1]];
    if u <= prev {
      ChainIncreases(fields, calendar, twoYearsAfter, start, runs, n - 1, n);
      ChainSkipsNothing(fields, calendar, twoYearsAfter, start, runs, n - 1, u);
    } else {
      assert Follows(fields, calendar, twoYearsAfter, start, runs, n - 1);
      forall i | 0 <= i < n - 1
        ensures runs[i] != u
      {
        assert n > 1 && runs[i] <= runs[n - 2] == prev;
      }
    }
  }
}
