/** Two sliding-window rate limiters and the specification they share. */
module Limiters {

  /** One minute in nanoseconds. */
  const WINDOW: int := 60_000_000_000

  datatype Request = Request(ip: string, at: int)

  type Table = map<string, seq<int>>

  function Get(t: Table, ip: string): seq<int> {
    if ip in t then t[ip] else []
  }

  /** The instants strictly after the cutoff. */
  function Recent(ts: seq<int>, cutoff: int): seq<int> {
    if ts == [] then []
    else
      var n := |ts| - 1;
      Recent(ts[..n], cutoff) + if ts[n] > cutoff then [ts[n]] else []
  }

  // ---------------------------------------------------------------- specification

  /** The instants at which a client was admitted. */
  function TimesOf(log: seq<Request>, ip: string): seq<int> {
    if log == [] then []
    else
      var n := |log| - 1;
      TimesOf(log[..n], ip) + if log[n].ip == ip then [log[n].at] else []
  }

  /** A request is admitted when fewer than `limit` requests of its client were admitted in the
      minute up to it, counted over the whole admission log. */
  predicate Admits(log: seq<Request>, limit: int, r: Request) {
    |Recent(TimesOf(log, r.ip), r.at - WINDOW)| < limit
  }

  /** The admission log of a request trace. */
  function Admitted(limit: int, trace: seq<Request>): seq<Request> {
    if trace == [] then []
    else
      var n := |trace| - 1;
      var log := Admitted(limit, trace[..n]);
      if Admits(log, limit, trace[n]) then log + [trace[n]] else log
  }

  /** The clock never runs backwards. */
  predicate NonDecreasing(trace: seq<Request>) {
    forall i, j :: 0 <= i < j < |trace| ==> trace[i].at <= trace[j].at
  }

  // ---------------------------------------------------------------- the admin limiter

  /** Compaction within the slice: survivors move to the front, over cells already read. */
  method Compact(buf: array<int>, cutoff: int) returns (n: nat)
    modifies buf
    ensures n <= buf.Length && buf[..n] == Recent(old(buf[..]), cutoff)
  {
    n := 0;
    ghost var was := buf[..];
    for r := 0 to buf.Length
      invariant 0 <= n <= r
      invariant buf[..n] == Recent(was[..r], cutoff)
      invariant buf[r..] == was[r..]
    {
      var t := buf[r];
      assert t == was[r] by { assert buf[r..][0] == was[r..][0]; }
      assert was[..r + 1][..r] == was[..r];
      ghost var kept := buf[..n];
      ghost var rest := buf[r + 1..];
      assert rest == was[r + 1..] by {
        assert buf[r..][1..] == rest && was[r..][1..] == was[r + 1..];
      }
      if t > cutoff {
        buf[n] := t;
        n := n + 1;
        assert buf[..n] == kept + [t];
      }
      assert buf[r + 1..] == rest;
    }
    assert was[..buf.Length] == was;
  }

  /** One call: the new table, and whether the caller is limited. */
  function AdminStep(t: Table, ip: string, limit: int, now: int): (Table, bool) {
    var valid := Recent(Get(t, ip), now - WINDOW);
    if |valid| >= limit then (t[ip := valid], true) else (t[ip := valid + [now]], false)
  }

  class AdminRateLimiter {
    var history: Table

    constructor ()
      ensures history == map[]
    {
      history := map[];
    }

    /** True when the client is rate limited; the compacted slice is stored either way. */
    method Limit(ip: string, limit: int, now: int) returns (limited: bool)
      modifies this
      ensures (history, limited) == AdminStep(old(history), ip, limit, now)
      ensures var valid := Recent(Get(old(history), ip), now - 60_000_000_000);
              && limited == (|valid| >= limit)
              && history == old(history)[ip := if limited then valid else valid + [now]]
    {
      var cutoff := now - WINDOW;
      var slice := Get(history, ip);
      var buf := new int[|slice|](i requires 0 <= i < |slice| => slice[i]);
      assert buf[..] == slice;
      var n := Compact(buf, cutoff);
      var valid := buf[..n];
      if |valid| >= limit {
        history := history[ip := valid];
        return true;
      }
      valid := valid + [now];
      history := history[ip := valid];
      limited := false;
    }
  }

  // ---------------------------------------------------------------- the middleware limiter

  const MAX_PER_MINUTE: int := 100

  function IpStep(t: Table, ip: string, limit: int, now: int): (Table, bool) {
    var active := Recent(Get(t, ip), now - WINDOW);
    if |active| >= limit then (t, true) else (t[ip := active + [now]], false)
  }

  class IpRateLimiter {
    var limits: Table

    constructor ()
      ensures limits == map[]
    {
      limits := map[];
    }

    /** True when the request is answered with 429; the rebuilt list is then dropped. */
    method RateLimit(ip: string, now: int) returns (limited: bool)
      modifies this
      ensures (limits, limited) == IpStep(old(limits), ip, 100, now)
      ensures var active := Recent(Get(old(limits), ip), now - 60_000_000_000);
              && limited == (|active| >= 100)
              && limits == if limited then old(limits) else old(limits)[ip := active + [now]]
    {
      var cutoff := now - WINDOW;
      var all := Get(limits, ip);
      var active: seq<int> := [];
      for i := 0 to |all|
        invariant active == Recent(all[..i], cutoff)
      {
        assert all[..i + 1][..i] == all[..i];
        if all[i] > cutoff {
          active := active + [all[i]];
        }
      }
      assert all[..|all|] == all;
      if |active| >= MAX_PER_MINUTE {
        return true;
      }
      active := active + [now];
      limits := limits[ip := active];
      limited := false;
    }
  }

  // ---------------------------------------------------------------- both refine the specification

  datatype Kind = Admin | Ip

  function Step(kind: Kind, t: Table, limit: int, r: Request): (Table, bool) {
    if kind.Admin? then AdminStep(t, r.ip, limit, r.at) else IpStep(t, r.ip, limit, r.at)
  }

  /** The table after a trace. */
  function Run(kind: Kind, limit: int, trace: seq<Request>): Table {
    if trace == [] then map[]
    else Step(kind, Run(kind, limit, trace[..|trace| - 1]), limit, trace[|trace| - 1]).0
  }

  /** Whether request `k` of a trace is let through. */
  predicate LetsThrough(kind: Kind, limit: int, trace: seq<Request>, k: nat)
    requires k < |trace|
  {
    !Step(kind, Run(kind, limit, trace[..k]), limit, trace[k]).1
  }

  /** From `floor` on the table answers like the log. */
  ghost predicate Answers(t: Table, log: seq<Request>, floor: int) {
    forall ip: string, c: int :: c >= floor ==> Recent(Get(t, ip), c) == Recent(TimesOf(log, ip), c)
  }

  lemma {:induction false} RecentRecent(ts: seq<int>, a: int, b: int)
    requires a <= b
    ensures Recent(Recent(ts, a), b) == Recent(ts, b)
  {
    if ts != [] {
      var n := |ts| - 1;
      RecentRecent(ts[..n], a, b);
      if ts[n] > a {
        RecentSnoc(Recent(ts[..n], a), ts[n], b);
      } else {
        assert Recent(ts, a) == Recent(ts[..n], a);
        assert Recent(ts, b) == Recent(ts[..n], b);
      }
    }
  }

  lemma RecentSnoc(ts: seq<int>, t: int, c: int)
    ensures Recent(ts + [t], c) == if t > c then Recent(ts, c) + [t] else Recent(ts, c)
  {
  }

  lemma TimesOfSnoc(log: seq<Request>, r: Request, ip: string)
    ensures TimesOf(log + [r], ip) == if r.ip == ip then TimesOf(log, ip) + [r.at] else TimesOf(log, ip)
  {
  }

  /** One step of either limiter decides like the specification and keeps the correspondence. */
  lemma StepRefines(kind: Kind, t: Table, log: seq<Request>, floor: int, limit: int, r: Request)
    requires Answers(t, log, floor) && r.at - WINDOW >= floor
    ensures Step(kind, t, limit, r).1 <==> !Admits(log, limit, r)
    ensures Answers(Step(kind, t, limit, r).0, if Admits(log, limit, r) then log + [r] else log, r.at - WINDOW)
  {
    hide Recent, TimesOf;
    var cutoff := r.at - WINDOW;
    var t' := Step(kind, t, limit, r).0;
    var log' := if Admits(log, limit, r) then log + [r] else log;
    var valid := Recent(Get(t, r.ip), cutoff);
    assert valid == Recent(TimesOf(log, r.ip), cutoff);
    forall ip: string, c: int | c >= cutoff
      ensures Recent(Get(t', ip), c) == Recent(TimesOf(log', ip), c)
    {
      assert Recent(Get(t, ip), c) == Recent(TimesOf(log, ip), c);
      RecentRecent(Get(t, r.ip), cutoff, c);
      RecentSnoc(valid, r.at, c);
      TimesOfSnoc(log, r, ip);
      RecentSnoc(TimesOf(log, ip), r.at, c);
    }
  }

  lemma {:induction false} RunRefines(kind: Kind, limit: int, trace: seq<Request>, floor: int)
    requires NonDecreasing(trace)
    requires trace != [] ==> floor >= trace[|trace| - 1].at - WINDOW
    ensures Answers(Run(kind, limit, trace), Admitted(limit, trace), floor)
    decreases |trace|
  {
    hide Step, Admits;
    if trace != [] {
      var n := |trace| - 1;
      RunRefines(kind, limit, trace[..n], trace[n].at - WINDOW);
      var before := trace[..n];
      StepRefines(kind, Run(kind, limit, before), Admitted(limit, before), trace[n].at - WINDOW, limit, trace[n]);
    }
  }

  /** On every trace with a non-decreasing clock both limiters decide every request like the
      specification, hence like each other. */
  lemma LimitersAgree(limit: int, trace: seq<Request>, k: nat)
    requires NonDecreasing(trace) && k < |trace|
    ensures LetsThrough(Admin, limit, trace, k) <==> Admits(Admitted(limit, trace[..k]), limit, trace[k])
    ensures LetsThrough(Ip, limit, trace, k) <==> Admits(Admitted(limit, trace[..k]), limit, trace[k])
  {
    hide Step, Admits, Answers;
    var floor := trace[k].at - WINDOW;
    RunRefines(Admin, limit, trace[..k], floor);
    RunRefines(Ip, limit, trace[..k], floor);
    StepRefines(Admin, Run(Admin, limit, trace[..k]), Admitted(limit, trace[..k]), floor, limit, trace[k]);
    StepRefines(Ip, Run(Ip, limit, trace[..k]), Admitted(limit, trace[..k]), floor, limit, trace[k]);
  }

  // ---------------------------------------------------------------- what the specification promises

  /** How many instants lie in the window (end - 1 minute, end]. */
  function InWindow(ts: seq<int>, end: int): nat {
    if ts == [] then 0
    else InWindow(ts[..|ts| - 1], end) + if end - WINDOW < ts[|ts| - 1] <= end then 1 else 0
  }

  lemma {:induction false} InWindowBound(ts: seq<int>, end: int, cutoff: int)
    requires cutoff <= end - WINDOW
    ensures InWindow(ts, end) <= |Recent(ts, cutoff)|
  {
    if ts != [] { InWindowBound(ts[..|ts| - 1], end, cutoff); }
  }

  lemma InWindowSnoc(ts: seq<int>, t: int, end: int)
    ensures InWindow(ts + [t], end) == InWindow(ts, end) + if end - WINDOW < t <= end then 1 else 0
  {
  }

  lemma NoTimes(ip: string, end: int)
    ensures TimesOf([], ip) == [] && InWindow([], end) == 0
  {
  }

  /** In every one-minute window every client has at most `limit` admitted requests. */
  lemma {:induction false} WindowBound(limit: int, trace: seq<Request>, ip: string, end: int)
    requires NonDecreasing(trace)
    ensures InWindow(TimesOf(Admitted(limit, trace), ip), end) <= if limit > 0 then limit else 0
    decreases |trace|
  {
    hide Recent, TimesOf, InWindow;
    if trace == [] {
      NoTimes(ip, end);
    } else {
      var n := |trace| - 1;
      var log, r := Admitted(limit, trace[..n]), trace[n];
      WindowBound(limit, trace[..n], ip, end);
      if Admits(log, limit, r) {
        TimesOfSnoc(log, r, ip);
        if r.ip == ip {
          InWindowSnoc(TimesOf(log, ip), r.at, end);
          if r.at <= end {
            InWindowBound(TimesOf(log, ip), end, r.at - WINDOW);
          }
        }
      }
    }
  }

  /** The requests of one client. */
  function Project(trace: seq<Request>, ip: string): seq<Request> {
    if trace == [] then []
    else
      var n := |trace| - 1;
      Project(trace[..n], ip) + if trace[n].ip == ip then [trace[n]] else []
  }

  lemma {:induction false} ProjectedAdmissions(limit: int, trace: seq<Request>, ip: string)
    ensures TimesOf(Admitted(limit, trace), ip) == TimesOf(Admitted(limit, Project(trace, ip)), ip)
    decreases |trace|
  {
    hide Recent, TimesOf;
    if trace != [] {
      var n := |trace| - 1;
      var log, r := Admitted(limit, trace[..n]), trace[n];
      var p := Project(trace[..n], ip);
      ProjectedAdmissions(limit, trace[..n], ip);
      TimesOfSnoc(log, r, ip);
      if r.ip == ip {
        assert (p + [r])[..|p|] == p;
        TimesOfSnoc(Admitted(limit, p), r, ip);
      } else {
        assert p + [] == p;
      }
    }
  }

  /** What is decided for a client is decided from its own requests alone. */
  lemma ClientsAreIndependent(limit: int, trace: seq<Request>, k: nat)
    requires k < |trace|
    ensures Admits(Admitted(limit, trace[..k]), limit, trace[k]) <==>
            Admits(Admitted(limit, Project(trace[..k], trace[k].ip)), limit, trace[k])
  {
    ProjectedAdmissions(limit, trace[..k], trace[k].ip);
  }

  // ---------------------------------------------------------------- what the limiters promise

  /** The requests a limiter lets through. */
  function Through(kind: Kind, limit: int, trace: seq<Request>): seq<Request> {
    if trace == [] then []
    else
      var n := |trace| - 1;
      Through(kind, limit, trace[..n]) + if LetsThrough(kind, limit, trace, n) then [trace[n]] else []
  }

  lemma {:induction false} ThroughIsAdmitted(kind: Kind, limit: int, trace: seq<Request>)
    requires NonDecreasing(trace)
    ensures Through(kind, limit, trace) == Admitted(limit, trace)
    decreases |trace|
  {
    hide LetsThrough, Admits;
    if trace != [] {
      var n := |trace| - 1;
      ThroughIsAdmitted(kind, limit, trace[..n]);
      LimitersAgree(limit, trace, n);
    }
  }

  /** Either limiter lets at most `limit` requests of a client through in every window of a minute,
      wherever the window ends. */
  lemma LimiterWindowBound(kind: Kind, limit: int, trace: seq<Request>, ip: string, end: int)
    requires NonDecreasing(trace)
    ensures InWindow(TimesOf(Through(kind, limit, trace), ip), end) <= if limit > 0 then limit else 0
  {
    ThroughIsAdmitted(kind, limit, trace);
    WindowBound(limit, trace, ip, end);
  }

  lemma {:induction false} ProjectKeepsOrder(trace: seq<Request>, ip: string, last: int)
    requires NonDecreasing(trace) && forall i :: 0 <= i < |trace| ==> trace[i].at <= last
    ensures NonDecreasing(Project(trace, ip))
    ensures forall i :: 0 <= i < |Project(trace, ip)| ==> Project(trace, ip)[i].at <= last
    decreases |trace|
  {
    if trace != [] {
      var n := |trace| - 1;
      ProjectKeepsOrder(trace[..n], ip, trace[n].at);
    }
  }

  /** Either limiter decides a request as if its client were the only one. */
  lemma LimiterIgnoresOthers(kind: Kind, limit: int, trace: seq<Request>, k: nat)
    requires NonDecreasing(trace) && k < |trace|
    ensures var own := Project(trace[..k], trace[k].ip) + [trace[k]];
            LetsThrough(kind, limit, trace, k) <==> LetsThrough(kind, limit, own, |own| - 1)
  {
    var r := trace[k];
    var before := Project(trace[..k], r.ip);
    var own := before + [r];
    ProjectKeepsOrder(trace[..k], r.ip, r.at);
    hide LetsThrough, Admits, Project;
    assert own[..|own| - 1] == before;
    LimitersAgree(limit, trace, k);
    LimitersAgree(limit, own, |own| - 1);
    ClientsAreIndependent(limit, trace, k);
  }

  // ---------------------------------------------------------------- the decision, counted

  /** The earlier requests of the client that were let through less than sixty seconds before. */
  ghost function PassedRecently(kind: Kind, limit: int, trace: seq<Request>, k: nat): set<nat>
    requires k < |trace|
  {
    PassedSince(kind, limit, trace, k, trace[k].ip, trace[k].at - 60_000_000_000)
  }

  ghost predicate Passes(kind: Kind, limit: int, trace: seq<Request>, j: nat, ip: string, cutoff: int)
    requires j < |trace|
  {
    trace[j].ip == ip && LetsThrough(kind, limit, trace, j) && trace[j].at > cutoff
  }

  ghost function PassedSince(kind: Kind, limit: int, trace: seq<Request>, n: nat, ip: string, cutoff: int): set<nat>
    requires n <= |trace|
  {
    set j: nat | j < n && Passes(kind, limit, trace, j, ip, cutoff)
  }

  lemma {:induction false} CountedThrough(kind: Kind, limit: int, trace: seq<Request>, n: nat, ip: string, cutoff: int)
    requires n <= |trace|
    ensures |Recent(TimesOf(Through(kind, limit, trace[..n]), ip), cutoff)| ==
            |PassedSince(kind, limit, trace, n, ip, cutoff)|
  {
    hide Recent, TimesOf, LetsThrough, Through, PassedSince;
    if n == 0 {
      NothingThrough(ip, cutoff);
      NothingPassed(kind, limit, trace, ip, cutoff);
    } else {
      var m := n - 1;
      CountedThrough(kind, limit, trace, m, ip, cutoff);
      ThroughAt(kind, limit, trace, n);
      PassedAt(kind, limit, trace, n, ip, cutoff);
      var log := Through(kind, limit, trace[..m]);
      TimesOfSnoc(log, trace[m], ip);
      RecentSnoc(TimesOf(log, ip), trace[m].at, cutoff);
    }
  }

  lemma NothingPassed(kind: Kind, limit: int, trace: seq<Request>, ip: string, cutoff: int)
    ensures PassedSince(kind, limit, trace, 0, ip, cutoff) == {} && Through(kind, limit, trace[..0]) == []
  {
  }

  lemma {:induction false} PassedAt(kind: Kind, limit: int, trace: seq<Request>, n: nat, ip: string, cutoff: int)
    requires 0 < n <= |trace|
    ensures |PassedSince(kind, limit, trace, n, ip, cutoff)| ==
            |PassedSince(kind, limit, trace, n - 1, ip, cutoff)| +
            if Passes(kind, limit, trace, n - 1, ip, cutoff) then 1 else 0
  {
    hide Passes;
    var before := PassedSince(kind, limit, trace, n - 1, ip, cutoff);
    if Passes(kind, limit, trace, n - 1, ip, cutoff) {
      assert PassedSince(kind, limit, trace, n, ip, cutoff) == before + {n - 1};
    } else {
      assert PassedSince(kind, limit, trace, n, ip, cutoff) == before;
    }
  }

  lemma {:induction false} ThroughAt(kind: Kind, limit: int, trace: seq<Request>, n: nat)
    requires 0 < n <= |trace|
    ensures Through(kind, limit, trace[..n]) ==
            if LetsThrough(kind, limit, trace, n - 1) then Through(kind, limit, trace[..n - 1]) + [trace[n - 1]]
            else Through(kind, limit, trace[..n - 1])
  {
    SamePrefixDecides(kind, limit, trace, n);
    hide LetsThrough;
    assert trace[..n][..n - 1] == trace[..n - 1] && trace[..n][n - 1] == trace[n - 1];
  }

  lemma NothingThrough(ip: string, cutoff: int)
    ensures Recent(TimesOf([], ip), cutoff) == []
  {
  }

  lemma SamePrefixDecides(kind: Kind, limit: int, trace: seq<Request>, n: nat)
    requires 0 < n <= |trace|
    ensures LetsThrough(kind, limit, trace[..n], n - 1) == LetsThrough(kind, limit, trace, n - 1)
  {
    assert trace[..n][..n - 1] == trace[..n - 1];
  }

  /** Either limiter lets a request through if and only if fewer than `limit` requests of its client
      were let through in the sixty seconds before it. */
  lemma LetsThroughIff(kind: Kind, limit: int, trace: seq<Request>, k: nat)
    requires NonDecreasing(trace) && k < |trace|
    ensures LetsThrough(kind, limit, trace, k) <==> |PassedRecently(kind, limit, trace, k)| < limit
  {
    hide LetsThrough, Recent, TimesOf;
    LimitersAgree(limit, trace, k);
    ThroughIsAdmitted(kind, limit, trace[..k]);
    CountedThrough(kind, limit, trace, k, trace[k].ip, trace[k].at - WINDOW);
  }

  /** Of the requests a client makes within sixty seconds, the first hundred pass and no other. */
  lemma {:induction false} HundredPass(kind: Kind, trace: seq<Request>, k: nat)
    requires NonDecreasing(trace) && k < |trace| && trace[k].at - trace[0].at < 60_000_000_000
    requires forall j :: 0 <= j < |trace| ==> trace[j].ip == trace[0].ip
    ensures LetsThrough(kind, 100, trace, k) <==> k < 100
    decreases k
  {
    hide LetsThrough;
    LetsThroughIff(kind, 100, trace, k);
    forall j | 0 <= j < k
      ensures LetsThrough(kind, 100, trace, j) <==> j < 100
    {
      HundredPass(kind, trace, j);
    }
    var first := if k < 100 then k else 100;
    CountIndices(first);
    assert PassedRecently(kind, 100, trace, k) == FirstIndices(first);
  }

  ghost function FirstIndices(n: nat): set<nat> {
    if n == 0 then {} else FirstIndices(n - 1) + {n - 1}
  }

  lemma {:induction false} CountIndices(n: nat)
    ensures |FirstIndices(n)| == n && forall j: nat :: j in FirstIndices(n) <==> j < n
  {
    if n > 0 { CountIndices(n - 1); }
  }
}
