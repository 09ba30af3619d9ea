/** Hot reload: instances are started, probed and swapped behind a TCP proxy while connections
    come in. Every step below is one action of one of the goroutines involved; instances do not
    exit unless they are told to. */
module HotReload {
  import opened Options

  type Id = nat

  /** What has happened to a started process. */
  datatype Instance = Instance(probed: bool, interrupted: bool, killed: bool)

  const PROBES: nat := 20

  /** Where the reload loop is: nothing started yet, waiting for a file change, probing a new
      process, holding one that passed, past the change of the proxy target, or out of the program. */
  datatype Pc =
    | Starting
    | Watching
    | Probing(id: Id, tries: nat)
    | Passed(id: Id)
    | Swapped(id: Id)
    | Exited

  /** The goroutine that retires an old process. */
  datatype Retiring = ToInterrupt | Grace | Retired

  /** A client connection: accepted, with the target address read, and after the dial. */
  datatype Conn = Accepted | HasTarget(id: Id) | Connected(id: Id) | Refused(id: Id)

  datatype State = State(
    instances: map<Id, Instance>,
    pc: Pc,
    target: Option<Id>,
    current: Option<Id>,
    retiring: map<Id, Retiring>,
    conns: map<nat, Conn>
  )

  const INITIAL: State := State(map[], Starting, None, None, map[], map[])

  /** The proxy listens from the first successful start on. */
  predicate Up(s: State) {
    s.target.Some?
  }

  datatype Step =
    | BuildFails
    | Launch(id: Id)
    | ProbeMisses
    | ProbeFails
    | ProbeHits
    | ProxyStarts
    | ProxyFails
    | SetTarget
    | Promote
    | Interrupt(id: Id)
    | InterruptFails(id: Id)
    | ExitsInGrace(id: Id)
    | GraceExpires(id: Id)
    | Accept(conn: nat)
    | ReadTarget(conn: nat)
    | Dial(conn: nat, ok: bool)

  predicate Enabled(s: State, step: Step) {
    match step
    case BuildFails => s.pc.Starting? || s.pc.Watching?
    case Launch(id) => (s.pc.Starting? || s.pc.Watching?) && id !in s.instances
    case ProbeMisses => s.pc.Probing? && s.pc.tries + 1 < PROBES
    case ProbeFails => s.pc.Probing? && s.pc.tries + 1 >= PROBES && s.pc.id in s.instances
    case ProbeHits => s.pc.Probing? && s.pc.id in s.instances
    case ProxyStarts => s.pc.Passed? && !Up(s)
    case ProxyFails => s.pc.Passed? && !Up(s) && s.pc.id in s.instances
    case SetTarget => s.pc.Passed? && Up(s)
    case Promote => s.pc.Swapped? && s.current.Some?
    case Interrupt(id) => id in s.retiring && s.retiring[id].ToInterrupt? && id in s.instances
    case InterruptFails(id) => id in s.retiring && s.retiring[id].ToInterrupt? && id in s.instances
    case ExitsInGrace(id) => id in s.retiring && s.retiring[id].Grace? && id in s.instances
    case GraceExpires(id) => id in s.retiring && s.retiring[id].Grace? && id in s.instances
    case Accept(c) => Up(s) && c !in s.conns
    case ReadTarget(c) => c in s.conns && s.conns[c].Accepted? && Up(s)
    case Dial(c, ok) =>
      && c in s.conns && s.conns[c].HasTarget? && s.conns[c].id in s.instances
      && if ok then !s.instances[s.conns[c].id].killed
         else s.instances[s.conns[c].id].interrupted || s.instances[s.conns[c].id].killed
  }

  function Kill(s: State, id: Id): State
    requires id in s.instances
  {
    s.(instances := s.instances[id := s.instances[id].(killed := true)])
  }

  function Apply(s: State, step: Step): State
    requires Enabled(s, step)
  {
    match step
    case BuildFails => if s.pc.Starting? then s.(pc := Exited) else s
    case Launch(id) => s.(instances := s.instances[id := Instance(false, false, false)], pc := Probing(id, 0))
    case ProbeMisses => s.(pc := Probing(s.pc.id, s.pc.tries + 1))
    case ProbeFails => Kill(s, s.pc.id).(pc := if Up(s) then Watching else Exited)
    case ProbeHits =>
      s.(instances := s.instances[s.pc.id := s.instances[s.pc.id].(probed := true)], pc := Passed(s.pc.id))
    case ProxyStarts => s.(target := Some(s.pc.id), current := Some(s.pc.id), pc := Watching)
    case ProxyFails => Kill(s, s.pc.id).(pc := Exited)
    case SetTarget => s.(target := Some(s.pc.id), pc := Swapped(s.pc.id))
    case Promote =>
      s.(retiring := s.retiring[s.current.value := ToInterrupt], current := Some(s.pc.id), pc := Watching)
    case Interrupt(id) =>
      s.(instances := s.instances[id := s.instances[id].(interrupted := true)], retiring := s.retiring[id := Grace])
    case InterruptFails(id) => Kill(s, id).(retiring := s.retiring[id := Grace])
    case ExitsInGrace(id) => Kill(s, id).(retiring := s.retiring[id := Retired])
    case GraceExpires(id) => Kill(s, id).(retiring := s.retiring[id := Retired])
    case Accept(c) => s.(conns := s.conns[c := Accepted])
    case ReadTarget(c) => s.(conns := s.conns[c := HasTarget(s.target.value)])
    case Dial(c, ok) =>
      s.(conns := s.conns[c := if ok then Connected(s.conns[c].id) else Refused(s.conns[c].id)])
  }

  ghost predicate Run(states: seq<State>, steps: seq<Step>) {
    && |states| == |steps| + 1
    && forall i :: 0 <= i < |steps| ==> Enabled(states[i], steps[i]) && states[i + 1] == Apply(states[i], steps[i])
  }

  // ---------------------------------------------------------------- what every state satisfies

  /** Passed the listen probe, and neither interrupted nor killed. */
  ghost predicate Serving(s: State, id: Id) {
    id in s.instances && s.instances[id] == Instance(true, false, false)
  }

  /** The proxy target and the current process serve; they differ only between the change of the
      target and the promotion of the new process. */
  ghost predicate TargetServes(s: State) {
    && (s.target.Some? <==> s.current.Some?)
    && (Up(s) ==> Serving(s, s.target.value) && Serving(s, s.current.value))
    && (Up(s) ==> s.target.value !in s.retiring && s.current.value !in s.retiring)
    && (s.pc.Swapped? ==> s.target == Some(s.pc.id) && s.current.Some? && s.current != s.target)
    && (!s.pc.Swapped? ==> s.target == s.current)
    && (s.pc.Passed? ==> Serving(s, s.pc.id) && s.current != Some(s.pc.id) && s.pc.id !in s.retiring)
    && (s.pc.Probing? ==> s.pc.id in s.instances && s.instances[s.pc.id] == Instance(false, false, false) &&
                          s.current != Some(s.pc.id) && s.pc.id !in s.retiring && s.pc.tries < PROBES)
    && (s.pc.Watching? ==> Up(s)) && (s.pc.Starting? ==> s == INITIAL)
    && (s.pc.Exited? ==> !Up(s))
  }

  /** Superseded processes: they served once and are interrupted, or about to be. */
  ghost predicate RetiringSound(s: State) {
    forall id :: id in s.retiring ==>
      id in s.instances && s.instances[id].probed &&
      (s.retiring[id].ToInterrupt? <==> s.instances[id] == Instance(true, false, false)) &&
      (s.retiring[id].Retired? ==> s.instances[id].killed)
  }

  ghost predicate InUse(s: State, id: Id) {
    s.target == Some(id) || s.current == Some(id)
  }

  ghost predicate BeingProbed(s: State, id: Id) {
    s.pc.Probing? && s.pc.id == id
  }

  ghost predicate Discarded(s: State, id: Id)
    requires id in s.instances
  {
    id !in s.retiring && s.instances[id].killed
  }

  function One(b: bool): nat {
    if b then 1 else 0
  }

  /** A started process is in exactly one situation: it is being probed, awaits the swap, is in use,
      has been superseded (interrupted, or about to be), or was killed without having been in use. */
  ghost predicate Accounted(s: State, id: Id)
    requires id in s.instances
  {
    1 == One(BeingProbed(s, id)) + One(s.pc == Passed(id)) + One(InUse(s, id)) + One(id in s.retiring) +
         One(Discarded(s, id))
  }

  ghost predicate AllAccounted(s: State) {
    forall id :: id in s.instances ==> Accounted(s, id)
  }

  /** A connection only ever holds the address of a process that passed the probe, and is refused
      only by one that has been superseded meanwhile. */
  ghost predicate ConnsSound(s: State) {
    forall c :: c in s.conns ==>
      match s.conns[c]
      case Accepted => true
      case HasTarget(id) => Once(s, id)
      case Connected(id) => Once(s, id)
      case Refused(id) => Once(s, id) && id in s.retiring
  }

  /** The process is or was the proxy target. */
  ghost predicate Once(s: State, id: Id) {
    s.target == Some(id) || s.current == Some(id) || id in s.retiring
  }

  ghost predicate Invariant(s: State) {
    TargetServes(s) && RetiringSound(s) && AllAccounted(s) && ConnsSound(s)
  }

  lemma StepKeepsTarget(s: State, step: Step)
    requires TargetServes(s) && RetiringSound(s) && Enabled(s, step)
    ensures TargetServes(Apply(s, step))
  {
  }

  lemma StepKeepsRetiring(s: State, step: Step)
    requires TargetServes(s) && RetiringSound(s) && Enabled(s, step)
    ensures RetiringSound(Apply(s, step))
  {
  }

  lemma StepKeepsAccounts(s: State, step: Step)
    requires Invariant(s) && Enabled(s, step)
    ensures AllAccounted(Apply(s, step))
  {
    forall id | id in Apply(s, step).instances
      ensures Accounted(Apply(s, step), id)
    {
      StepKeepsAccount(s, step, id);
    }
  }

  lemma StepKeepsAccount(s: State, step: Step, id: Id)
    requires TargetServes(s) && RetiringSound(s) && Enabled(s, step) && id in Apply(s, step).instances
    requires id in s.instances ==> Accounted(s, id)
    ensures Accounted(Apply(s, step), id)
  {
  }

  lemma StepKeepsConns(s: State, step: Step)
    requires Invariant(s) && Enabled(s, step)
    ensures ConnsSound(Apply(s, step))
  {
  }

  /** In every reachable state the invariant holds. */
  lemma {:induction false} RunKeepsInvariant(states: seq<State>, steps: seq<Step>, k: nat)
    requires Run(states, steps) && states[0] == INITIAL && k < |states|
    ensures Invariant(states[k])
  {
    if k > 0 {
      RunKeepsInvariant(states, steps, k - 1);
      assert states[k - 1 + 1] == Apply(states[k - 1], steps[k - 1]);
      StepKeepsTarget(states[k - 1], steps[k - 1]);
      StepKeepsRetiring(states[k - 1], steps[k - 1]);
      StepKeepsAccounts(states[k - 1], steps[k - 1]);
      StepKeepsConns(states[k - 1], steps[k - 1]);
    }
  }

  /** Once the proxy is up, in every reachable state its target has passed the probe and has been
      neither interrupted nor killed. */
  lemma TargetAlwaysServes(states: seq<State>, steps: seq<Step>, k: nat)
    requires Run(states, steps) && states[0] == INITIAL && k < |states| && Up(states[k])
    ensures Serving(states[k], states[k].target.value)
  {
    RunKeepsInvariant(states, steps, k);
  }

  /** A connection that holds an address can be refused if and only if the process behind it has been
      superseded and its interrupt has gone out; being replaced alone is not enough. */
  lemma RefusableIffInterrupted(states: seq<State>, steps: seq<Step>, k: nat, c: nat)
    requires Run(states, steps) && states[0] == INITIAL && k < |states|
    requires c in states[k].conns && states[k].conns[c].HasTarget?
    ensures var s := states[k]; var id := s.conns[c].id;
            Enabled(s, Dial(c, false)) <==> id in s.retiring && !s.retiring[id].ToInterrupt?
  {
    RunKeepsInvariant(states, steps, k);
  }

  /** In particular a connection that holds the current target gets through. */
  lemma RefusedOnlyIfReplaced(states: seq<State>, steps: seq<Step>, k: nat, c: nat)
    requires Run(states, steps) && states[0] == INITIAL && k < |steps| && steps[k] == Dial(c, false)
    ensures states[k].target != Some(states[k].conns[c].id)
    ensures states[k].conns[c].id in states[k].retiring
  {
    RunKeepsInvariant(states, steps, k);
    assert Enabled(states[k], steps[k]);
  }

  /** A connection dials what the target was when it read it. */
  lemma {:induction false} DialsWhatItRead(states: seq<State>, steps: seq<Step>, k: nat, m: nat, c: nat, ok: bool)
    requires Run(states, steps) && k < m < |steps| && steps[k] == ReadTarget(c) && steps[m] == Dial(c, ok)
    ensures var id := states[k].target.value;
            states[m].conns[c] == HasTarget(id) && states[m + 1].conns[c] == if ok then Connected(id) else Refused(id)
  {
    assert Enabled(states[k], steps[k]) && states[k + 1] == Apply(states[k], steps[k]);
    HeldOrDialled(states, steps, k + 1, m, c);
    assert Enabled(states[m], steps[m]) && states[m + 1] == Apply(states[m], steps[m]);
  }

  lemma {:induction false} HeldOrDialled(states: seq<State>, steps: seq<Step>, k: nat, m: nat, c: nat)
    requires Run(states, steps) && k <= m < |states| && c in states[k].conns && states[k].conns[c].HasTarget?
    ensures c in states[m].conns && !states[m].conns[c].Accepted? && states[m].conns[c].id == states[k].conns[c].id
    decreases m
  {
    if m > k {
      HeldOrDialled(states, steps, k, m - 1, c);
      assert Enabled(states[m - 1], steps[m - 1]) && states[m - 1 + 1] == Apply(states[m - 1], steps[m - 1]);
    }
  }

  /** A superseded process whose grace period is over has been killed, whether it went by itself or
      not; and from every state it can get there in at most two steps of its own. */
  lemma RetiredIsKilled(states: seq<State>, steps: seq<Step>, k: nat, id: Id)
    requires Run(states, steps) && states[0] == INITIAL && k < |states| && id in states[k].retiring
    ensures var s := states[k];
            match s.retiring[id]
            case Retired => Gone(s, id)
            case Grace => Enabled(s, GraceExpires(id)) && Gone(Apply(s, GraceExpires(id)), id)
            case ToInterrupt => Enabled(s, Interrupt(id)) &&
                                var s' := Apply(s, Interrupt(id));
                                Enabled(s', GraceExpires(id)) && Gone(Apply(s', GraceExpires(id)), id)
  {
    RunKeepsInvariant(states, steps, k);
  }

  ghost predicate Gone(s: State, id: Id) {
    id in s.retiring && s.retiring[id].Retired? && id in s.instances && s.instances[id].killed
  }

  /** A new process is given up after twenty probes: nineteen misses, and one more. */
  lemma GivenUpAfterTwenty(states: seq<State>, steps: seq<Step>, j: nat, k: nat, id: Id)
    requires Run(states, steps) && states[0] == INITIAL && j < k < |steps| && steps[j] == Launch(id)
    requires steps[k] == ProbeFails && forall i :: j < i <= k ==> states[i].pc.Probing?
    ensures states[k].pc == Probing(id, 19) && Misses(steps, j + 1, k) == 19
  {
    assert Enabled(states[j], steps[j]) && states[j + 1] == Apply(states[j], steps[j]);
    MissesCounted(states, steps, j + 1, k, id);
    RunKeepsInvariant(states, steps, k);
    assert Enabled(states[k], steps[k]);
  }

  function Misses(steps: seq<Step>, j: nat, k: nat): nat
    requires j <= k <= |steps|
  {
    if j == k then 0 else Misses(steps, j, k - 1) + if steps[k - 1] == ProbeMisses then 1 else 0
  }

  lemma {:induction false} MissesCounted(states: seq<State>, steps: seq<Step>, j: nat, k: nat, id: Id)
    requires Run(states, steps) && j <= k <= |steps| && states[j].pc == Probing(id, 0)
    requires forall i :: j <= i <= k ==> states[i].pc.Probing?
    ensures states[k].pc == Probing(id, Misses(steps, j, k))
    decreases k
  {
    if k > j {
      MissesCounted(states, steps, j, k - 1, id);
      assert Enabled(states[k - 1], steps[k - 1]) && states[k - 1 + 1] == Apply(states[k - 1], steps[k - 1]);
    }
  }

  const SERVING: State :=
    State(map[0 := Instance(true, false, false)], Watching, Some(0), Some(0), map[], map[0 := HasTarget(0)])

  lemma FirstConnection() returns (states: seq<State>, steps: seq<Step>)
    ensures Run(states, steps) && states != [] && states[0] == INITIAL && states[|states| - 1] == SERVING
  {
    hide Run;
    states, steps := Begin();
    states, steps := Extend(states, steps, Launch(0));
    states, steps := Extend(states, steps, ProbeHits);
    states, steps := Extend(states, steps, ProxyStarts);
    states, steps := Extend(states, steps, Accept(0));
    states, steps := Extend(states, steps, ReadTarget(0));
  }

  /** A connection can be refused: its target is read, the swap happens, the old process goes. */
  lemma RefusalHappens() returns (states: seq<State>, steps: seq<Step>)
    ensures Run(states, steps) && states[0] == INITIAL
    ensures steps != [] && steps[|steps| - 1] == Dial(0, false)
  {
    hide Run;
    states, steps := FirstConnection();
    states, steps := Extend(states, steps, Launch(1));
    states, steps := Extend(states, steps, ProbeHits);
    states, steps := Extend(states, steps, SetTarget);
    states, steps := Extend(states, steps, Promote);
    states, steps := Extend(states, steps, Interrupt(0));
    states, steps := Extend(states, steps, Dial(0, false));
  }

  lemma Begin() returns (states: seq<State>, steps: seq<Step>)
    ensures states == [INITIAL] && steps == [] && Run(states, steps)
  {
    states, steps := [INITIAL], [];
  }

  lemma Extend(states: seq<State>, steps: seq<Step>, step: Step) returns (states': seq<State>, steps': seq<Step>)
    requires Run(states, steps) && Enabled(states[|states| - 1], step)
    ensures Run(states', steps') && states' != [] && states'[0] == states[0] && steps' == steps + [step]
    ensures states'[|states'| - 1] == Apply(states[|states| - 1], step)
  {
    states', steps' := states + [Apply(states[|states| - 1], step)], steps + [step];
  }

  /** A reload that fails, from the launch to the kill and with anything interleaved, changes
      neither the target nor the current process, and leaves the new one killed. */
  lemma {:induction false} FailedReloadChangesNothing(states: seq<State>, steps: seq<Step>, i: nat, j: nat)
    requires Run(states, steps) && states[0] == INITIAL
    requires i < j < |steps| && steps[i].Launch? && Up(states[i])
    requires forall m :: i < m < j ==> steps[m] != ProbeHits && steps[m] != ProbeFails
    requires steps[j] == ProbeFails
    ensures states[j + 1].target == states[i].target && states[j + 1].current == states[i].current
    ensures states[j + 1].pc == Watching
    ensures steps[i].id in states[j + 1].instances && states[j + 1].instances[steps[i].id].killed
  {
    ProbingKeepsTarget(states, steps, i, j);
    assert Enabled(states[j], steps[j]);
  }

  lemma {:induction false} ProbingKeepsTarget(states: seq<State>, steps: seq<Step>, i: nat, m: nat)
    requires Run(states, steps) && states[0] == INITIAL
    requires i < m <= |steps| && steps[i].Launch? && Up(states[i])
    requires forall k :: i < k < m ==> steps[k] != ProbeHits && steps[k] != ProbeFails
    ensures states[m].pc.Probing? && states[m].pc.id == steps[i].id
    ensures states[m].target == states[i].target && states[m].current == states[i].current
    decreases m
  {
    assert Enabled(states[m - 1], steps[m - 1]) && states[m - 1 + 1] == Apply(states[m - 1], steps[m - 1]);
    if m > i + 1 {
      ProbingKeepsTarget(states, steps, i, m - 1);
    }
  }
}
