/** The span buffer of the telemetry provider: span enders, the ticker loop, asynchronous exports
    and shutdown, interleaved under one mutex that is not re-entrant. */
module Telemetry {
  import opened Options

  datatype Span = Span(traceId: string, spanId: string, name: string, status: int)

  const MAX_BATCH: nat := 100

  // ---------------------------------------------------------------- critical sections

  /** Appending under the mutex: the new buffer, and the batch taken out when it got full. */
  function AppendSpan(buffer: seq<Span>, span: Span): (seq<Span>, Option<seq<Span>>) {
    var grown := buffer + [span];
    if |grown| >= MAX_BATCH then ([], Some(grown)) else (grown, None)
  }

  /** Disabling recording under the mutex: the new flag, and whether the caller is the first. */
  function Disable(enabled: bool): (bool, bool) {
    (false, enabled)
  }

  /** Taking the buffer out under the mutex: the new buffer, and the batch when there was anything. */
  function TakeSpans(buffer: seq<Span>): (seq<Span>, Option<seq<Span>>) {
    ([], if buffer == [] then None else Some(buffer))
  }

  class TelemetryProvider {
    var enabled: bool
    var spanBuffer: seq<Span>
    var closeSignalled: bool

    constructor ()
      ensures enabled && spanBuffer == [] && !closeSignalled
    {
      enabled, spanBuffer, closeSignalled := true, [], false;
    }

    /** The second half of ending a span. */
    method Append(span: Span) returns (batch: Option<seq<Span>>)
      modifies `spanBuffer
      ensures (spanBuffer, batch) == AppendSpan(old(spanBuffer), span)
      ensures |old(spanBuffer)| < 99 ==> spanBuffer == old(spanBuffer) + [span] && batch == None
      ensures |old(spanBuffer)| >= 99 ==> spanBuffer == [] && batch == Some(old(spanBuffer) + [span])
    {
      spanBuffer := spanBuffer + [span];
      if |spanBuffer| >= MAX_BATCH {
        batch := Some(spanBuffer);
        spanBuffer := [];
      } else {
        batch := None;
      }
    }

    /** A tick of the flush loop. */
    method TakeBuffered() returns (batch: Option<seq<Span>>)
      modifies `spanBuffer
      ensures (spanBuffer, batch) == TakeSpans(old(spanBuffer))
      ensures spanBuffer == []
      ensures batch == if old(spanBuffer) == [] then None else Some(old(spanBuffer))
    {
      if |spanBuffer| == 0 {
        return None;
      }
      batch := Some(spanBuffer);
      spanBuffer := [];
    }

    /** The first half of shutdown; only the first caller gets through. */
    method BeginClose() returns (first: bool)
      modifies `enabled, `closeSignalled
      ensures (enabled, first) == Disable(old(enabled))
      ensures !enabled && first == old(enabled)
      ensures closeSignalled == (old(closeSignalled) || first)
    {
      if !enabled {
        return false;
      }
      enabled := false;
      closeSignalled := true;
      first := true;
    }
  }

  // ---------------------------------------------------------------- the protocol

  /** A call that ends a span: entered, past the enabled check, or over. */
  datatype Call = Entered(span: Span) | Passed(span: Span) | Over

  datatype Loop = Selecting | Exporting(batch: seq<Span>) | Stopped

  /** Shutdown: not called, waiting for the loop, inside the final export with the mutex held, done. */
  datatype Closer = NotCalled | Waiting | Flushing | Closed

  /** `accepted` is the history of appended spans, `sent` that of batches whose export passed its
      own lock; `inFlight` are batches handed to an export that has not. `acceptedAtClose` is the
      length of the history when shutdown completed. */
  datatype State = State(
    enabled: bool,
    buffer: seq<Span>,
    calls: map<nat, Call>,
    loop: Loop,
    closer: Closer,
    inFlight: seq<seq<Span>>,
    sent: seq<seq<Span>>,
    accepted: seq<Span>,
    acceptedAtClose: nat
  )

  const INITIAL: State := State(true, [], map[], Selecting, NotCalled, [], [], [], 0)

  /** The mutex is free except while the final export of shutdown is under way: every other critical
      section is a single step. */
  predicate MutexFree(s: State) {
    s.closer != Flushing
  }

  datatype Step =
    | EndSpan(call: nat, span: Span)
    | CheckEnabled(call: nat)
    | Append(call: nat)
    | Export(i: nat)
    | Tick
    | LoopExport
    | LoopStop
    | CloseBegin
    | CloseFlush
    | CloseExport

  predicate Enabled(s: State, step: Step) {
    match step
    case EndSpan(c, _) => c !in s.calls
    case CheckEnabled(c) => MutexFree(s) && c in s.calls && s.calls[c].Entered?
    case Append(c) => MutexFree(s) && c in s.calls && s.calls[c].Passed?
    case Export(i) => MutexFree(s) && i < |s.inFlight|
    case Tick => MutexFree(s) && s.loop.Selecting?
    case LoopExport => MutexFree(s) && s.loop.Exporting?
    case LoopStop => s.loop.Selecting? && !s.enabled
    case CloseBegin => MutexFree(s)
    case CloseFlush => MutexFree(s) && s.closer.Waiting? && s.loop.Stopped?
    case CloseExport => MutexFree(s) && s.closer.Flushing?
  }

  function Apply(s: State, step: Step): State
    requires Enabled(s, step)
  {
    match step
    case EndSpan(c, span) => s.(calls := s.calls[c := Entered(span)])
    case CheckEnabled(c) =>
      s.(calls := s.calls[c := if s.enabled then Passed(s.calls[c].span) else Over])
    case Append(c) =>
      var span := s.calls[c].span;
      var (buffer, batch) := AppendSpan(s.buffer, span);
      s.(calls := s.calls[c := Over], buffer := buffer, accepted := s.accepted + [span],
         inFlight := s.inFlight + if batch.Some? then [batch.value] else [])
    case Export(i) =>
      s.(inFlight := s.inFlight[..i] + s.inFlight[i + 1..], sent := s.sent + [s.inFlight[i]])
    case Tick =>
      var (buffer, batch) := TakeSpans(s.buffer);
      s.(buffer := buffer, loop := if batch.Some? then Exporting(batch.value) else Selecting)
    case LoopExport =>
      s.(loop := Selecting, sent := s.sent + [s.loop.batch])
    case LoopStop => s.(loop := Stopped)
    case CloseBegin =>
      var (enabled, first) := Disable(s.enabled);
      s.(enabled := enabled, closer := if first then Waiting else s.closer)
    case CloseFlush =>
      if s.buffer == [] then s.(closer := Closed, acceptedAtClose := |s.accepted|) else s.(closer := Flushing)
    case CloseExport =>
      s.(closer := Closed, sent := s.sent + [s.buffer], buffer := [], acceptedAtClose := |s.accepted|)
  }

  /** A run: the states an interleaving goes through. */
  ghost predicate Run(states: seq<State>, steps: seq<Step>) {
    && |states| == |steps| + 1
    && forall i :: 0 <= i < |steps| ==> Enabled(states[i], steps[i]) && states[i + 1] == Apply(states[i], steps[i])
  }

  // ---------------------------------------------------------------- conservation

  ghost function Spans(batches: seq<seq<Span>>): multiset<Span> {
    if batches == [] then multiset{} else Spans(batches[..|batches| - 1]) + multiset(batches[|batches| - 1])
  }

  lemma SpansSnoc(batches: seq<seq<Span>>, b: seq<Span>)
    ensures Spans(batches + [b]) == Spans(batches) + multiset(b)
  {
    assert (batches + [b])[..|batches|] == batches;
  }

  lemma {:induction false} SpansWithout(batches: seq<seq<Span>>, i: nat)
    requires i < |batches|
    ensures Spans(batches) == Spans(batches[..i] + batches[i + 1..]) + multiset(batches[i])
    decreases |batches|
  {
    hide Spans;
    var n := |batches| - 1;
    assert batches == batches[..n] + [batches[n]];
    SpansSnoc(batches[..n], batches[n]);
    if i == n {
      assert batches[..i] + batches[i + 1..] == batches[..n];
    } else {
      SpansWithout(batches[..n], i);
      assert batches[..i] + batches[i + 1..] == (batches[..n][..i] + batches[..n][i + 1..]) + [batches[n]];
      SpansSnoc(batches[..n][..i] + batches[..n][i + 1..], batches[n]);
    }
  }

  ghost function InLoop(s: State): multiset<Span> {
    if s.loop.Exporting? then multiset(s.loop.batch) else multiset{}
  }

  /** Every accepted span is in the buffer, with an exporter or sent: none lost, none duplicated. */
  ghost predicate Conserved(s: State) {
    multiset(s.accepted) == multiset(s.buffer) + Spans(s.inFlight) + InLoop(s) + Spans(s.sent)
  }

  ghost predicate GoodBatch(b: seq<Span>) {
    1 <= |b| <= MAX_BATCH
  }

  /** Batches hold between one and the maximum number of spans, and the buffer is below it. */
  ghost predicate Bounded(s: State) {
    && |s.buffer| < MAX_BATCH
    && (forall b :: b in s.inFlight ==> GoodBatch(b))
    && (forall b :: b in s.sent ==> GoodBatch(b))
    && (s.loop.Exporting? ==> GoodBatch(s.loop.batch))
  }

  /** How shutdown has progressed. Spans that arrive after it has completed stay in the buffer
      until a whole batch of them is there. */
  ghost predicate Orderly(s: State) {
    && (s.enabled <==> s.closer == NotCalled)
    && (s.loop == Stopped ==> !s.enabled)
    && (s.closer == Flushing || s.closer == Closed ==> s.loop == Stopped)
    && (s.closer == Flushing ==> s.buffer != [])
    && (s.closer == Closed ==>
          s.acceptedAtClose <= |s.accepted| && |s.buffer| == (|s.accepted| - s.acceptedAtClose) % MAX_BATCH)
  }

  lemma AppendConserves(s: State, c: nat)
    requires Enabled(s, Append(c)) && Conserved(s)
    ensures Conserved(Apply(s, Append(c)))
  {
    var span := s.calls[c].span;
    var grown := s.buffer + [span];
    var s' := Apply(s, Append(c));
    assert multiset(s'.accepted) == multiset(s.accepted) + multiset{span};
    assert multiset(grown) == multiset(s.buffer) + multiset{span};
    assert s'.sent == s.sent && s'.loop == s.loop;
    if |grown| >= MAX_BATCH {
      assert s'.buffer == [] && s'.inFlight == s.inFlight + [grown];
      SpansSnoc(s.inFlight, grown);
    } else {
      assert s'.buffer == grown && s'.inFlight == s.inFlight;
    }
    hide Spans, Apply, Enabled, AppendSpan, InLoop;
    assert InLoop(s') == InLoop(s) by { SameLoop(s, s'); }
  }

  lemma SameLoop(s: State, s': State)
    requires s.loop == s'.loop
    ensures InLoop(s') == InLoop(s)
  {
  }

  lemma ExportConserves(s: State, i: nat)
    requires Enabled(s, Export(i)) && Conserved(s)
    ensures Conserved(Apply(s, Export(i)))
  {
    hide Spans;
    SpansWithout(s.inFlight, i);
    SpansSnoc(s.sent, s.inFlight[i]);
  }

  lemma StepConserves(s: State, step: Step)
    requires Enabled(s, step) && Conserved(s)
    ensures Conserved(Apply(s, step))
  {
    hide Spans, AppendSpan;
    match step {
      case Append(c) => AppendConserves(s, c);
      case Export(i) => ExportConserves(s, i);
      case LoopExport => SpansSnoc(s.sent, s.loop.batch);
      case _ =>
    }
  }

  lemma StepStaysBounded(s: State, step: Step)
    requires Enabled(s, step) && Bounded(s) && Orderly(s)
    ensures Bounded(Apply(s, step)) && Orderly(Apply(s, step))
  {
  }

  /** In every interleaving, at every moment, accepted spans are conserved and batches bounded. */
  lemma {:induction false} RunKeepsInvariant(states: seq<State>, steps: seq<Step>, k: nat)
    requires Run(states, steps) && states[0] == INITIAL && k < |states|
    ensures Conserved(states[k]) && Bounded(states[k]) && Orderly(states[k])
  {
    if k > 0 {
      RunKeepsInvariant(states, steps, k - 1);
      assert states[k - 1 + 1] == Apply(states[k - 1], steps[k - 1]);
      StepConserves(states[k - 1], steps[k - 1]);
      StepStaysBounded(states[k - 1], steps[k - 1]);
    }
  }

  // ---------------------------------------------------------------- flushing

  /** A tick empties the buffer: right after it every accepted span is with an exporter or sent, and
      what was in the buffer is what the loop exports. */
  lemma TickFlushes(states: seq<State>, steps: seq<Step>, k: nat)
    requires Run(states, steps) && states[0] == INITIAL && k < |steps| && steps[k] == Tick
    ensures var s := states[k + 1];
            && s.buffer == []
            && multiset(s.accepted) == Spans(s.inFlight) + InLoop(s) + Spans(s.sent)
            && (states[k].buffer != [] ==> s.loop == Exporting(states[k].buffer))
  {
    assert Enabled(states[k], steps[k]) && states[k + 1] == Apply(states[k], steps[k]);
    RunKeepsInvariant(states, steps, k + 1);
  }

  /** The loop holds its batch until it exports it, and then that batch is sent. */
  lemma {:induction false} LoopSends(states: seq<State>, steps: seq<Step>, k: nat, m: nat)
    requires Run(states, steps) && k <= m < |steps| && states[k].loop.Exporting?
    requires steps[m] == LoopExport && forall i :: k <= i < m ==> steps[i] != LoopExport
    ensures states[m + 1].sent == states[m].sent + [states[k].loop.batch]
    ensures states[m + 1].loop == Selecting
  {
    LoopHolds(states, steps, k, m);
    assert Enabled(states[m], steps[m]) && states[m + 1] == Apply(states[m], steps[m]);
  }

  lemma {:induction false} LoopHolds(states: seq<State>, steps: seq<Step>, k: nat, m: nat)
    requires Run(states, steps) && k <= m < |states| && states[k].loop.Exporting?
    requires forall i :: k <= i < m ==> steps[i] != LoopExport
    ensures states[m].loop == states[k].loop
    decreases m
  {
    if m > k {
      LoopHolds(states, steps, k, m - 1);
      assert Enabled(states[m - 1], steps[m - 1]) && states[m - 1 + 1] == Apply(states[m - 1], steps[m - 1]);
    }
  }

  /** A span accepted into a buffer of 99 completes a batch, which is handed to an exporter at once. */
  lemma FullBatchLeaves(states: seq<State>, steps: seq<Step>, k: nat, c: nat)
    requires Run(states, steps) && states[0] == INITIAL && k < |steps| && steps[k] == Append(c)
    ensures var s, s', span := states[k], states[k + 1], states[k].calls[c].span;
            && s'.accepted == s.accepted + [span]
            && if |s.buffer| == 99 then s'.buffer == [] && s'.inFlight == s.inFlight + [s.buffer + [span]]
               else s'.buffer == s.buffer + [span] && s'.inFlight == s.inFlight
  {
    assert Enabled(states[k], steps[k]) && states[k + 1] == Apply(states[k], steps[k]);
    RunKeepsInvariant(states, steps, k);
  }

  /** A span is recorded if and only if shutdown had not begun when its call checked. */
  lemma CheckedAgainstShutdown(states: seq<State>, steps: seq<Step>, k: nat, c: nat)
    requires Run(states, steps) && states[0] == INITIAL && k < |steps| && steps[k] == CheckEnabled(c)
    ensures var begun := exists j :: 0 <= j < k && steps[j] == CloseBegin;
            states[k + 1].calls[c] == if begun then Over else Passed(states[k].calls[c].span)
  {
    assert Enabled(states[k], steps[k]) && states[k + 1] == Apply(states[k], steps[k]);
    EnabledUntilShutdown(states, steps, k);
  }

  lemma {:induction false} EnabledUntilShutdown(states: seq<State>, steps: seq<Step>, k: nat)
    requires Run(states, steps) && states[0] == INITIAL && k < |states|
    ensures states[k].enabled <==> !exists j :: 0 <= j < k && steps[j] == CloseBegin
  {
    if k > 0 {
      EnabledUntilShutdown(states, steps, k - 1);
      assert Enabled(states[k - 1], steps[k - 1]) && states[k - 1 + 1] == Apply(states[k - 1], steps[k - 1]);
    }
  }

  // ---------------------------------------------------------------- shutdown

  lemma {:induction false} ClosedStays(states: seq<State>, steps: seq<Step>, k: nat, m: nat)
    requires Run(states, steps) && states[0] == INITIAL && k <= m < |states| && states[k].closer == Closed
    ensures states[m].closer == Closed
    decreases m
  {
    if m > k {
      ClosedStays(states, steps, k, m - 1);
      RunKeepsInvariant(states, steps, m - 1);
      assert states[m - 1 + 1] == Apply(states[m - 1], steps[m - 1]);
    }
  }

  /** In every run shutdown has returned, at whatever later moment one looks, if and only if the buffer
      was empty when it came back for the mutex; then everything accepted until that moment had been
      handed to an exporter. */
  lemma CloseCompletesIffEmpty(states: seq<State>, steps: seq<Step>, k: nat, m: nat)
    requires Run(states, steps) && states[0] == INITIAL
    requires k < |steps| && steps[k] == CloseFlush && k < m < |states|
    ensures states[m].closer == Closed <==> states[k].buffer == []
    ensures states[k].buffer == [] ==>
              multiset(states[k].accepted) == Spans(states[k].inFlight) + Spans(states[k].sent)
  {
    RunKeepsInvariant(states, steps, k);
    RunKeepsInvariant(states, steps, k + 1);
    assert Enabled(states[k], steps[k]) && states[k + 1] == Apply(states[k], steps[k]);
    if states[k].buffer == [] {
      ClosedStays(states, steps, k + 1, m);
    } else {
      CloseDeadlocks(states[k + 1..], steps[k + 1..], m - (k + 1));
    }
  }

  /** Otherwise it waits forever for the mutex it holds: from then on nothing is accepted, flushed
      or sent any more, in any continuation. */
  lemma {:induction false} CloseDeadlocks(states: seq<State>, steps: seq<Step>, k: nat)
    requires Run(states, steps) && states[0].closer == Flushing && Orderly(states[0]) && k < |states|
    ensures states[k] == states[0].(calls := states[k].calls)
  {
    if k > 0 {
      CloseDeadlocks(states, steps, k - 1);
      assert states[k - 1 + 1] == Apply(states[k - 1], steps[k - 1]);
    }
  }

  /** A span ended before shutdown, with the ticker not firing in between, gets there. */
  lemma CloseCanDeadlock(span: Span) returns (states: seq<State>, steps: seq<Step>)
    ensures Run(states, steps) && states[0] == INITIAL
    ensures var s := states[|states| - 1];
            s.closer == Flushing && s.buffer == [span] && s.sent == [] && s.inFlight == []
  {
    steps := [EndSpan(0, span), CheckEnabled(0), Append(0), CloseBegin, LoopStop, CloseFlush];
    var s1 := Apply(INITIAL, steps[0]);
    var s2 := Apply(s1, steps[1]);
    var s3 := Apply(s2, steps[2]);
    var s4 := Apply(s3, steps[3]);
    var s5 := Apply(s4, steps[4]);
    var s6 := Apply(s5, steps[5]);
    states := [INITIAL, s1, s2, s3, s4, s5, s6];
  }

  /** A span that passes the enabled check before shutdown and is appended after it stays behind. */
  lemma LateSpanStays(span: Span) returns (states: seq<State>, steps: seq<Step>)
    ensures Run(states, steps) && states[0] == INITIAL
    ensures var s := states[|states| - 1];
            s.closer == Closed && s.loop == Stopped && s.buffer == [span] && s.sent == [] && s.inFlight == []
  {
    steps := [EndSpan(0, span), CheckEnabled(0), CloseBegin, LoopStop, CloseFlush, Append(0)];
    var s1 := Apply(INITIAL, steps[0]);
    var s2 := Apply(s1, steps[1]);
    var s3 := Apply(s2, steps[2]);
    var s4 := Apply(s3, steps[3]);
    var s5 := Apply(s4, steps[4]);
    var s6 := Apply(s5, steps[5]);
    states := [INITIAL, s1, s2, s3, s4, s5, s6];
  }
}
