/**
  The recorder of `record_IR_command`: the start-condition wait, the edge
  recorder and the retry policy, as functions over a scripted trace, plus the
  two busy-wait loops as methods proved against them.
 */
module Recorder {
  import opened Hardware

  const USER_TIMEOUT_MS := 10000   // IR_USER_TIMEOUT_MS
  const EDGE_REC_MAX := 250        // IR_EDGE_REC_MAX: capacity of `timings`
  const EDGE_REC_MIN := 5          // IR_EDGE_REC_MIN: more edges than this are accepted
  const MAX_RETRIES := 3           // IR_MAX_RETRIES: start value of `retry`

  // ---------------------------------------------------------------------------
  // Start condition: wait for the sensor to read LOW within the user timeout
  // ---------------------------------------------------------------------------

  datatype StartWait =
    | Started(next: nat)        // the sample at next - 1 read LOW in time
    | StartTimedOut(next: nat)  // the sample at next - 1 was 10 s or more after `prev`
    | StartStalled              // the trace ran out first

  /** A poll during the start wait that neither times out nor sees the start condition. */
  predicate Idle(s: Sample, prevMs: uint32) {
    s.high && Elapsed(s.ms, prevMs) < USER_TIMEOUT_MS
  }

  /** The `while(wait)` loop on `millis()` and `digitalRead`, from trace index `pos`. */
  function AwaitStart(trace: seq<Sample>, pos: nat, prevMs: uint32): (r: StartWait)
    requires pos <= |trace|
    decreases |trace| - pos
    ensures !r.StartStalled? ==> pos < r.next <= |trace|
  {
    if pos == |trace| then StartStalled
    else if Elapsed(trace[pos].ms, prevMs) >= USER_TIMEOUT_MS then StartTimedOut(pos + 1)
    else if !trace[pos].high then Started(pos + 1)
    else AwaitStart(trace, pos + 1, prevMs)
  }

  /**
    The start wait ends on the first poll that is not idle: with the start
    condition if that poll read LOW within 10 s, with a user timeout if 10 s
    had passed (checked first), and it stalls only if every poll left was idle.
   */
  lemma {:induction false} AwaitStartEndsOnFirstNonIdle(trace: seq<Sample>, pos: nat, prevMs: uint32)
    requires pos <= |trace|
    decreases |trace| - pos
    ensures var r := AwaitStart(trace, pos, prevMs);
      && (r.Started? ==>
            && !trace[r.next - 1].high && Elapsed(trace[r.next - 1].ms, prevMs) < USER_TIMEOUT_MS
            && forall k :: pos <= k < r.next - 1 ==> Idle(trace[k], prevMs))
      && (r.StartTimedOut? ==>
            && Elapsed(trace[r.next - 1].ms, prevMs) >= USER_TIMEOUT_MS
            && forall k :: pos <= k < r.next - 1 ==> Idle(trace[k], prevMs))
      && (r.StartStalled? ==> forall k :: pos <= k < |trace| ==> Idle(trace[k], prevMs))
  {
    if pos < |trace| && Idle(trace[pos], prevMs) {
      AwaitStartEndsOnFirstNonIdle(trace, pos + 1, prevMs);
    }
  }

  /**
    A sensor that reads HIGH at every poll before index `j`, where 10 s or more
    have passed, ends the start wait with a timeout, at `j` at the latest.
   */
  lemma {:induction false} SilenceTimesOut(trace: seq<Sample>, pos: nat, prevMs: uint32, j: nat)
    requires pos <= j < |trace| && Elapsed(trace[j].ms, prevMs) >= USER_TIMEOUT_MS
    requires forall k :: pos <= k < j ==> trace[k].high
    decreases j - pos
    ensures AwaitStart(trace, pos, prevMs).StartTimedOut?
    ensures AwaitStart(trace, pos, prevMs).next <= j + 1
  {
    if pos < j && Elapsed(trace[pos].ms, prevMs) < USER_TIMEOUT_MS {
      SilenceTimesOut(trace, pos + 1, prevMs, j);
    }
  }

  method WaitForStart(trace: seq<Sample>, pos: nat, prevMs: uint32) returns (r: StartWait)
    requires pos <= |trace|
    ensures r == AwaitStart(trace, pos, prevMs)
  {
    var p := pos;
    while true
      invariant pos <= p <= |trace|
      invariant AwaitStart(trace, p, prevMs) == AwaitStart(trace, pos, prevMs)
      decreases |trace| - p
    {
      if p == |trace| {
        return StartStalled;
      }
      var now := trace[p].ms;
      var duration := Elapsed(now, prevMs);
      if duration >= USER_TIMEOUT_MS {
        return StartTimedOut(p + 1);
      } else if !trace[p].high {
        return Started(p + 1);
      }
      p := p + 1;
    }
  }

  // ---------------------------------------------------------------------------
  // One edge: wait until the sensor shows the expected level or the edge times out
  // ---------------------------------------------------------------------------

  datatype EdgeWait =
    | EdgeSeen(elapsed: uint32, next: nat)  // the sample at next - 1 showed the level
    | EdgeTimedOut(next: nat)               // the sample at next - 1 reached the edge timeout
    | EdgeStalled                           // the trace ran out first

  /** A poll during an edge wait that neither times out nor sees the expected level. */
  predicate Awaiting(s: Sample, prevUs: uint32, level: bool, timeout: uint32) {
    s.high != level && Elapsed(s.us, prevUs) < timeout
  }

  /** The inner `while(wait)` loop on `micros()` and `digitalRead(...) == toggle`. */
  function AwaitEdge(trace: seq<Sample>, pos: nat, prevUs: uint32, level: bool, timeout: uint32): (r: EdgeWait)
    requires pos <= |trace|
    decreases |trace| - pos
    ensures !r.EdgeStalled? ==> pos < r.next <= |trace|
  {
    if pos == |trace| then EdgeStalled
    else if Elapsed(trace[pos].us, prevUs) >= timeout then EdgeTimedOut(pos + 1)
    else if trace[pos].high == level then EdgeSeen(Elapsed(trace[pos].us, prevUs), pos + 1)
    else AwaitEdge(trace, pos + 1, prevUs, level, timeout)
  }

  /**
    An edge wait ends on the first poll that reaches the edge timeout (checked
    first) or shows the expected level; the elapsed time it reports is the
    wrapping difference to `prev` at that poll.
   */
  lemma {:induction false} AwaitEdgeEndsOnFirstEdge(trace: seq<Sample>, pos: nat, prevUs: uint32, level: bool, timeout: uint32)
    requires pos <= |trace|
    decreases |trace| - pos
    ensures var r := AwaitEdge(trace, pos, prevUs, level, timeout);
      && (r.EdgeSeen? ==>
            && trace[r.next - 1].high == level
            && r.elapsed == Elapsed(trace[r.next - 1].us, prevUs) < timeout
            && forall k :: pos <= k < r.next - 1 ==> Awaiting(trace[k], prevUs, level, timeout))
      && (r.EdgeTimedOut? ==>
            && Elapsed(trace[r.next - 1].us, prevUs) >= timeout
            && forall k :: pos <= k < r.next - 1 ==> Awaiting(trace[k], prevUs, level, timeout))
      && (r.EdgeStalled? ==> forall k :: pos <= k < |trace| ==> Awaiting(trace[k], prevUs, level, timeout))
  {
    if pos < |trace| && Awaiting(trace[pos], prevUs, level, timeout) {
      AwaitEdgeEndsOnFirstEdge(trace, pos + 1, prevUs, level, timeout);
    }
  }

  method WaitForEdge(trace: seq<Sample>, pos: nat, prevUs: uint32, level: bool, timeout: uint32)
    returns (r: EdgeWait)
    requires pos <= |trace|
    ensures r == AwaitEdge(trace, pos, prevUs, level, timeout)
  {
    var p := pos;
    while true
      invariant pos <= p <= |trace|
      invariant AwaitEdge(trace, p, prevUs, level, timeout) == AwaitEdge(trace, pos, prevUs, level, timeout)
      decreases |trace| - p
    {
      if p == |trace| {
        return EdgeStalled;
      }
      var now := trace[p].us;
      var duration := Elapsed(now, prevUs);
      if duration >= timeout {
        return EdgeTimedOut(p + 1);
      } else if trace[p].high == level {
        return EdgeSeen(duration, p + 1);
      }
      p := p + 1;
    }
  }

  // ---------------------------------------------------------------------------
  // One attempt: the `for(i=0; i<IR_EDGE_REC_MAX; i++)` edge recorder
  // ---------------------------------------------------------------------------

  /** Trace indices of the `prev = micros()` sample and of the sample that ended a slot. */
  datatype Slot = Slot(start: nat, end: nat)

  datatype AttemptEnd = SlotsFull | SlotTimedOut | AttemptStalled

  /**
    The state left by one attempt: the whole `timings` buffer, `edges`, the
    next trace index and how the attempt ended.
   */
  datatype Attempt = Attempt(buf: seq<uint16>, edges: uint8, next: nat, end: AttemptEnd)

  /**
    Slot `s` of the trace is a proper interval: it ended on a sample showing
    `level` strictly within the edge timeout, and `value` is its wrapping
    duration cut to 16 bits.
   */
  predicate SlotMatches(trace: seq<Sample>, s: Slot, level: bool, timeout: uint32, value: uint16) {
    && s.start < s.end < |trace|
    && trace[s.end].high == level
    && Elapsed(trace[s.end].us, trace[s.start].us) < timeout
    && value == Truncate16(Elapsed(trace[s.end].us, trace[s.start].us))
  }

  /** `after` is `before` except possibly at the indices from `lo` up to (excluding) `hi`. */
  predicate KeepsOutside(before: seq<uint16>, after: seq<uint16>, lo: nat, hi: nat) {
    && |after| == |before|
    && forall k :: 0 <= k < |before| && (k < lo || hi <= k) ==> after[k] == before[k]
  }

  /** Every slot in `slots` matches the trace; `slots[j]` is slot `from + j` of `buf`. */
  predicate SlotsMatch(trace: seq<Sample>, slots: seq<Slot>, from: nat, buf: seq<uint16>, timeout: uint32) {
    forall j :: 0 <= j < |slots| && from + j < |buf| ==>
      SlotMatches(trace, slots[j], (from + j) % 2 == 0, timeout, buf[from + j])
  }

  /**
    The edge recorder from slot `i` on, `toggle` being the level slot `i`
    waits for. An attempt starts with `toggle` HIGH and flips it after every
    slot (see RecordedSlotsMatch for the level of each slot).
   */
  function RecordEdges(trace: seq<Sample>, pos: nat, i: nat, toggle: bool, buf: seq<uint16>, edges: uint8, timeout: uint32): (a: Attempt)
    requires pos <= |trace| && i <= EDGE_REC_MAX && |buf| == EDGE_REC_MAX && edges <= EDGE_REC_MAX
    decreases EDGE_REC_MAX - i
    ensures |a.buf| == EDGE_REC_MAX && a.edges <= EDGE_REC_MAX && pos <= a.next <= |trace|
  {
    if i == EDGE_REC_MAX then Attempt(buf, edges, pos, SlotsFull)
    else if pos == |trace| then Attempt(buf, edges, pos, AttemptStalled)
    else
      match AwaitEdge(trace, pos + 1, trace[pos].us, toggle, timeout)
      case EdgeStalled => Attempt(buf, edges, |trace|, AttemptStalled)
      case EdgeTimedOut(n) => Attempt(buf, i, n, SlotTimedOut)
      case EdgeSeen(d, n) => RecordEdges(trace, n, i + 1, !toggle, buf[i := Truncate16(d)], edges, timeout)
  }

  /**
    The trace intervals an attempt from slot `i` measured and wrote, in slot
    order: one per edge seen, none for the slot that timed out.
   */
  function AttemptSlots(trace: seq<Sample>, pos: nat, i: nat, toggle: bool, timeout: uint32): seq<Slot>
    requires pos <= |trace| && i <= EDGE_REC_MAX
    decreases EDGE_REC_MAX - i
  {
    if i == EDGE_REC_MAX || pos == |trace| then []
    else
      match AwaitEdge(trace, pos + 1, trace[pos].us, toggle, timeout)
      case EdgeSeen(_, n) => [Slot(pos, n - 1)] + AttemptSlots(trace, n, i + 1, !toggle, timeout)
      case _ => []
  }

  /**
    How an attempt from slot `i` ends: with every slot up to IR_EDGE_REC_MAX
    written and `edges` left as it was (the stale count of an earlier
    attempt), or with a timed-out slot whose index becomes `edges`, or stalled
    with `edges` untouched. It never writes past the buffer.
   */
  lemma {:induction false} AttemptEnds(trace: seq<Sample>, pos: nat, i: nat, toggle: bool, buf: seq<uint16>, edges: uint8, timeout: uint32)
    requires pos <= |trace| && i <= EDGE_REC_MAX && |buf| == EDGE_REC_MAX && edges <= EDGE_REC_MAX
    decreases EDGE_REC_MAX - i
    ensures var a := RecordEdges(trace, pos, i, toggle, buf, edges, timeout);
      var n := |AttemptSlots(trace, pos, i, toggle, timeout)|;
      && i + n <= EDGE_REC_MAX
      && (a.end == SlotsFull ==> i + n == EDGE_REC_MAX && a.edges == edges)
      && (a.end == SlotTimedOut ==> a.edges == i + n)
      && (a.end == AttemptStalled ==> a.edges == edges)
  {
    if i < EDGE_REC_MAX && pos < |trace| {
      var w := AwaitEdge(trace, pos + 1, trace[pos].us, toggle, timeout);
      if w.EdgeSeen? {
        AttemptEnds(trace, w.next, i + 1, !toggle, buf[i := Truncate16(w.elapsed)], edges, timeout);
      }
    }
  }

  // ---------------------------------------------------------------------------
  // The retry loop and the commit decision
  // ---------------------------------------------------------------------------

  datatype RecordOutcome =
    | UserTimeout                  // no start condition within 10 s: return at once
    | RetriesExhausted             // three attempts, none with more than 5 edges
    | Saved(timings: seq<uint16>)  // what is handed to saveIRToEEPROM
    | TraceEnded                   // the scripted trace ran out (no counterpart on hardware)

  /**
    The result of the retry loop: the outcome, the buffer and `edges` as left
    behind, the number of attempts made in total, the trace index at which the
    last attempt began, and the index at which its edge recorder began (the
    same index if it never got there).
   */
  datatype Recording = Recording(outcome: RecordOutcome, buf: seq<uint16>, edges: uint8, attempts: nat, start: nat, first: nat)

  /**
    The retry loop from the attempt in which the counter `retry` holds the
    given value (3, then 2, then 1).
   */
  function RecordFrom(trace: seq<Sample>, pos: nat, retry: nat, buf: seq<uint16>, edges: uint8, timeout: uint32): (r: Recording)
    requires pos <= |trace| && 1 <= retry <= MAX_RETRIES
    requires |buf| == EDGE_REC_MAX && edges <= EDGE_REC_MAX
    decreases retry
    ensures |r.buf| == EDGE_REC_MAX && r.edges <= EDGE_REC_MAX && r.first <= |trace|
  {
    var attempt := MAX_RETRIES - retry + 1;
    if pos == |trace| then Recording(TraceEnded, buf, edges, attempt, pos, pos)
    else
      match AwaitStart(trace, pos + 1, trace[pos].ms)
      case StartStalled => Recording(TraceEnded, buf, edges, attempt, pos, pos)
      case StartTimedOut(_) => Recording(UserTimeout, buf, edges, attempt, pos, pos)
      case Started(n) =>
        var a := RecordEdges(trace, n, 0, true, buf, edges, timeout);
        if a.end == AttemptStalled then Recording(TraceEnded, a.buf, a.edges, attempt, pos, n)
        else if a.edges > EDGE_REC_MIN then Recording(Saved(a.buf[..a.edges]), a.buf, a.edges, attempt, pos, n)
        else if retry == 1 then Recording(RetriesExhausted, a.buf, a.edges, attempt, pos, n)
        else RecordFrom(trace, a.next, retry - 1, a.buf, a.edges, timeout)
  }

  /**
    A whole `record_IR_command` call on the trace, from the globals' current
    values: one to three attempts, and giving up takes all three, the last
    leaving IR_EDGE_REC_MIN edges or fewer (SavedMatchesTrace says what a save
    carries).
   */
  function Record(trace: seq<Sample>, buf: seq<uint16>, edges: uint8, timeout: uint32): (r: Recording)
    requires |buf| == EDGE_REC_MAX && edges <= EDGE_REC_MAX
    ensures |r.buf| == EDGE_REC_MAX && r.edges <= EDGE_REC_MAX
    ensures 1 <= r.attempts <= MAX_RETRIES
    ensures r.outcome == RetriesExhausted ==> r.attempts == MAX_RETRIES && r.edges <= EDGE_REC_MIN
  {
    AttemptsBounded(trace, 0, MAX_RETRIES, buf, edges, timeout);
    RecordFrom(trace, 0, MAX_RETRIES, buf, edges, timeout)
  }

  // ---------------------------------------------------------------------------
  // Properties of a recording
  // ---------------------------------------------------------------------------

  /** The trace index at which the edge recorder of the attempt begun at `pos` starts, if it starts. */
  predicate Starts(trace: seq<Sample>, pos: nat)
    requires pos <= |trace|
  {
    pos < |trace| && AwaitStart(trace, pos + 1, trace[pos].ms).Started?
  }

  /** Whether the attempt begun at `pos` falls short of IR_EDGE_REC_MIN edges with retries left. */
  predicate Retries(trace: seq<Sample>, pos: nat, retry: nat, buf: seq<uint16>, edges: uint8, timeout: uint32)
    requires pos <= |trace| && |buf| == EDGE_REC_MAX && edges <= EDGE_REC_MAX
  {
    && Starts(trace, pos)
    && var a := RecordEdges(trace, AwaitStart(trace, pos + 1, trace[pos].ms).next, 0, true, buf, edges, timeout);
    a.end != AttemptStalled && a.edges <= EDGE_REC_MIN && retry > 1
  }

  /**
    The attempt begun at trace index `start` saw the start condition, and its
    edge recorder began at index `first`: right after a LOW reading taken less
    than the user timeout after the attempt's first `millis()` sample.
   */
  predicate StartedAt(trace: seq<Sample>, start: nat, first: nat)
    requires start <= |trace|
  {
    && Starts(trace, start) && AwaitStart(trace, start + 1, trace[start].ms).next == first
    && start < first <= |trace|
    && !trace[first - 1].high && Elapsed(trace[first - 1].ms, trace[start].ms) < USER_TIMEOUT_MS
  }

  /** The start wait of the attempt begun at `k` ends in a user timeout. */
  predicate TimesOutAt(trace: seq<Sample>, k: nat)
    requires k <= |trace|
  {
    k < |trace| && AwaitStart(trace, k + 1, trace[k].ms).StartTimedOut?
  }

  /** An attempt that never reaches its edge recorder ends the call with the globals untouched. */
  lemma NoStartEndsCall(trace: seq<Sample>, pos: nat, retry: nat, buf: seq<uint16>, edges: uint8, timeout: uint32)
    requires pos <= |trace| && 1 <= retry <= MAX_RETRIES
    requires |buf| == EDGE_REC_MAX && edges <= EDGE_REC_MAX
    requires !Starts(trace, pos)
    ensures RecordFrom(trace, pos, retry, buf, edges, timeout)
      == Recording(if TimesOutAt(trace, pos) then UserTimeout else TraceEnded, buf, edges, MAX_RETRIES - retry + 1, pos, pos)
  {
  }

  /**
    An attempt that reaches its edge recorder either hands over to the next
    attempt, or ends the call with what the recorder left behind.
   */
  lemma StartedAttempt(trace: seq<Sample>, pos: nat, retry: nat, buf: seq<uint16>, edges: uint8, timeout: uint32)
    requires pos <= |trace| && 1 <= retry <= MAX_RETRIES
    requires |buf| == EDGE_REC_MAX && edges <= EDGE_REC_MAX
    requires Starts(trace, pos)
    ensures var n := AwaitStart(trace, pos + 1, trace[pos].ms).next;
      var a := RecordEdges(trace, n, 0, true, buf, edges, timeout);
      var r := RecordFrom(trace, pos, retry, buf, edges, timeout);
      && (Retries(trace, pos, retry, buf, edges, timeout) ==> r == RecordFrom(trace, a.next, retry - 1, a.buf, a.edges, timeout))
      && (!Retries(trace, pos, retry, buf, edges, timeout) ==>
            var outcome := if a.end == AttemptStalled then TraceEnded
              else if a.edges > EDGE_REC_MIN then Saved(a.buf[..a.edges]) else RetriesExhausted;
            r == Recording(outcome, a.buf, a.edges, MAX_RETRIES - retry + 1, pos, n))
  {
  }

  /**
    The retry policy: at least one and at most three attempts, and giving up
    takes all three, the last of which left IR_EDGE_REC_MIN edges or fewer.
   */
  lemma {:induction false} AttemptsBounded(trace: seq<Sample>, pos: nat, retry: nat, buf: seq<uint16>, edges: uint8, timeout: uint32)
    requires pos <= |trace| && 1 <= retry <= MAX_RETRIES
    requires |buf| == EDGE_REC_MAX && edges <= EDGE_REC_MAX
    decreases retry
    ensures var r := RecordFrom(trace, pos, retry, buf, edges, timeout);
      && MAX_RETRIES - retry < r.attempts <= MAX_RETRIES
      && pos <= r.start <= |trace|
      && (r.outcome == RetriesExhausted ==> r.attempts == MAX_RETRIES && r.edges <= EDGE_REC_MIN)
  {
    if !Starts(trace, pos) {
      NoStartEndsCall(trace, pos, retry, buf, edges, timeout);
    } else {
      StartedAttempt(trace, pos, retry, buf, edges, timeout);
      if Retries(trace, pos, retry, buf, edges, timeout) {
        var a := RecordEdges(trace, AwaitStart(trace, pos + 1, trace[pos].ms).next, 0, true, buf, edges, timeout);
        AttemptsBounded(trace, a.next, retry - 1, a.buf, a.edges, timeout);
      }
    }
  }

  /**
    An attempt from slot `i` leaves the slots before `i` alone and writes
    nothing at or after the slot it stopped at: not the slot that timed out,
    and never an index past the buffer.
   */
  lemma {:induction false} RecordEdgesFrame(trace: seq<Sample>, pos: nat, i: nat, toggle: bool, buf: seq<uint16>, edges: uint8, timeout: uint32)
    requires pos <= |trace| && i <= EDGE_REC_MAX && |buf| == EDGE_REC_MAX && edges <= EDGE_REC_MAX
    decreases EDGE_REC_MAX - i
    ensures KeepsOutside(buf, RecordEdges(trace, pos, i, toggle, buf, edges, timeout).buf,
                         i, i + |AttemptSlots(trace, pos, i, toggle, timeout)|)
  {
    if i < EDGE_REC_MAX && pos < |trace| {
      var w := AwaitEdge(trace, pos + 1, trace[pos].us, toggle, timeout);
      if w.EdgeSeen? {
        var buf' := buf[i := Truncate16(w.elapsed)];
        RecordEdgesFrame(trace, w.next, i + 1, !toggle, buf', edges, timeout);
        var a := RecordEdges(trace, w.next, i + 1, !toggle, buf', edges, timeout);
        var n := |AttemptSlots(trace, w.next, i + 1, !toggle, timeout)|;
        assert |AttemptSlots(trace, pos, i, toggle, timeout)| == n + 1;
        forall k | 0 <= k < |buf| && (k < i || i + n + 1 <= k)
          ensures a.buf[k] == buf[k]
        {
          assert a.buf[k] == buf'[k];
        }
      }
    }
  }

  /**
    Every slot an attempt writes is a proper interval of the trace: it ended on
    the level expected for its index (HIGH for even, LOW for odd slots) strictly
    before the edge timeout, and the buffer holds its wrapping duration cut to
    16 bits.
   */
  lemma {:induction false} RecordedSlotsMatch(trace: seq<Sample>, pos: nat, i: nat, toggle: bool, buf: seq<uint16>, edges: uint8, timeout: uint32)
    requires pos <= |trace| && i <= EDGE_REC_MAX && |buf| == EDGE_REC_MAX && edges <= EDGE_REC_MAX
    requires toggle == (i % 2 == 0)
    decreases EDGE_REC_MAX - i
    ensures SlotsMatch(trace, AttemptSlots(trace, pos, i, toggle, timeout), i,
                       RecordEdges(trace, pos, i, toggle, buf, edges, timeout).buf, timeout)
  {
    if i < EDGE_REC_MAX && pos < |trace| {
      var w := AwaitEdge(trace, pos + 1, trace[pos].us, toggle, timeout);
      if w.EdgeSeen? {
        var buf' := buf[i := Truncate16(w.elapsed)];
        AwaitEdgeEndsOnFirstEdge(trace, pos + 1, trace[pos].us, toggle, timeout);
        RecordedSlotsMatch(trace, w.next, i + 1, !toggle, buf', edges, timeout);
        RecordEdgesFrame(trace, w.next, i + 1, !toggle, buf', edges, timeout);
        var a := RecordEdges(trace, w.next, i + 1, !toggle, buf', edges, timeout);
        var rest := AttemptSlots(trace, w.next, i + 1, !toggle, timeout);
        assert a.buf[i] == buf'[i];
        assert SlotMatches(trace, Slot(pos, w.next - 1), i % 2 == 0, timeout, a.buf[i]);
        SlotsMatchCons(trace, Slot(pos, w.next - 1), rest, i, a.buf, timeout);
      }
    }
  }

  lemma SlotsMatchCons(trace: seq<Sample>, s: Slot, slots: seq<Slot>, from: nat, buf: seq<uint16>, timeout: uint32)
    requires from < |buf| && SlotMatches(trace, s, from % 2 == 0, timeout, buf[from])
    requires SlotsMatch(trace, slots, from + 1, buf, timeout)
    ensures SlotsMatch(trace, [s] + slots, from, buf, timeout)
  {
    forall j | 0 <= j < |[s] + slots| && from + j < |buf|
      ensures SlotMatches(trace, ([s] + slots)[j], (from + j) % 2 == 0, timeout, buf[from + j])
    {
      if j > 0 {
        assert ([s] + slots)[j] == slots[j - 1];
        assert from + j == from + 1 + (j - 1);
      }
    }
  }

  /**
    A save happens only with more than IR_EDGE_REC_MIN edges, and what is
    saved is exactly what the last attempt measured from `r.first` on (where
    SavedAfterStart places it): the first `edges` entries of the buffer, entry
    `k` being the 16-bit wrapping duration of the `k`-th interval the recorder
    measured (SlotsContiguous: the intervals follow each other from `r.first`
    on), each ending on the expected level within the edge timeout.
   */
  lemma {:induction false} SavedMatchesTrace(trace: seq<Sample>, pos: nat, retry: nat, buf: seq<uint16>, edges: uint8, timeout: uint32)
    requires pos <= |trace| && 1 <= retry <= MAX_RETRIES
    requires |buf| == EDGE_REC_MAX && edges <= EDGE_REC_MAX
    decreases retry
    ensures var r := RecordFrom(trace, pos, retry, buf, edges, timeout);
      r.outcome.Saved? ==>
        && EDGE_REC_MIN < r.edges <= |AttemptSlots(trace, r.first, 0, true, timeout)|
        && r.outcome.timings == r.buf[..r.edges]
        && forall k :: 0 <= k < r.edges ==>
             SlotMatches(trace, AttemptSlots(trace, r.first, 0, true, timeout)[k], k % 2 == 0, timeout, r.outcome.timings[k])
  {
    if !Starts(trace, pos) {
      NoStartEndsCall(trace, pos, retry, buf, edges, timeout);
    } else {
      StartedAttempt(trace, pos, retry, buf, edges, timeout);
      var n := AwaitStart(trace, pos + 1, trace[pos].ms).next;
      var a := RecordEdges(trace, n, 0, true, buf, edges, timeout);
      if Retries(trace, pos, retry, buf, edges, timeout) {
        SavedMatchesTrace(trace, a.next, retry - 1, a.buf, a.edges, timeout);
      } else {
        AttemptMatchesTrace(trace, n, buf, edges, timeout);
        assert forall k :: 0 <= k < a.edges ==> a.buf[..a.edges][k] == a.buf[k];
      }
    }
  }

  /**
    A save comes from an attempt that saw the start condition: it began at
    `r.start`, read the sensor LOW within the user timeout, and its edge
    recorder, whose intervals are saved, began at `r.first`, on the sample
    right after that LOW reading.
   */
  lemma {:induction false} SavedAfterStart(trace: seq<Sample>, pos: nat, retry: nat, buf: seq<uint16>, edges: uint8, timeout: uint32)
    requires pos <= |trace| && 1 <= retry <= MAX_RETRIES
    requires |buf| == EDGE_REC_MAX && edges <= EDGE_REC_MAX
    decreases retry
    ensures var r := RecordFrom(trace, pos, retry, buf, edges, timeout);
      r.outcome.Saved? ==> pos <= r.start <= |trace| && StartedAt(trace, r.start, r.first)
  {
    if !Starts(trace, pos) {
      NoStartEndsCall(trace, pos, retry, buf, edges, timeout);
    } else {
      StartedAttempt(trace, pos, retry, buf, edges, timeout);
      var n := AwaitStart(trace, pos + 1, trace[pos].ms).next;
      if Retries(trace, pos, retry, buf, edges, timeout) {
        var a := RecordEdges(trace, n, 0, true, buf, edges, timeout);
        SavedAfterStart(trace, a.next, retry - 1, a.buf, a.edges, timeout);
      } else {
        StartReading(trace, pos);
      }
    }
  }

  lemma StartReading(trace: seq<Sample>, pos: nat)
    requires pos <= |trace| && Starts(trace, pos)
    ensures StartedAt(trace, pos, AwaitStart(trace, pos + 1, trace[pos].ms).next)
  {
    AwaitStartEndsOnFirstNonIdle(trace, pos + 1, trace[pos].ms);
  }

  /**
    The intervals an attempt measures follow each other: the first begins at
    the attempt's first `micros()` sample, and each next one at the sample
    right after the edge that ended the one before.
   */
  lemma {:induction false} SlotsContiguous(trace: seq<Sample>, pos: nat, i: nat, toggle: bool, timeout: uint32)
    requires pos <= |trace| && i <= EDGE_REC_MAX
    decreases EDGE_REC_MAX - i
    ensures var s := AttemptSlots(trace, pos, i, toggle, timeout);
      && (|s| > 0 ==> s[0].start == pos)
      && forall k :: 0 <= k < |s| - 1 ==> s[k + 1].start == s[k].end + 1
  {
    if i < EDGE_REC_MAX && pos < |trace| {
      var w := AwaitEdge(trace, pos + 1, trace[pos].us, toggle, timeout);
      if w.EdgeSeen? {
        SlotsContiguous(trace, w.next, i + 1, !toggle, timeout);
        var rest := AttemptSlots(trace, w.next, i + 1, !toggle, timeout);
        var s := AttemptSlots(trace, pos, i, toggle, timeout);
        assert s == [Slot(pos, w.next - 1)] + rest;
        forall k | 0 <= k < |s| - 1
          ensures s[k + 1].start == s[k].end + 1
        {
          if k > 0 {
            assert s[k] == rest[k - 1] && s[k + 1] == rest[k];
          }
        }
      }
    }
  }

  /**
    An attempt that did not stall leaves `edges` at most the number of slots
    it recorded, and each of the first `edges` entries of the buffer is the
    recorded duration of its slot.
   */
  lemma AttemptMatchesTrace(trace: seq<Sample>, n: nat, buf: seq<uint16>, edges: uint8, timeout: uint32)
    requires n <= |trace| && |buf| == EDGE_REC_MAX && edges <= EDGE_REC_MAX
    ensures var a := RecordEdges(trace, n, 0, true, buf, edges, timeout);
      var slots := AttemptSlots(trace, n, 0, true, timeout);
      a.end != AttemptStalled ==>
        && a.edges <= |slots|
        && forall k :: 0 <= k < a.edges ==> SlotMatches(trace, slots[k], k % 2 == 0, timeout, a.buf[k])
  {
    var a := RecordEdges(trace, n, 0, true, buf, edges, timeout);
    var slots := AttemptSlots(trace, n, 0, true, timeout);
    AttemptEnds(trace, n, 0, true, buf, edges, timeout);
    RecordedSlotsMatch(trace, n, 0, true, buf, edges, timeout);
    forall k | 0 <= k < a.edges && a.end != AttemptStalled
      ensures SlotMatches(trace, slots[k], k % 2 == 0, timeout, a.buf[k])
    {
      assert SlotMatches(trace, slots[k], (0 + k) % 2 == 0, timeout, a.buf[0 + k]);
    }
  }

  /**
    A user timeout ends the call in whichever attempt it happens, retries left
    or not: the start wait of that attempt, timed from the attempt's own first
    `millis()` sample, saw 10 s pass without a LOW reading.
   */
  lemma {:induction false} UserTimeoutOnlyFromStartWait(trace: seq<Sample>, pos: nat, retry: nat, buf: seq<uint16>, edges: uint8, timeout: uint32)
    requires pos <= |trace| && 1 <= retry <= MAX_RETRIES
    requires |buf| == EDGE_REC_MAX && edges <= EDGE_REC_MAX
    decreases retry
    ensures var r := RecordFrom(trace, pos, retry, buf, edges, timeout);
      r.outcome == UserTimeout ==> pos <= r.start <= |trace| && TimesOutAt(trace, r.start)
  {
    if !Starts(trace, pos) {
      NoStartEndsCall(trace, pos, retry, buf, edges, timeout);
    } else {
      StartedAttempt(trace, pos, retry, buf, edges, timeout);
      if Retries(trace, pos, retry, buf, edges, timeout) {
        var a := RecordEdges(trace, AwaitStart(trace, pos + 1, trace[pos].ms).next, 0, true, buf, edges, timeout);
        UserTimeoutOnlyFromStartWait(trace, a.next, retry - 1, a.buf, a.edges, timeout);
      }
    }
  }

  /**
    Conversely, a start wait that times out ends the call at once in
    whichever attempt it happens, even with retries left: the outcome is a
    user timeout, the buffer and `edges` are what that attempt found, and the
    attempt is counted.
   */
  lemma UserTimeoutEndsCall(trace: seq<Sample>, pos: nat, retry: nat, buf: seq<uint16>, edges: uint8, timeout: uint32)
    requires pos <= |trace| && 1 <= retry <= MAX_RETRIES
    requires |buf| == EDGE_REC_MAX && edges <= EDGE_REC_MAX
    requires TimesOutAt(trace, pos)
    ensures var r := RecordFrom(trace, pos, retry, buf, edges, timeout);
      && r.outcome == UserTimeout && r.buf == buf && r.edges == edges
      && r.attempts == MAX_RETRIES - retry + 1
  {
    NoStartEndsCall(trace, pos, retry, buf, edges, timeout);
  }

  /**
    A sensor that stays HIGH until 10 s after the first `millis()` sample makes
    the call end with a user timeout in its first attempt, with the buffer and
    `edges` untouched (and so nothing for the store).
   */
  lemma SilentSensorTimesOut(trace: seq<Sample>, buf: seq<uint16>, edges: uint8, timeout: uint32, j: nat)
    requires |buf| == EDGE_REC_MAX && edges <= EDGE_REC_MAX
    requires 0 < j < |trace| && Elapsed(trace[j].ms, trace[0].ms) >= USER_TIMEOUT_MS
    requires forall k :: 0 < k < j ==> trace[k].high
    ensures var r := Record(trace, buf, edges, timeout);
      r.outcome == UserTimeout && r.buf == buf && r.edges == edges && r.attempts == 1
  {
    SilenceTimesOut(trace, 1, trace[0].ms, j);
  }
}
