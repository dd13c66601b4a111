/**
  The infrared command module's global state (`timings`, `edges`,
  `edge_timeout`) and its three operations, in the imperative form of the
  original: nested busy-wait loops that update the globals in place.
  Recording (`RecordCommand`, `RecordAttempt`) and playback (`PlayCommand`,
  `Emit`, `EmitEntry`) are proved to do exactly what the specification
  functions of Recorder and Player say. `SetTimeout` and `Load` have no loop;
  their contracts state the new globals directly.
 */
module Infrared {
  import opened Hardware
  import opened Recorder
  import opened Player

  class IrDevice {
    /** `uint16_t timings[IR_EDGE_REC_MAX]`: the interval buffer shared by recording and playback. */
    var timings: array<uint16>
    /** `uint8_t edges`: the current edge count. */
    var edges: uint8
    /** `uint32_t edge_timeout`: longest accepted interval while recording, in microseconds. */
    var edgeTimeout: uint32
    /** Everything the module has done to the outside world so far. */
    var log: seq<Event>

    ghost predicate Valid()
      reads this
    {
      timings.Length == EDGE_REC_MAX && edges <= EDGE_REC_MAX
    }

    /** The globals as the firmware starts: zeroed buffer and count, a 10 ms edge timeout. */
    constructor ()
      ensures Valid() && fresh(timings)
      ensures timings[..] == seq(EDGE_REC_MAX, _ => 0) && edges == 0 && edgeTimeout == 10000 && log == []
    {
      timings := new uint16[EDGE_REC_MAX](_ => 0);
      edges := 0;
      edgeTimeout := 10000;
      log := [];
    }

    /**
      `set_IR_timeout`: the edge timeout becomes `toutMs` milliseconds in
      microseconds; the product of a 16-bit value and 1000 always fits the
      32-bit global, and nothing else changes.
     */
    method SetTimeout(toutMs: uint16)
      modifies this`edgeTimeout
      ensures edgeTimeout == toutMs * 1000
    {
      edgeTimeout := toutMs * 1000;
    }

    /**
      `record_IR_command`: up to three attempts, each waiting for a start
      condition and then recording intervals into `timings`. The buffer and
      `edges` end as the retry loop's specification from its first attempt
      (that is, `Record`) says; the store is written (followed by
      the feedback tone) once, and only when an attempt left more than five
      edges, with exactly the first `edges` entries of the buffer.
     */
    method RecordCommand(name: string, trace: seq<Sample>) returns (outcome: RecordOutcome)
      requires Valid()
      modifies this`edges, this`log, timings
      ensures Valid() && edgeTimeout == old(edgeTimeout)
      ensures var r := RecordFrom(trace, 0, MAX_RETRIES, old(timings[..]), old(edges), edgeTimeout);
        && outcome == r.outcome && timings[..] == r.buf && edges == r.edges
        && log == old(log) + (if outcome.Saved? then [Save(name, outcome.timings), Tone] else [])
    {
      ghost var target := RecordFrom(trace, 0, MAX_RETRIES, timings[..], edges, edgeTimeout);
      var pos: nat := 0;
      var retry := MAX_RETRIES;
      while true
        invariant Valid()
        invariant pos <= |trace| && 1 <= retry <= MAX_RETRIES
        invariant RecordFrom(trace, pos, retry, timings[..], edges, edgeTimeout) == target
        invariant log == old(log)
        decreases retry
      {
        // wait for the start condition, timed from a fresh millis() sample
        if pos == |trace| {
          return TraceEnded;
        }
        var prevMs := trace[pos].ms;
        var start := WaitForStart(trace, pos + 1, prevMs);
        if start.StartStalled? {
          return TraceEnded;
        }
        if start.StartTimedOut? {
          return UserTimeout;
        }
        var stalled, next := RecordAttempt(trace, start.next);
        if stalled {
          return TraceEnded;
        }
        if edges > EDGE_REC_MIN {
          break;
        }
        if retry == 1 {
          return RetriesExhausted;
        }
        retry := retry - 1;
        pos := next;
      }
      log := log + [Save(name, timings[..edges]), Tone];
      return Saved(timings[..edges]);
    }

    /**
      The edge loop of one attempt of `record_IR_command`, started at trace
      index `pos` just after the start condition: it leaves the buffer, `edges`
      and the trace position exactly as the specification of an attempt says,
      and reports whether the trace ran out first.
     */
    method RecordAttempt(trace: seq<Sample>, pos: nat) returns (stalled: bool, next: nat)
      requires Valid() && pos <= |trace|
      modifies this`edges, timings
      ensures Valid()
      ensures var a := RecordEdges(trace, pos, 0, true, old(timings[..]), old(edges), edgeTimeout);
        && stalled == (a.end == AttemptStalled) && timings[..] == a.buf && edges == a.edges
        && next == a.next
    {
      ghost var target := RecordEdges(trace, pos, 0, true, timings[..], edges, edgeTimeout);
      ghost var buf := timings[..];
      var p: nat := pos;
      var toggle := true;
      var i: nat := 0;
      while i < EDGE_REC_MAX
        invariant Valid() && buf == timings[..]
        invariant p <= |trace| && i <= EDGE_REC_MAX + 1
        invariant i <= EDGE_REC_MAX ==> RecordEdges(trace, p, i, toggle, buf, edges, edgeTimeout) == target
        invariant i == EDGE_REC_MAX + 1 ==> target == Attempt(buf, edges, p, SlotTimedOut)
        decreases EDGE_REC_MAX + 1 - i
      {
        if p == |trace| {
          return true, p;
        }
        var prevUs := trace[p].us;
        var edge := WaitForEdge(trace, p + 1, prevUs, toggle, edgeTimeout);
        if edge.EdgeStalled? {
          return true, |trace|;
        }
        p := edge.next;
        if edge.EdgeTimedOut? {
          // cancel the edge loop and keep the count reached
          edges := i;
          i := EDGE_REC_MAX;
        }
        if i < EDGE_REC_MAX {
          timings[i] := Truncate16(edge.elapsed);
          buf := buf[i := Truncate16(edge.elapsed)];
        }
        toggle := !toggle;
        i := i + 1;
      }
      return false, p;
    }

    /**
      `edges = readIRFromEEPROM(name, timings, IR_EDGE_REC_MAX)`: the store
      hands back the command `loaded`, which fills the front of the buffer.
     */
    method Load(loaded: seq<uint16>)
      requires Valid() && |loaded| <= EDGE_REC_MAX
      modifies this`edges, timings
      ensures Valid() && edges == |loaded|
      ensures timings[..] == loaded + old(timings[|loaded|..])
    {
      forall k | 0 <= k < |loaded| {
        timings[k] := loaded[k];
      }
      edges := |loaded|;
    }

    /**
      `play_IR_command` on the command `loaded` that the store returned for
      the requested name (at most IR_EDGE_REC_MAX entries). The command is
      copied into `timings` and its length into `edges`; an empty command
      touches no pin; otherwise the emitter performs the specified pattern,
      ending with the LED driven LOW.
     */
    method PlayCommand(loaded: seq<uint16>, trace: seq<Sample>) returns (completed: bool)
      requires Valid() && |loaded| <= EDGE_REC_MAX
      modifies this`edges, this`log, timings
      ensures Valid() && edgeTimeout == old(edgeTimeout)
      ensures edges == |loaded| && timings[..|loaded|] == loaded
      ensures timings[|loaded|..] == old(timings[|loaded|..])
      ensures var r := Replay(trace, loaded); completed == r.completed && log == old(log) + r.events
    {
      Load(loaded);
      if edges == 0 {
        return true;
      }

      completed := Emit(loaded, trace);
      PlayAppends(trace, 0, loaded, 0, true, old(log));
    }

    /**
      The `for(i=0; i<edges; i++)` loop of `play_IR_command` and what follows
      it, on a buffer that holds the non-empty command `loaded`: the emitter
      performs exactly what the playback specification says.
     */
    method Emit(loaded: seq<uint16>, trace: seq<Sample>) returns (completed: bool)
      requires Valid() && 0 < |loaded| == edges && timings[..|loaded|] == loaded
      modifies this`log
      ensures var r := PlayFrom(trace, 0, loaded, 0, true, old(log)); completed == r.completed && log == r.events
    {
      ghost var target := PlayFrom(trace, 0, loaded, 0, true, log);
      var p: nat := 0;
      var outputHigh := true;
      var i: nat := 0;
      while i < edges
        invariant i <= edges && p <= |trace|
        invariant PlayFrom(trace, p, loaded, i, outputHigh, log) == target
      {
        if p == |trace| {
          return false;
        }
        var stalled, next := EmitEntry(trace, p, i, outputHigh);
        assert timings[i] == loaded[i];
        if stalled {
          return false;
        }
        outputHigh := !outputHigh;
        p := next;
        i := i + 1;
      }
      log := log + [Tone];
      // the infrared LED must be off after this function
      log := log + [LedLow];
      assert log == target.events;
      completed := true;
    }

    /**
      One pass of the playback loop for entry `i`, started at trace index `p`:
      start the burst (even `i`) or drive the LED low (odd `i`), wait out the
      entry's interval and, after a burst, stop it. Reports whether the trace
      ran out during the wait.
     */
    method EmitEntry(trace: seq<Sample>, p: nat, i: nat, outputHigh: bool) returns (stalled: bool, next: nat)
      requires Valid() && i < edges && p < |trace|
      modifies this`log
      ensures var h := AwaitHold(trace, p + 1, trace[p].us, timings[i]);
        && stalled == h.HoldStalled?
        && (stalled ==> log == old(log) + [if outputHigh then BurstOn else LedLow])
        && (!stalled ==> next == h.next && log == old(log) + SlotEvents(outputHigh, timings[i]))
    {
      var stateTime := timings[i];
      var edgePrev := trace[p].us;
      // HIGH: start the PWM burst; LOW: drive the LED off
      log := log + [if outputHigh then BurstOn else LedLow];
      // both branches busy-wait for the same hold
      var hold := WaitHold(trace, p + 1, edgePrev, stateTime);
      if hold.HoldStalled? {
        return true, p;
      }
      if outputHigh {
        log := log + [Hold(stateTime), BurstOff];
      } else {
        log := log + [Hold(stateTime)];
      }
      return false, hold.next;
    }
  }
}
