/**
  The player of `play_IR_command`: the emitter pattern a stored command
  produces, the busy-wait hold, and playback over a scripted trace.
 */
module Player {
  import opened Hardware

  // ---------------------------------------------------------------------------
  // Holding one interval: do { now = micros(); } while (now - prev <= limit)
  // ---------------------------------------------------------------------------

  datatype HoldWait =
    | Held(elapsed: uint32, next: nat)  // the sample at next - 1 was more than `limit` after `prev`
    | HoldStalled                       // the trace ran out first

  function AwaitHold(trace: seq<Sample>, pos: nat, prevUs: uint32, limit: uint16): (r: HoldWait)
    requires pos <= |trace|
    decreases |trace| - pos
    ensures r.Held? ==> pos < r.next <= |trace| && r.elapsed > limit
  {
    if pos == |trace| then HoldStalled
    else if Elapsed(trace[pos].us, prevUs) > limit then Held(Elapsed(trace[pos].us, prevUs), pos + 1)
    else AwaitHold(trace, pos + 1, prevUs, limit)
  }

  /**
    A hold ends on the first poll at which strictly more than `limit` us have
    passed since `prev`, and never earlier.
   */
  lemma {:induction false} AwaitHoldEndsOnFirstOverrun(trace: seq<Sample>, pos: nat, prevUs: uint32, limit: uint16)
    requires pos <= |trace|
    decreases |trace| - pos
    ensures var r := AwaitHold(trace, pos, prevUs, limit);
      && (r.Held? ==>
            && r.elapsed == Elapsed(trace[r.next - 1].us, prevUs)
            && forall k :: pos <= k < r.next - 1 ==> Elapsed(trace[k].us, prevUs) <= limit)
      && (r.HoldStalled? ==> forall k :: pos <= k < |trace| ==> Elapsed(trace[k].us, prevUs) <= limit)
  {
    if pos < |trace| && Elapsed(trace[pos].us, prevUs) <= limit {
      AwaitHoldEndsOnFirstOverrun(trace, pos + 1, prevUs, limit);
    }
  }

  method WaitHold(trace: seq<Sample>, pos: nat, prevUs: uint32, limit: uint16) returns (r: HoldWait)
    requires pos <= |trace|
    ensures r == AwaitHold(trace, pos, prevUs, limit)
  {
    var p := pos;
    while true
      invariant pos <= p <= |trace|
      invariant AwaitHold(trace, p, prevUs, limit) == AwaitHold(trace, pos, prevUs, limit)
      decreases |trace| - p
    {
      if p == |trace| {
        return HoldStalled;
      }
      var edgeNow := trace[p].us;
      var duration := Elapsed(edgeNow, prevUs);
      p := p + 1;
      if duration > limit {
        return Held(duration, p);
      }
    }
  }

  // ---------------------------------------------------------------------------
  // The emitter pattern of a command
  // ---------------------------------------------------------------------------

  /**
    The emitter actions for one entry: a burst while `output_state` is HIGH,
    the LED driven LOW otherwise. The state starts HIGH and flips after every
    entry, so even entries are bursts and odd entries are pauses.
   */
  function SlotEvents(high: bool, limit: uint16): (r: seq<Event>)
    ensures HoldsOnce(r, high, limit)
  {
    var burst := [BurstOn, Hold(limit), BurstOff];
    var pause := [LedLow, Hold(limit)];
    assert burst[1..] == [Hold(limit), BurstOff] && burst[1..][1..] == [BurstOff] && [BurstOff][1..] == [];
    assert Holds([BurstOff]) == [] && Count([BurstOff], BurstOn) == 0 && Count([BurstOff], BurstOff) == 1;
    assert pause[1..] == [Hold(limit)] && [Hold(limit)][1..] == [];
    assert Holds([]) == [] && Count([], BurstOn) == 0 && Count([], BurstOff) == 0;
    if high then burst else pause
  }

  /** The last two actions of `e` are the feedback tone and then the LED driven LOW. */
  predicate EndsLedOff(e: seq<Event>) {
    |e| >= 2 && e[|e| - 2] == Tone && e[|e| - 1] == LedLow
  }

  /**
    What playing `cmd` from entry `i` on emits. Whatever the command, it ends
    with the feedback tone and then the LED driven LOW.
   */
  function Pattern(cmd: seq<uint16>, i: nat): (r: seq<Event>)
    requires i <= |cmd|
    decreases |cmd| - i
    ensures EndsLedOff(r)
  {
    if i == |cmd| then [Tone, LedLow]
    else
      var s := SlotEvents(i % 2 == 0, cmd[i]);
      LastTwo(s, Pattern(cmd, i + 1));
      s + Pattern(cmd, i + 1)
  }

  /** The pattern from entry `i` is that entry's actions followed by the pattern of the rest. */
  lemma PatternStep(cmd: seq<uint16>, i: nat)
    requires i < |cmd|
    ensures Pattern(cmd, i) == SlotEvents(i % 2 == 0, cmd[i]) + Pattern(cmd, i + 1)
  {
  }

  lemma LastTwo(s: seq<Event>, rest: seq<Event>)
    requires |rest| >= 2
    ensures var e := s + rest; e[|e| - 2] == rest[|rest| - 2] && e[|e| - 1] == rest[|rest| - 1]
  {
  }

  /**
    `e` holds exactly once, for `limit`, and switches a burst on and off once
    when `high`, never otherwise.
   */
  predicate HoldsOnce(e: seq<Event>, high: bool, limit: uint16) {
    && Holds(e) == [limit]
    && Count(e, BurstOn) == Count(e, BurstOff) == if high then 1 else 0
  }

  /** The limits of the hold events, in order. */
  function Holds(events: seq<Event>): seq<uint16> {
    if events == [] then []
    else (if events[0].Hold? then [events[0].limit] else []) + Holds(events[1..])
  }

  /** Number of times `x` occurs in `events`. */
  function Count(events: seq<Event>, x: Event): nat {
    if events == [] then 0 else (if events[0] == x then 1 else 0) + Count(events[1..], x)
  }

  // ---------------------------------------------------------------------------
  // Playback on a trace
  // ---------------------------------------------------------------------------

  /** The emitter actions performed, and whether the call ran to its end. */
  datatype Playback = Playback(events: seq<Event>, completed: bool)

  /**
    The `for(i=0; i<edges; i++)` loop of `play_IR_command` from entry `i` on,
    with `output_state` at `high` and the actions `done` already performed.
    A run that reaches the end of the command ends with the tone and then the
    LED driven LOW, whatever was performed before.
   */
  function PlayFrom(trace: seq<Sample>, pos: nat, cmd: seq<uint16>, i: nat, high: bool, done: seq<Event>): (r: Playback)
    requires pos <= |trace| && i <= |cmd|
    decreases |cmd| - i
    ensures r.completed ==> EndsLedOff(r.events)
  {
    if i == |cmd| then Playback(done + [Tone, LedLow], true)
    else if pos == |trace| then Playback(done, false)
    else
      var first := if high then BurstOn else LedLow;
      match AwaitHold(trace, pos + 1, trace[pos].us, cmd[i])
      case HoldStalled => Playback(done + [first], false)
      case Held(_, n) => PlayFrom(trace, n, cmd, i + 1, !high, done + SlotEvents(high, cmd[i]))
  }

  /** Playback only appends: a run after the actions `done` performs what a run from nothing performs. */
  lemma {:induction false} PlayAppends(trace: seq<Sample>, pos: nat, cmd: seq<uint16>, i: nat, high: bool, done: seq<Event>)
    requires pos <= |trace| && i <= |cmd|
    decreases |cmd| - i
    ensures var r := PlayFrom(trace, pos, cmd, i, high, []);
      PlayFrom(trace, pos, cmd, i, high, done) == Playback(done + r.events, r.completed)
  {
    if i < |cmd| && pos < |trace| {
      var s := SlotEvents(high, cmd[i]);
      var first := if high then BurstOn else LedLow;
      assert [] + s == s && [] + [first] == [first];
      match AwaitHold(trace, pos + 1, trace[pos].us, cmd[i])
      case HoldStalled =>
      case Held(_, n) =>
        PlayAppends(trace, n, cmd, i + 1, !high, done + s);
        PlayAppends(trace, n, cmd, i + 1, !high, s);
        var x := PlayFrom(trace, n, cmd, i + 1, !high, []).events;
        assert (done + s) + x == done + (s + x);
    } else {
      assert [] + [Tone, LedLow] == [Tone, LedLow];
    }
  }

  /**
    The actions `e` follow the pattern `pat`: all of it when the run
    `completed`, a proper prefix of it otherwise.
   */
  predicate Follows(e: seq<Event>, completed: bool, pat: seq<Event>) {
    && (completed ==> e == pat)
    && (!completed ==> |e| < |pat| && e == pat[..|e|])
  }

  /** Nothing, or only the first action of `s`, is a proper prefix of `s + p`. */
  lemma FollowsStart(s: seq<Event>, p: seq<Event>, k: nat)
    requires k <= 1 && k < |s| && |p| > 0
    ensures Follows(if k == 0 then [] else [s[0]], false, s + p)
  {
    assert s[..k] + [] == (if k == 0 then [] else [s[0]]);
    PrefixOfConcat(s, p, [], k);
  }

  /** Putting the same actions `s` in front of a run and of its pattern keeps the run following the pattern. */
  lemma FollowsCons(s: seq<Event>, p: seq<Event>, e: seq<Event>, completed: bool)
    requires Follows(e, completed, p)
    ensures Follows(s + e, completed, s + p)
  {
    if !completed {
      PrefixOfConcat(s, p, e, |s|);
    }
  }

  /**
    Playback follows the pattern: a run to the end emits exactly the pattern,
    and a run cut short by the trace has emitted a proper prefix of it.
   */
  lemma {:induction false} PlayFollowsPattern(trace: seq<Sample>, pos: nat, cmd: seq<uint16>, i: nat, high: bool)
    requires pos <= |trace| && i <= |cmd| && high == (i % 2 == 0)
    decreases |cmd| - i
    ensures var r := PlayFrom(trace, pos, cmd, i, high, []); Follows(r.events, r.completed, Pattern(cmd, i))
  {
    if i < |cmd| {
      var r := PlayFrom(trace, pos, cmd, i, high, []);
      var s := SlotEvents(high, cmd[i]);
      var p := Pattern(cmd, i + 1);
      PatternStep(cmd, i);
      if pos == |trace| {
        assert r == Playback([], false);
        FollowsStart(s, p, 0);
      } else {
        PlayStep(trace, pos, cmd, i, high);
        match AwaitHold(trace, pos + 1, trace[pos].us, cmd[i])
        case HoldStalled =>
          FollowsStart(s, p, 1);
        case Held(_, n) =>
          FlipParity(i);
          PlayFollowsPattern(trace, n, cmd, i + 1, !high);
          var rest := PlayFrom(trace, n, cmd, i + 1, !high, []);
          FollowsCons(s, p, rest.events, rest.completed);
      }
    } else {
      assert [] + [Tone, LedLow] == [Tone, LedLow];
    }
  }

  lemma FlipParity(i: nat)
    ensures ((i + 1) % 2 == 0) == !(i % 2 == 0)
  {
  }

  /** One entry of a playback from nothing: its first action or all its actions, then the rest of the run. */
  lemma PlayStep(trace: seq<Sample>, pos: nat, cmd: seq<uint16>, i: nat, high: bool)
    requires pos < |trace| && i < |cmd|
    ensures var r := PlayFrom(trace, pos, cmd, i, high, []);
      var s := SlotEvents(high, cmd[i]);
      match AwaitHold(trace, pos + 1, trace[pos].us, cmd[i])
      case HoldStalled => r == Playback([s[0]], false)
      case Held(_, n) =>
        var rest := PlayFrom(trace, n, cmd, i + 1, !high, []);
        r == Playback(s + rest.events, rest.completed)
  {
    var s := SlotEvents(high, cmd[i]);
    assert [] + s == s && [] + [s[0]] == [s[0]];
    match AwaitHold(trace, pos + 1, trace[pos].us, cmd[i])
    case HoldStalled =>
    case Held(_, n) =>
      PlayAppends(trace, n, cmd, i + 1, !high, s);
  }

  /** A prefix of `s + p`: the first `k` elements of `s`, followed by a proper prefix `q` of `p` when `k` is all of `s`. */
  lemma PrefixOfConcat(s: seq<Event>, p: seq<Event>, q: seq<Event>, k: nat)
    requires k <= |s| && |q| < |p| && q == p[..|q|] && (k < |s| ==> q == [])
    ensures s[..k] + q == (s + p)[..k + |q|] && k + |q| < |s + p|
  {
  }

  /**
    A whole `play_IR_command` call on the command the store returned: an empty
    command does nothing at all; otherwise the pattern is emitted, or a prefix
    of it when the trace runs out.
   */
  function Replay(trace: seq<Sample>, cmd: seq<uint16>): (r: Playback)
    ensures |cmd| == 0 ==> r.events == [] && r.completed
    ensures |cmd| > 0 && r.completed ==> r.events == Pattern(cmd, 0)
    ensures |cmd| > 0 && !r.completed ==> |r.events| < |Pattern(cmd, 0)| && r.events == Pattern(cmd, 0)[..|r.events|]
  {
    if |cmd| == 0 then Playback([], true)
    else
      PlayFollowsPattern(trace, 0, cmd, 0, true);
      PlayFrom(trace, 0, cmd, 0, true, [])
  }

  // ---------------------------------------------------------------------------
  // Properties of the pattern
  // ---------------------------------------------------------------------------

  /** Every BurstOn in `e` is followed by a hold and then BurstOff. */
  predicate BurstsClosed(e: seq<Event>) {
    forall k :: 0 <= k < |e| && e[k] == BurstOn ==> k + 2 < |e| && e[k + 1].Hold? && e[k + 2] == BurstOff
  }

  /** Every burst is switched off again: BurstOn is always followed by its hold and BurstOff. */
  lemma {:induction false} BurstsAreClosed(cmd: seq<uint16>, i: nat)
    requires i <= |cmd|
    decreases |cmd| - i
    ensures BurstsClosed(Pattern(cmd, i))
  {
    if i < |cmd| {
      BurstsAreClosed(cmd, i + 1);
      var s := SlotEvents(i % 2 == 0, cmd[i]);
      var rest := Pattern(cmd, i + 1);
      var e := Pattern(cmd, i);
      assert e == s + rest;
      assert BurstsClosed(rest);
      forall k | 0 <= k < |e| && e[k] == BurstOn
        ensures k + 2 < |e| && e[k + 1].Hold? && e[k + 2] == BurstOff
      {
        if k < |s| {
          assert e[k] == s[k];
          assert i % 2 == 0 && k == 0;
          assert e[1] == s[1] && e[2] == s[2];
        } else {
          var m := k - |s|;
          assert e[k] == rest[m] && rest[m] == BurstOn;
          assert m + 2 < |rest| && rest[m + 1].Hold? && rest[m + 2] == BurstOff;
          assert e[k + 1] == rest[m + 1];
          assert e[k + 2] == rest[m + 2];
        }
      }
    }
  }

  lemma {:induction false} HoldsAppend(a: seq<Event>, b: seq<Event>)
    decreases |a|
    ensures Holds(a + b) == Holds(a) + Holds(b)
  {
    if a != [] {
      assert (a + b)[0] == a[0];
      assert (a + b)[1..] == a[1..] + b;
      HoldsAppend(a[1..], b);
    } else {
      assert a + b == b;
    }
  }

  lemma {:induction false} CountAppend(a: seq<Event>, b: seq<Event>, x: Event)
    decreases |a|
    ensures Count(a + b, x) == Count(a, x) + Count(b, x)
  {
    if a != [] {
      assert (a + b)[0] == a[0];
      assert (a + b)[1..] == a[1..] + b;
      CountAppend(a[1..], b, x);
    } else {
      assert a + b == b;
    }
  }

  /** The tail of the pattern holds nothing and does not burst. */
  lemma TailQuiet()
    ensures Holds([Tone, LedLow]) == [] && Count([Tone, LedLow], BurstOn) == 0 && Count([Tone, LedLow], BurstOff) == 0
  {
    assert [Tone, LedLow][1..] == [LedLow] && [LedLow][1..] == [];
    assert Holds([LedLow]) == [] && Count([LedLow], BurstOn) == 0 && Count([LedLow], BurstOff) == 0;
  }

  /** The holds of the pattern replay the command's durations exactly, in order. */
  lemma {:induction false} PatternHoldsCommand(cmd: seq<uint16>, i: nat)
    requires i <= |cmd|
    decreases |cmd| - i
    ensures Holds(Pattern(cmd, i)) == cmd[i..]
  {
    if i == |cmd| {
      TailQuiet();
    } else {
      var s := SlotEvents(i % 2 == 0, cmd[i]);
      PatternStep(cmd, i);
      PatternHoldsCommand(cmd, i + 1);
      HoldsAppend(s, Pattern(cmd, i + 1));
      SliceHead(cmd, i);
    }
  }

  lemma SliceHead(cmd: seq<uint16>, i: nat)
    requires i < |cmd|
    ensures cmd[i..] == [cmd[i]] + cmd[i + 1..]
  {
  }

  /**
    Entries 0, 2, 4, ... are bursts: a command of `n` entries switches the burst
    on (n + 1) / 2 times and off as often.
   */
  lemma {:induction false} BurstCount(cmd: seq<uint16>, i: nat)
    requires i <= |cmd|
    decreases |cmd| - i
    ensures Count(Pattern(cmd, i), BurstOn) == (|cmd| + 1) / 2 - (i + 1) / 2
    ensures Count(Pattern(cmd, i), BurstOff) == (|cmd| + 1) / 2 - (i + 1) / 2
  {
    if i == |cmd| {
      TailQuiet();
    } else {
      BurstCount(cmd, i + 1);
      var s := SlotEvents(i % 2 == 0, cmd[i]);
      var rest := Pattern(cmd, i + 1);
      PatternStep(cmd, i);
      CountAppend(s, rest, BurstOn);
      CountAppend(s, rest, BurstOff);
      HalfStep(i);
    }
  }

  lemma HalfStep(i: nat)
    ensures (i + 2) / 2 == (i + 1) / 2 + (if i % 2 == 0 then 1 else 0)
  {
  }

  /**
    A playback that runs to its end leaves the emitter off, whether the command
    has an even or an odd number of entries; a non-empty one replays every
    duration and switches every burst off again.
   */
  lemma CompletedReplayLeavesLedOff(trace: seq<Sample>, cmd: seq<uint16>)
    requires |cmd| > 0
    ensures var r := Replay(trace, cmd);
      r.completed ==>
        && |r.events| >= 2 && r.events[|r.events| - 2] == Tone && r.events[|r.events| - 1] == LedLow
        && Holds(r.events) == cmd
        && Count(r.events, BurstOn) == Count(r.events, BurstOff) == (|cmd| + 1) / 2
  {
    PatternHoldsCommand(cmd, 0);
    BurstCount(cmd, 0);
  }
}
