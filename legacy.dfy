/**
 * The earlier single-file daemon (buttond.c): one action per binding, a
 * long press fixed at 5000 ms, a short press below 1000 ms and a 10 ms
 * debounce. Each binding of the table is its own state machine
 * RELEASED -> PRESSED -> DEBOUNCE/HANDLED -> RELEASED; there is no wakeup
 * flag, whether a binding waits for a wakeup follows from its state and
 * type. The table is the C array `actions` with `last` the index of the
 * last configured binding (action_count, -1 when there is none). The
 * clock is the parameter `now`; system() calls are returned as the list
 * of commands run.
 */
module Legacy {
  import opened Opt
  import Utils
  import TimeUtils
  import Keys

  const MAX_ACTIONS: int := 64
  const LONG_PRESS_MSECS: int := 5000
  const SHORT_PRESS_MSECS: int := 1000
  const DEBOUNCE_MSECS: int := 10

  /** The input_event type of key events. */
  const EV_KEY: int := 1

  // ---------------------------------------------------------------------
  // read_safe, resuming a partial read

  /** What read_safe returns from the running total: as in utils.h, except
      that EAGAIN gives 0 and drops what was read. */
  function ReadSpec(count: int, total: int, rs: seq<Utils.ReadOutcome>): int
    requires Utils.Decided(count, total, rs)
    decreases |rs|
  {
    if total >= count then total
    else
      match rs[0]
      case Read(n) => if n == 0 then total else ReadSpec(count, total + n, rs[1..])
      case ReadError(e) =>
        if e == Utils.EINTR then ReadSpec(count, total, rs[1..])
        else if e == Utils.EAGAIN then 0
        else -(e as int)
  }

  /** read_safe: fill the rest of a count-byte record, starting after the
      partial_read bytes a previous call left (taken modulo count, so a
      complete record starts a new one). */
  method ReadSafe(count: nat, partial: nat, rs: seq<Utils.ReadOutcome>) returns (r: int)
    requires count > 0 && Utils.Decided(count, partial % count, rs)
    ensures r == ReadSpec(count, partial % count, rs)
  {
    var total := partial % count;
    var k := 0;
    while total < count
      invariant 0 <= k <= |rs| && total >= 0
      invariant Utils.Decided(count, total, rs[k..])
      invariant ReadSpec(count, total, rs[k..]) == ReadSpec(count, partial % count, rs)
      decreases |rs| - k
    {
      assert rs[k..][1..] == rs[k + 1..];
      match rs[k]
      case ReadError(e) =>
        if e == Utils.EINTR {
          k := k + 1;
          continue;
        }
        r := if e == Utils.EAGAIN then 0 else -(e as int);
        return;
      case Read(n) =>
        if n == 0 {
          break;
        }
        total := total + n;
        k := k + 1;
    }
    r := total;
  }

  /** read_safe returns at most count: a count of bytes at least the
      resumed total, 0 when a read would block, or the negated errno of a
      failed read that was neither EINTR nor EAGAIN. */
  lemma {:induction false} ReadResult(count: int, total: int, rs: seq<Utils.ReadOutcome>)
    requires 0 <= total < count
    requires Utils.Decided(count, total, rs)
    ensures var r := ReadSpec(count, total, rs);
      || (total <= r <= count)
      || (r == 0 && Utils.ReadError(Utils.EAGAIN) in rs)
      || (r < 0 && Utils.ReadError(-r) in rs && -r != Utils.EINTR && -r != Utils.EAGAIN)
    decreases |rs|
  {
    var r := ReadSpec(count, total, rs);
    match rs[0]
    case Read(n) =>
      if n != 0 && total + n < count {
        ReadResult(count, total + n, rs[1..]);
        if r <= 0 {
          assert rs == [rs[0]] + rs[1..];
        }
      }
    case ReadError(e) =>
      if e == Utils.EINTR {
        ReadResult(count, total, rs[1..]);
        if r <= 0 {
          assert rs == [rs[0]] + rs[1..];
        }
      } else {
        assert rs[0] in rs;
      }
  }

  /** The single steps of the loop: an interrupted read is retried with
      the total unchanged, EAGAIN returns 0 and drops the bytes read so
      far, another error returns -errno, and an empty read returns the
      total. */
  lemma ReadSteps(count: int, total: int, rs: seq<Utils.ReadOutcome>, e: Utils.Errno)
    requires 0 <= total < count && Utils.Decided(count, total, rs)
    ensures Utils.Decided(count, total, [Utils.ReadError(Utils.EINTR)] + rs)
    ensures ReadSpec(count, total, [Utils.ReadError(Utils.EINTR)] + rs) == ReadSpec(count, total, rs)
    ensures ReadSpec(count, total, [Utils.ReadError(Utils.EAGAIN)] + rs) == 0
    ensures e != Utils.EINTR && e != Utils.EAGAIN ==> ReadSpec(count, total, [Utils.ReadError(e)] + rs) == -(e as int)
    ensures ReadSpec(count, total, [Utils.Read(0)] + rs) == total
  {
    assert ([Utils.ReadError(Utils.EINTR)] + rs)[1..] == rs;
  }

  /** Without EAGAIN this read_safe returns what the one of utils.h
      returns. */
  lemma {:induction false} ReadAgreesWithoutEagain(count: int, total: int, rs: seq<Utils.ReadOutcome>)
    requires Utils.Decided(count, total, rs)
    requires Utils.ReadError(Utils.EAGAIN) !in rs
    ensures ReadSpec(count, total, rs) == Utils.ReadSafeSpec(count, total, rs)
    decreases |rs|
  {
    if total < count {
      assert rs[0] in rs;
      match rs[0]
      case Read(n) =>
        if n != 0 {
          assert forall x :: x in rs[1..] ==> x in rs;
          ReadAgreesWithoutEagain(count, total + n, rs[1..]);
        }
      case ReadError(e) =>
        if e == Utils.EINTR {
          assert forall x :: x in rs[1..] ==> x in rs;
          ReadAgreesWithoutEagain(count, total, rs[1..]);
        }
    }
  }

  // ---------------------------------------------------------------------
  // Time helpers of buttond.c: the differences truncate, and the
  // conversions add the whole offset to the sub-second field.

  /** time_diff_ts: ts1 - ts2 in milliseconds, truncated toward zero. */
  function DiffTs(ts1: TimeUtils.Timespec, ts2: TimeUtils.Timespec): int {
    TimeUtils.CDiv(ts1.nsec - ts2.nsec, 1_000_000) + (ts1.sec - ts2.sec) * 1000
  }

  /** time_diff_tv: tv1 - tv2 in milliseconds, truncated toward zero. */
  function DiffTv(tv1: TimeUtils.Timeval, tv2: TimeUtils.Timeval): int {
    TimeUtils.CDiv(tv1.usec - tv2.usec, 1000) + (tv1.sec - tv2.sec) * 1000
  }

  /** time_tv2ts: base as a timespec, msec milliseconds later. */
  function Tv2Ts(base: TimeUtils.Timeval, msec: int): (r: TimeUtils.Timespec)
    ensures TimeUtils.TotalNs(r) == TimeUtils.TotalUs(base) * 1000 + msec * 1_000_000
    ensures base.usec >= 0 && msec >= 0 ==> TimeUtils.NormalTs(r)
  {
    var nsec := base.usec * 1000 + msec * 1_000_000;
    TimeUtils.Timespec(base.sec + TimeUtils.CDiv(nsec, 1_000_000_000), TimeUtils.CMod(nsec, 1_000_000_000))
  }

  /** time_ts2tv: base as a timeval, msec milliseconds later; nanoseconds
      below a microsecond are dropped. */
  function Ts2Tv(base: TimeUtils.Timespec, msec: int): (r: TimeUtils.Timeval)
    ensures TimeUtils.TotalUs(r) == base.sec * 1_000_000
      + TimeUtils.CDiv(base.nsec, 1000) + msec * 1000
    ensures base.nsec >= 0 && msec >= 0 ==> TimeUtils.NormalTv(r)
  {
    var usec := TimeUtils.CDiv(base.nsec, 1000) + msec * 1000;
    TimeUtils.Timeval(base.sec + TimeUtils.CDiv(usec, 1_000_000), TimeUtils.CMod(usec, 1_000_000))
  }

  /** Both differences are within one millisecond of the exact one, on
      either side. */
  lemma DiffsWithinOneMsec(ts1: TimeUtils.Timespec, ts2: TimeUtils.Timespec, tv1: TimeUtils.Timeval, tv2: TimeUtils.Timeval)
    ensures var e := TimeUtils.TotalNs(ts1) - TimeUtils.TotalNs(ts2);
      e - 1_000_000 < DiffTs(ts1, ts2) * 1_000_000 < e + 1_000_000
    ensures var e := TimeUtils.TotalUs(tv1) - TimeUtils.TotalUs(tv2);
      e - 1000 < DiffTv(tv1, tv2) * 1000 < e + 1000
  {
    var q := TimeUtils.CDiv(ts1.nsec - ts2.nsec, 1_000_000);
    assert DiffTs(ts1, ts2) * 1_000_000 == q * 1_000_000 + (ts1.sec - ts2.sec) * 1_000_000_000;
    var p := TimeUtils.CDiv(tv1.usec - tv2.usec, 1000);
    assert DiffTv(tv1, tv2) * 1000 == p * 1000 + (tv1.sec - tv2.sec) * 1_000_000;
  }

  /** For the non-negative offsets the daemon uses, the conversions agree
      with those of time_utils.h, which split the offset into seconds and
      milliseconds first. */
  lemma ConversionsAgree(tv: TimeUtils.Timeval, ts: TimeUtils.Timespec, msec: int)
    requires tv.usec >= 0 && ts.nsec >= 0 && msec >= 0
    ensures Tv2Ts(tv, msec) == TimeUtils.Tv2Ts(tv, msec)
    ensures Ts2Tv(ts, msec) == TimeUtils.Ts2Tv(ts, msec)
  {
    TimeUtils.NormalTsUnique(Tv2Ts(tv, msec), TimeUtils.Tv2Ts(tv, msec));
    TimeUtils.NormalTvUnique(Ts2Tv(ts, msec), TimeUtils.Ts2Tv(ts, msec));
  }

  // ---------------------------------------------------------------------
  // The bindings and handle_key

  /** struct action of buttond.c: a key code, a press type, the command
      (always set once the options are parsed) and the state machine. */
  datatype Binding = Binding(
    code: int,
    kind: Keys.PressType,
    command: string,
    state: Keys.KeyState,
    tvPressed: TimeUtils.Timeval,
    tvReleased: TimeUtils.Timeval,
    tsWakeup: TimeUtils.Timespec)

  /** has_wakeup: a binding waits for a wakeup while debouncing, or while
      a long-press binding is held. */
  predicate HasWakeup(b: Binding) {
    b.state == Keys.Debounce || (b.state == Keys.Pressed && b.kind == Keys.LongPress)
  }

  /** The wakeup of a binding that has one is where handle_key put it: the
      press time plus 5000 ms while a long press is held, the press time
      plus 10 ms while debouncing. */
  predicate WellFormed(b: Binding) {
    && (b.state == Keys.Pressed && b.kind == Keys.LongPress ==> b.tsWakeup == Tv2Ts(b.tvPressed, LONG_PRESS_MSECS))
    && (b.state == Keys.Debounce ==> b.tsWakeup == Tv2Ts(b.tvPressed, DEBOUNCE_MSECS))
  }

  /** handle_key on one binding. */
  function Step(b: Binding, ev: Keys.InputEvent): Binding {
    if b.state == Keys.Released || b.state == Keys.Debounce then
      if ev.value == 0 then b
      else
        var pressed := if b.state == Keys.Released then ev.time else b.tvPressed;
        var b1 := b.(tvPressed := pressed, state := Keys.Pressed);
        if b.kind == Keys.LongPress then b1.(tsWakeup := Tv2Ts(pressed, LONG_PRESS_MSECS)) else b1
    else if b.state == Keys.Pressed then
      if ev.value != 0 then b
      else b.(state := Keys.Debounce, tvReleased := ev.time, tsWakeup := Tv2Ts(b.tvPressed, DEBOUNCE_MSECS))
    else
      if ev.value != 0 then b else b.(state := Keys.Released)
  }

  /** The transitions of handle_key: a release while released or
      debouncing and a press while pressed or handled change nothing; a
      press sets the press time only from RELEASED and arms a long
      binding's wakeup 5000 ms after it; a release of a pressed binding
      debounces it with its wakeup 10 ms after the press; a release of a
      handled binding releases it. The code, type and command never
      change. */
  lemma StepTransitions(b: Binding, ev: Keys.InputEvent)
    ensures var r := Step(b, ev);
      && r.code == b.code && r.kind == b.kind && r.command == b.command
      && ((ev.value == 0 && (b.state == Keys.Released || b.state == Keys.Debounce)) ==> r == b)
      && ((ev.value != 0 && (b.state == Keys.Pressed || b.state == Keys.Handled)) ==> r == b)
      && ((ev.value != 0 && (b.state == Keys.Released || b.state == Keys.Debounce)) ==>
            && r.state == Keys.Pressed
            && r.tvPressed == (if b.state == Keys.Released then ev.time else b.tvPressed)
            && r.tsWakeup == (if b.kind == Keys.LongPress then Tv2Ts(r.tvPressed, LONG_PRESS_MSECS) else b.tsWakeup))
      && ((ev.value == 0 && b.state == Keys.Pressed) ==>
            r == b.(state := Keys.Debounce, tvReleased := ev.time, tsWakeup := Tv2Ts(b.tvPressed, DEBOUNCE_MSECS)))
      && ((ev.value == 0 && b.state == Keys.Handled) ==> r == b.(state := Keys.Released))
  {
  }

  /** handle_key keeps every wakeup where it belongs. */
  lemma StepPreservesWellFormed(b: Binding, ev: Keys.InputEvent)
    requires WellFormed(b)
    ensures WellFormed(Step(b, ev))
  {
  }

  /** The debounce wakeup is measured from the press, not from the
      release: after a press held 10 ms or more it is already due when the
      release arrives, so the release is handled on the next wakeup. */
  lemma DebounceCountsFromPress(b: Binding, ev: Keys.InputEvent)
    requires b.state == Keys.Pressed && ev.value == 0
    requires TimeUtils.TotalUs(ev.time) >= TimeUtils.TotalUs(b.tvPressed) + DEBOUNCE_MSECS * 1000
    ensures Step(b, ev).state == Keys.Debounce
    ensures TimeUtils.TotalNs(Step(b, ev).tsWakeup) <= TimeUtils.TotalUs(ev.time) * 1000
  {
  }

  /** handle_key, in place on binding i of the table. */
  method HandleKey(ev: Keys.InputEvent, actions: array<Binding>, i: nat)
    requires i < actions.Length
    modifies actions
    ensures actions[i] == Step(old(actions[i]), ev)
    ensures forall j :: 0 <= j < actions.Length && j != i ==> actions[j] == old(actions[j])
  {
    var state := actions[i].state;
    if state == Keys.Released || state == Keys.Debounce {
      if ev.value == 0 {
        return;
      }
      if state == Keys.Released {
        actions[i] := actions[i].(tvPressed := ev.time);
      }
      actions[i] := actions[i].(state := Keys.Pressed);
      if actions[i].kind == Keys.LongPress {
        actions[i] := actions[i].(tsWakeup := Tv2Ts(actions[i].tvPressed, LONG_PRESS_MSECS));
      }
    } else if state == Keys.Pressed {
      if ev.value != 0 {
        return;
      }
      actions[i] := actions[i].(state := Keys.Debounce);
      actions[i] := actions[i].(tvReleased := ev.time);
      actions[i] := actions[i].(tsWakeup := Tv2Ts(actions[i].tvPressed, DEBOUNCE_MSECS));
    } else {
      if ev.value != 0 {
        return;
      }
      actions[i] := actions[i].(state := Keys.Released);
    }
  }

  // ---------------------------------------------------------------------
  // compute_timeout

  function NonNeg(x: int): int {
    if x < 0 then 0 else x
  }

  /** compute_timeout over the bindings 0..last: -1 when none waits for a
      wakeup, otherwise the smallest truncated distance to a wakeup,
      clamped at 0. */
  method ComputeTimeout(actions: array<Binding>, last: int, now: TimeUtils.Timespec) returns (timeout: int)
    requires -1 <= last < actions.Length
    ensures timeout == -1 <==> forall j :: 0 <= j <= last ==> !HasWakeup(actions[j])
    ensures timeout >= 0 ==>
      exists j :: 0 <= j <= last && HasWakeup(actions[j]) && timeout == NonNeg(DiffTs(actions[j].tsWakeup, now))
    ensures forall j :: 0 <= j <= last && HasWakeup(actions[j]) ==> 0 <= timeout <= NonNeg(DiffTs(actions[j].tsWakeup, now))
  {
    timeout := -1;
    var i := 0;
    while i <= last
      invariant 0 <= i <= last + 1 && timeout >= -1
      invariant timeout == -1 <==> forall j :: 0 <= j < i ==> !HasWakeup(actions[j])
      invariant timeout >= 0 ==>
        exists j :: 0 <= j < i && HasWakeup(actions[j]) && timeout == NonNeg(DiffTs(actions[j].tsWakeup, now))
      invariant forall j :: 0 <= j < i && HasWakeup(actions[j]) ==> 0 <= timeout <= NonNeg(DiffTs(actions[j].tsWakeup, now))
    {
      if HasWakeup(actions[i]) {
        var diff := DiffTs(actions[i].tsWakeup, now);
        if diff < 0 {
          timeout := 0;
        } else if timeout == -1 || diff < timeout {
          timeout := diff;
        }
      }
      i := i + 1;
    }
  }

  // ---------------------------------------------------------------------
  // handle_timeouts

  /** The due test as written: the truncated distance to the wakeup is not
      positive, which holds up to a millisecond before the wakeup. */
  predicate DueAsWritten(b: Binding, now: TimeUtils.Timespec) {
    HasWakeup(b) && DiffTs(b.tsWakeup, now) <= 0
  }

  /** The due test with the distance rounded up, as time_utils.h computes
      it: the wakeup time has been reached. */
  predicate Due(b: Binding, now: TimeUtils.Timespec) {
    HasWakeup(b) && TimeUtils.DiffTs(b.tsWakeup, now) <= 0
  }

  /** The due test a pass applies: the truncating one as written, or the
      rounded-up one. */
  predicate DueBy(asWritten: bool, b: Binding, now: TimeUtils.Timespec) {
    if asWritten then DueAsWritten(b, now) else Due(b, now)
  }

  /** A wakeup that the rounded-up test finds due is due as written too:
      the truncated distance is never above the rounded-up one. The
      converse fails (LongPressLostAsWritten). */
  lemma DueIsDueAsWritten(b: Binding, now: TimeUtils.Timespec)
    ensures Due(b, now) ==> DueAsWritten(b, now)
  {
    var d := b.tsWakeup.nsec - now.nsec;
    TimeUtils.CDivMonotone(d, d + 1_000_000 - 1, 1_000_000);
  }

  /** A binding firing: its new value and the commands run. */
  datatype Firing = Firing(binding: Binding, commands: seq<string>)

  /** The release time a firing binding measures with: the real one after
      a debounce, now for a binding still held. */
  function ReleaseTime(b: Binding, now: TimeUtils.Timespec): TimeUtils.Timeval {
    if b.state != Keys.Debounce then Ts2Tv(now, 0) else b.tvReleased
  }

  /** Whether the measured press runs the binding's command: a long
      binding held 5000 ms or more, a short one released before 1000 ms. */
  predicate Runs(b: Binding, now: TimeUtils.Timespec) {
    var diff := DiffTv(ReleaseTime(b, now), b.tvPressed);
    (b.kind == Keys.LongPress && diff >= LONG_PRESS_MSECS) || (b.kind == Keys.ShortPress && diff < SHORT_PRESS_MSECS)
  }

  /** The body of handle_timeouts' loop for one due binding. */
  function Fire(b: Binding, now: TimeUtils.Timespec): (f: Firing)
    ensures f.binding.code == b.code && f.binding.kind == b.kind && f.binding.command == b.command
    ensures f.binding.tvPressed == b.tvPressed && f.binding.tsWakeup == b.tsWakeup
    ensures f.binding.tvReleased == ReleaseTime(b, now)
    ensures f.binding.state == (if b.state == Keys.Debounce then Keys.Released else Keys.Handled)
    ensures !HasWakeup(f.binding) && WellFormed(f.binding)
    ensures f.commands == [] || f.commands == [b.command]
    ensures f.commands == [b.command] <==> Runs(b, now)
  {
    var b1 := b.(tvReleased := ReleaseTime(b, now));
    var commands := if Runs(b, now) then [b.command] else [];
    Firing(b1.(state := if b.state == Keys.Debounce then Keys.Released else Keys.Handled), commands)
  }

  /** The state after handle_timeouts has looked at bindings 0..n-1. */
  datatype Round = Round(bindings: seq<Binding>, commands: seq<string>)

  /** The pass over bindings 0..n-1, with the due test chosen by
      asWritten. */
  function Timeouts(bs: seq<Binding>, now: TimeUtils.Timespec, n: nat, asWritten: bool): (p: Round)
    requires n <= |bs|
    ensures |p.bindings| == |bs|
    ensures forall j :: n <= j < |bs| ==> p.bindings[j] == bs[j]
    decreases n
  {
    if n == 0 then Round(bs, [])
    else
      var p := Timeouts(bs, now, n - 1, asWritten);
      if !DueBy(asWritten, bs[n - 1], now) then p
      else
        var f := Fire(bs[n - 1], now);
        Round(p.bindings[n - 1 := f.binding], p.commands + f.commands)
  }

  /** What a pass does: every due binding is fired (it has no wakeup left
      and is RELEASED after a debounce, HANDLED otherwise), every other
      binding is unchanged, and each command run is the command of a due
      binding whose measured press matched. */
  lemma {:induction false} TimeoutsOutcome(bs: seq<Binding>, now: TimeUtils.Timespec, n: nat, asWritten: bool)
    requires n <= |bs|
    ensures var p := Timeouts(bs, now, n, asWritten);
      && (forall j :: 0 <= j < n && DueBy(asWritten, bs[j], now) ==> p.bindings[j] == Fire(bs[j], now).binding)
      && (forall j :: 0 <= j < n && !DueBy(asWritten, bs[j], now) ==> p.bindings[j] == bs[j])
      && (forall c :: c in p.commands ==>
            exists j :: 0 <= j < n && DueBy(asWritten, bs[j], now) && Runs(bs[j], now) && bs[j].command == c)
      && (forall j :: 0 <= j < n && DueBy(asWritten, bs[j], now) && Runs(bs[j], now) ==> bs[j].command in p.commands)
    decreases n
  {
    if n > 0 {
      TimeoutsOutcome(bs, now, n - 1, asWritten);
      var p := Timeouts(bs, now, n - 1, asWritten);
      if DueBy(asWritten, bs[n - 1], now) {
        var f := Fire(bs[n - 1], now);
        forall c | c in p.commands + f.commands
          ensures exists j :: 0 <= j < n && DueBy(asWritten, bs[j], now) && Runs(bs[j], now) && bs[j].command == c
        {
          if c !in p.commands {
            assert c in f.commands;
          }
        }
      }
    }
  }

  /** With the due test rounded up, a long press held until its wakeup
      always runs its command: the wakeup was armed 5000 ms after the
      press, so once it is reached the measured hold is 5000 ms or more. */
  lemma LongWakeupRuns(b: Binding, now: TimeUtils.Timespec)
    requires WellFormed(b) && TimeUtils.NormalTv(b.tvPressed) && TimeUtils.NormalTs(now)
    requires b.state == Keys.Pressed && b.kind == Keys.LongPress && Due(b, now)
    ensures Runs(b, now) && Fire(b, now).commands == [b.command]
  {
    var p := TimeUtils.TotalUs(b.tvPressed);
    TimeUtils.DiffTsRoundsUp(b.tsWakeup, now);
    var d := TimeUtils.DiffTs(b.tsWakeup, now);
    assert d * 1_000_000 <= 0 by {
      if d > 0 {
        TimeUtils.MulAtLeast(d, 1_000_000);
      }
    }
    assert TimeUtils.TotalNs(now) >= (p + LONG_PRESS_MSECS * 1000) * 1000;
    var rel := Ts2Tv(now, 0);
    assert TimeUtils.TotalUs(rel) * 1000
      == now.sec * 1_000_000_000 + TimeUtils.CDiv(now.nsec, 1000) * 1000;
    TimeUtils.MulMono(TimeUtils.TotalUs(rel), p + LONG_PRESS_MSECS * 1000, 1000);
    DiffsWithinOneMsec(now, now, rel, b.tvPressed);
    var diff := DiffTv(rel, b.tvPressed);
    TimeUtils.MulMono(diff, LONG_PRESS_MSECS, 1000);
  }

  /** A long binding pressed at 100.002 s and held: its wakeup is at
      105.002 s. The due test as written already fires at 105.001000001 s,
      where the hold measures 4999 ms, so no command runs and the binding
      is HANDLED: the long press is lost. The rounded-up test waits. */
  const HeldLong: Binding := Binding(
    30, Keys.LongPress, "poweroff", Keys.Pressed,
    TimeUtils.Timeval(100, 2000), TimeUtils.Timeval(90, 2000), TimeUtils.Timespec(105, 2_000_000))

  lemma LongPressLostAsWritten()
    ensures WellFormed(HeldLong)
    ensures DueAsWritten(HeldLong, TimeUtils.Timespec(105, 1_000_001))
    ensures Fire(HeldLong, TimeUtils.Timespec(105, 1_000_001)).commands == []
    ensures Fire(HeldLong, TimeUtils.Timespec(105, 1_000_001)).binding.state == Keys.Handled
    ensures !Due(HeldLong, TimeUtils.Timespec(105, 1_000_001))
  {
    HeldLongWellFormed();
    HeldLongDueAsWritten();
    HeldLongRunsNothing();
    HeldLongNotDue();
  }

  /** The same binding in a pass over the table: as written the pass
      fires it and runs nothing; with the rounded-up test it waits. */
  lemma LongPressLostInPass()
    ensures var now := TimeUtils.Timespec(105, 1_000_001);
      && Timeouts([HeldLong], now, 1, true) == Round([Fire(HeldLong, now).binding], [])
      && Fire(HeldLong, now).binding.state == Keys.Handled
      && Timeouts([HeldLong], now, 1, false) == Round([HeldLong], [])
  {
    HeldLongDueAsWritten();
    HeldLongRunsNothing();
    HeldLongNotDue();
  }

  lemma HeldLongWellFormed()
    ensures WellFormed(HeldLong)
  {
  }

  lemma HeldLongDueAsWritten()
    ensures DueAsWritten(HeldLong, TimeUtils.Timespec(105, 1_000_001))
  {
  }

  lemma HeldLongNotDue()
    ensures !Due(HeldLong, TimeUtils.Timespec(105, 1_000_001))
  {
  }

  lemma HeldLongReleasedAt()
    ensures ReleaseTime(HeldLong, TimeUtils.Timespec(105, 1_000_001)) == TimeUtils.Timeval(105, 1000)
  {
  }

  lemma HeldLongMeasures()
    ensures DiffTv(TimeUtils.Timeval(105, 1000), HeldLong.tvPressed) == 4999
  {
  }

  lemma HeldLongRunsNothing()
    ensures !Runs(HeldLong, TimeUtils.Timespec(105, 1_000_001))
  {
    HeldLongReleasedAt();
    HeldLongMeasures();
  }

  /** The body of handle_timeouts' loop, in place on one due binding. */
  method FireDue(actions: array<Binding>, i: nat, now: TimeUtils.Timespec) returns (commands: seq<string>)
    requires i < actions.Length
    modifies actions
    ensures var f := Fire(old(actions[i]), now);
      actions[i] == f.binding && commands == f.commands
    ensures forall j :: 0 <= j < actions.Length && j != i ==> actions[j] == old(actions[j])
  {
    if actions[i].state != Keys.Debounce {
      actions[i] := actions[i].(tvReleased := Ts2Tv(now, 0));
    }
    var diff := DiffTv(actions[i].tvReleased, actions[i].tvPressed);
    commands := [];
    if (actions[i].kind == Keys.LongPress && diff >= LONG_PRESS_MSECS)
       || (actions[i].kind == Keys.ShortPress && diff < SHORT_PRESS_MSECS) {
      commands := [actions[i].command];
    }
    if actions[i].state == Keys.Debounce {
      actions[i] := actions[i].(state := Keys.Released);
    } else {
      actions[i] := actions[i].(state := Keys.Handled);
    }
  }

  /** handle_timeouts over the bindings 0..last, with the due test chosen
      by asWritten. */
  method HandleTimeouts(actions: array<Binding>, last: int, now: TimeUtils.Timespec, asWritten: bool)
    returns (commands: seq<string>)
    requires -1 <= last < actions.Length
    modifies actions
    ensures var p := Timeouts(old(actions[..]), now, last + 1, asWritten);
      actions[..] == p.bindings && commands == p.commands
  {
    ghost var bs := actions[..];
    var i := 0;
    commands := [];
    while i <= last
      invariant 0 <= i <= last + 1
      invariant Timeouts(bs, now, i, asWritten) == Round(actions[..], commands)
    {
      var diff := if asWritten then DiffTs(actions[i].tsWakeup, now) else TimeUtils.DiffTs(actions[i].tsWakeup, now);
      if HasWakeup(actions[i]) && diff <= 0 {
        ghost var before := actions[..];
        var more := FireDue(actions, i, now);
        assert actions[..] == before[i := actions[i]];
        commands := commands + more;
      }
      i := i + 1;
    }
  }

  // ---------------------------------------------------------------------
  // The dispatch step of main

  /** The lowest index from i to last whose binding has the code. */
  function FindBinding(bs: seq<Binding>, last: int, code: int, i: nat): (r: Option<nat>)
    requires last < |bs|
    ensures r.Some? ==> i <= r.value <= last && bs[r.value].code == code
    ensures r.Some? ==> forall j :: i <= j < r.value ==> bs[j].code != code
    ensures r.None? ==> forall j :: i <= j <= last ==> bs[j].code != code
    decreases last + 1 - i
  {
    if i > last then None
    else if bs[i].code == code then Some(i)
    else FindBinding(bs, last, code, i + 1)
  }

  /** One event read from the input device: events that are not key
      events, and keys without a binding, are dropped; otherwise the
      first binding of the key steps. */
  function DispatchSpec(bs: seq<Binding>, last: int, ev: Keys.InputEvent): seq<Binding>
    requires last < |bs|
  {
    if ev.kind != EV_KEY then bs
    else match FindBinding(bs, last, ev.code, 0)
      case None => bs
      case Some(k) => bs[k := Step(bs[k], ev)]
  }

  /** Only the first binding of the event's key can change, and only for
      a key event; every other binding is left as it was. */
  lemma DispatchTouchesFirstBinding(bs: seq<Binding>, last: int, ev: Keys.InputEvent)
    requires -1 <= last < |bs|
    ensures var r := DispatchSpec(bs, last, ev);
      && |r| == |bs|
      && (ev.kind != EV_KEY ==> r == bs)
      && ((forall j :: 0 <= j <= last ==> bs[j].code != ev.code) ==> r == bs)
      && forall j :: 0 <= j < |bs| && r[j] != bs[j] ==>
           ev.kind == EV_KEY && j <= last && bs[j].code == ev.code
           && (forall m :: 0 <= m < j ==> bs[m].code != ev.code)
           && r[j] == Step(bs[j], ev)
  {
  }

  /** The dispatch step of main: drop non-key events, find the first
      binding of the key, and hand the event to it. */
  method Dispatch(actions: array<Binding>, last: int, ev: Keys.InputEvent)
    requires -1 <= last < actions.Length
    modifies actions
    ensures actions[..] == DispatchSpec(old(actions[..]), last, ev)
  {
    if ev.kind != EV_KEY {
      return;
    }
    var key := 0;
    while key <= last && actions[key].code != ev.code
      invariant 0 <= key <= last + 1
      invariant FindBinding(actions[..], last, ev.code, 0) == FindBinding(actions[..], last, ev.code, key)
    {
      key := key + 1;
    }
    if key > last {
      return;
    }
    HandleKey(ev, actions, key);
  }
}
