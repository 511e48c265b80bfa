/**
 * The key state machine and the timeout scheduler of the multi-action
 * daemon (keys.c), over the shapes of buttond.h.
 *
 * A key moves RELEASED -> PRESSED -> DEBOUNCE -> RELEASED on a short press
 * and RELEASED -> PRESSED -> HANDLED -> RELEASED when a long-press wakeup
 * fires while it is held. The C key table is an array of structs updated
 * in place: here an `array<Key>` whose methods rewrite one element field by
 * field, each proved against a pure function (Arm, Step, FireKey,
 * Timeouts) that the lemmas reason about. The clock is the parameter
 * `now`; system() and exit() are recorded as effects.
 */
module Keys {
  import opened Opt
  import opened TimeUtils

  /** enum type of struct action */
  datatype PressType = LongPress | ShortPress

  /** struct action, with the exit_after flag keys.c reads. The command is
      None where the C pointer is NULL. */
  datatype Action = Action(kind: PressType, triggerTime: int, command: Option<string>, exitAfter: bool)

  /** enum state of struct key */
  datatype KeyState = Released | Pressed | Debounce | Handled

  /** struct key: its actions are fixed at configuration time, the other
      fields are the live state machine. */
  datatype Key = Key(
    code: int,
    hasWakeup: bool,
    actions: seq<Action>,
    tvPressed: Timeval,
    tvReleased: Timeval,
    tsWakeup: Timespec,
    state: KeyState)

  /** The fields of struct input_event the state machine reads. */
  datatype InputEvent = InputEvent(time: Timeval, kind: int, code: int, value: int)

  /** What the daemon does outside itself while firing wakeups. */
  datatype Effect = RunCommand(command: string) | Exit(status: int) | NoActionWarning(code: int)

  function LastAction(k: Key): Action
    requires |k.actions| >= 1
  {
    k.actions[|k.actions| - 1]
  }

  // ---------------------------------------------------------------------
  // Choosing an action (action_match, find_key_action)
  // ---------------------------------------------------------------------

  /** action_match: a long action matches from its trigger time on, a
      short one strictly before it. */
  predicate ActionMatch(a: Action, time: int) {
    match a.kind
    case LongPress => time >= a.triggerTime
    case ShortPress => time < a.triggerTime
  }

  /** A longer press keeps matching a long action, a shorter one keeps
      matching a short action. */
  lemma ActionMatchMonotone(a: Action, time: int, longer: int)
    requires time <= longer
    ensures a.kind == LongPress && ActionMatch(a, time) ==> ActionMatch(a, longer)
    ensures a.kind == ShortPress && ActionMatch(a, longer) ==> ActionMatch(a, time)
  {
  }

  /** The end of the run of actions of `kind` that starts at index i. */
  function RunEnd(actions: seq<Action>, kind: PressType, i: nat): (e: nat)
    requires i <= |actions|
    ensures i <= e <= |actions|
    ensures forall m :: i <= m < e ==> actions[m].kind == kind
    ensures e < |actions| ==> actions[e].kind != kind
    decreases |actions| - i
  {
    if i == |actions| || actions[i].kind != kind then i else RunEnd(actions, kind, i + 1)
  }

  /** The start of the run of actions of `kind` that ends at index i. */
  function RunStart(actions: seq<Action>, kind: PressType, i: int): (s: nat)
    requires -1 <= i < |actions|
    ensures s <= i + 1
    ensures forall m :: s <= m <= i ==> actions[m].kind == kind
    ensures s > 0 ==> actions[s - 1].kind != kind
    decreases i + 1
  {
    if i < 0 || actions[i].kind != kind then i + 1 else RunStart(actions, kind, i - 1)
  }

  /** The leading run of short actions is actions[..ShortEnd]. */
  function ShortEnd(actions: seq<Action>): nat
  {
    RunEnd(actions, ShortPress, 0)
  }

  /** The trailing run of long actions is actions[LongStart..]. */
  function LongStart(actions: seq<Action>): nat
  {
    RunStart(actions, LongPress, |actions| - 1)
  }

  /** The first loop of find_key_action, from index i on. */
  function ScanShort(actions: seq<Action>, time: int, i: nat): (r: Option<nat>)
    requires i <= |actions|
    ensures r.Some? ==> i <= r.value < |actions|
    decreases |actions| - i
  {
    if i == |actions| || actions[i].kind != ShortPress then None
    else if ActionMatch(actions[i], time) then Some(i)
    else ScanShort(actions, time, i + 1)
  }

  /** The second loop of find_key_action, from index i down. */
  function ScanLong(actions: seq<Action>, time: int, i: int): (r: Option<nat>)
    requires -1 <= i < |actions|
    ensures r.Some? ==> r.value <= i
    decreases i + 1
  {
    if i < 0 || actions[i].kind != LongPress then None
    else if ActionMatch(actions[i], time) then Some(i)
    else ScanLong(actions, time, i - 1)
  }

  /** The first loop finds the first matching action of the short run
      starting at i, and finds none exactly when none in that run matches. */
  lemma {:induction false} ScanShortFindsFirst(actions: seq<Action>, time: int, i: nat)
    requires i <= |actions|
    ensures var r := ScanShort(actions, time, i);
      && (r.Some? ==> (r.value < RunEnd(actions, ShortPress, i)
            && ActionMatch(actions[r.value], time)
            && forall j :: i <= j < r.value ==> !ActionMatch(actions[j], time)))
      && (r.None? ==> forall j :: i <= j < RunEnd(actions, ShortPress, i) ==> !ActionMatch(actions[j], time))
    decreases |actions| - i
  {
    if i < |actions| && actions[i].kind == ShortPress && !ActionMatch(actions[i], time) {
      ScanShortFindsFirst(actions, time, i + 1);
    }
  }

  /** The second loop finds the last matching action of the long run
      ending at i, and finds none exactly when none in that run matches. */
  lemma {:induction false} ScanLongFindsLast(actions: seq<Action>, time: int, i: int)
    requires -1 <= i < |actions|
    ensures var r := ScanLong(actions, time, i);
      && (r.Some? ==> (RunStart(actions, LongPress, i) <= r.value
            && ActionMatch(actions[r.value], time)
            && forall j :: r.value < j <= i ==> !ActionMatch(actions[j], time)))
      && (r.None? ==> forall j :: RunStart(actions, LongPress, i) <= j <= i ==> !ActionMatch(actions[j], time))
    decreases i + 1
  {
    if i >= 0 && actions[i].kind == LongPress && !ActionMatch(actions[i], time) {
      ScanLongFindsLast(actions, time, i - 1);
    }
  }

  /** find_key_action, as the index of the chosen action. */
  function FindAction(actions: seq<Action>, time: int): (r: Option<nat>)
    ensures r.Some? ==> r.value < |actions|
  {
    match ScanShort(actions, time, 0)
    case Some(i) => Some(i)
    case None => ScanLong(actions, time, |actions| - 1)
  }

  /** find_key_action chooses the first matching action of the leading
      run of short actions, otherwise the last matching action of the
      trailing run of long actions, otherwise none; actions outside both
      runs are never chosen. */
  lemma FindActionChoice(actions: seq<Action>, time: int)
    ensures var r := FindAction(actions, time);
      && (r.Some? ==> ActionMatch(actions[r.value], time))
      && (r.Some? && r.value < ShortEnd(actions) ==>
            forall j :: 0 <= j < r.value ==> !ActionMatch(actions[j], time))
      && (r.Some? && r.value >= ShortEnd(actions) ==>
            && LongStart(actions) <= r.value
            && (forall j :: r.value < j < |actions| ==> !ActionMatch(actions[j], time))
            && (forall j :: 0 <= j < ShortEnd(actions) ==> !ActionMatch(actions[j], time)))
      && (r.None? ==> forall j :: 0 <= j < ShortEnd(actions) || LongStart(actions) <= j < |actions| ==>
            !ActionMatch(actions[j], time))
  {
    ScanShortFindsFirst(actions, time, 0);
    ScanLongFindsLast(actions, time, |actions| - 1);
    var r := ScanLong(actions, time, |actions| - 1);
    assert r.Some? ==> actions[r.value].kind == LongPress;
  }

  /** find_key_action with its two loops and early returns. */
  method FindKeyAction(actions: seq<Action>, time: int) returns (r: Option<nat>)
    ensures r == FindAction(actions, time)
  {
    var i := 0;
    while i < |actions|
      invariant 0 <= i <= |actions|
      invariant ScanShort(actions, time, 0) == ScanShort(actions, time, i)
    {
      if actions[i].kind != ShortPress {
        break;
      }
      if ActionMatch(actions[i], time) {
        return Some(i);
      }
      i := i + 1;
    }
    var j := |actions| - 1;
    while j >= 0
      invariant -1 <= j < |actions|
      invariant ScanLong(actions, time, |actions| - 1) == ScanLong(actions, time, j)
    {
      if actions[j].kind != LongPress {
        break;
      }
      if ActionMatch(actions[j], time) {
        return Some(j);
      }
      j := j - 1;
    }
    return None;
  }

  /** Actions as the configuration sorts them: the short actions first,
      then the long ones by strictly increasing trigger time. */
  predicate SortedActions(actions: seq<Action>) {
    forall i, j :: 0 <= i < j < |actions| && actions[i].kind == LongPress ==>
      actions[j].kind == LongPress && actions[i].triggerTime < actions[j].triggerTime
  }

  /** On sorted actions the two runs cover every action. */
  lemma SortedRunsCover(actions: seq<Action>)
    requires SortedActions(actions)
    ensures LongStart(actions) <= ShortEnd(actions)
  {
    var e := ShortEnd(actions);
    var s := LongStart(actions);
  }

  /** On sorted actions the scan misses nothing: it finds an action exactly
      when one matches; a matching short action wins, and it is the first
      one; otherwise the long action with the greatest trigger time not
      after `time` wins. */
  lemma LongestTierWins(actions: seq<Action>, time: int)
    requires SortedActions(actions)
    ensures var r := FindAction(actions, time);
      && (r.None? <==> forall j :: 0 <= j < |actions| ==> !ActionMatch(actions[j], time))
      && (forall j :: 0 <= j < |actions| && actions[j].kind == ShortPress && ActionMatch(actions[j], time) ==>
            r.Some? && actions[r.value].kind == ShortPress && r.value <= j)
      && (r.Some? && actions[r.value].kind == LongPress ==>
            forall j :: 0 <= j < |actions| && ActionMatch(actions[j], time) ==>
              actions[j].kind == LongPress && actions[j].triggerTime <= actions[r.value].triggerTime)
  {
    SortedRunsCover(actions);
    FindActionChoice(actions, time);
    var r := FindAction(actions, time);
    var e := ShortEnd(actions);
    forall j | 0 <= j < |actions| && actions[j].kind == ShortPress && ActionMatch(actions[j], time)
      ensures r.Some? && actions[r.value].kind == ShortPress && r.value <= j
    {
      assert j < e;
    }
    if r.Some? && actions[r.value].kind == LongPress {
      assert r.value >= e;
      forall j | 0 <= j < |actions| && ActionMatch(actions[j], time)
        ensures actions[j].kind == LongPress && actions[j].triggerTime <= actions[r.value].triggerTime
      {
        assert j >= e;
      }
    }
  }

  /** A key with a single short action does not choose it once the press
      lasted its trigger time or longer. */
  lemma ShortOnlyIgnoresLongPress(a: Action, time: int)
    requires a.kind == ShortPress && time >= a.triggerTime
    ensures FindAction([a], time).None?
  {
  }

  // ---------------------------------------------------------------------
  // Press and release events (arm_key_press, handle_key)
  // ---------------------------------------------------------------------

  /** arm_key_press: the key becomes PRESSED; a wakeup is armed exactly
      when its last action is a long one, at the press time plus that
      action's trigger time (with resetPressed the press time is now). */
  function Arm(k: Key, resetPressed: bool, now: Timespec): Key
    requires |k.actions| >= 1
  {
    var a := LastAction(k);
    if a.kind != LongPress then
      k.(state := Pressed, hasWakeup := false)
    else if resetPressed then
      k.(state := Pressed, hasWakeup := true, tvPressed := Ts2Tv(now, 0), tsWakeup := AddTs(now, a.triggerTime))
    else
      k.(state := Pressed, hasWakeup := true, tsWakeup := Tv2Ts(k.tvPressed, a.triggerTime))
  }

  /** handle_key, as a function of the key's old value. */
  function Step(k: Key, ev: InputEvent, now: Timespec, debounceMsecs: int): Key
    requires |k.actions| >= 1
  {
    match k.state
    case Released | Debounce =>
      if ev.value == 0 then k
      else Arm(if k.state == Released then k.(tvPressed := ev.time) else k, false, now)
    case Pressed =>
      if ev.value != 0 then k
      else k.(state := Debounce, tvReleased := ev.time, hasWakeup := true, tsWakeup := AddTs(now, debounceMsecs))
    case Handled =>
      if ev.value != 0 then k else k.(state := Released)
  }

  /** The events handle_key ignores: a release while RELEASED or DEBOUNCE,
      a press while PRESSED or HANDLED. */
  predicate Ignored(state: KeyState, value: int) {
    if value == 0 then state == Released || state == Debounce
    else state == Pressed || state == Handled
  }

  /** arm_key_press sets PRESSED, arms a wakeup iff the last action is long,
      and the wakeup lies the action's trigger time after the press. */
  lemma ArmWakeup(k: Key, resetPressed: bool, now: Timespec)
    requires |k.actions| >= 1 && NormalTs(now)
    ensures var r := Arm(k, resetPressed, now);
      && r.state == Pressed
      && (r.hasWakeup <==> LastAction(k).kind == LongPress)
      && (r.hasWakeup && !resetPressed ==>
            r.tvPressed == k.tvPressed
            && TotalNs(r.tsWakeup) == TotalUs(k.tvPressed) * 1000 + LastAction(k).triggerTime * 1_000_000)
      && (r.hasWakeup && resetPressed ==>
            TotalNs(r.tsWakeup) == TotalNs(now) + LastAction(k).triggerTime * 1_000_000
            && TotalUs(r.tvPressed) * 1000 <= TotalNs(now) < (TotalUs(r.tvPressed) + 1) * 1000)
  {
  }

  /** handle_key changes the key if and only if the event is not one it
      ignores. */
  lemma StepChangesIffNotIgnored(k: Key, ev: InputEvent, now: Timespec, debounceMsecs: int)
    requires |k.actions| >= 1
    ensures Step(k, ev, now, debounceMsecs) == k <==> Ignored(k.state, ev.value)
  {
  }

  /** A press from RELEASED takes the event's time as the press time; a
      press during DEBOUNCE keeps the earlier press time (chatter). */
  lemma PressKeepsOrSetsPressTime(k: Key, ev: InputEvent, now: Timespec, debounceMsecs: int)
    requires |k.actions| >= 1 && ev.value != 0
    ensures k.state == Released ==> Step(k, ev, now, debounceMsecs).tvPressed == ev.time
    ensures k.state == Debounce ==> Step(k, ev, now, debounceMsecs).tvPressed == k.tvPressed
    ensures k.state == Released || k.state == Debounce ==> Step(k, ev, now, debounceMsecs).state == Pressed
  {
  }

  /** A release while PRESSED starts the debounce: DEBOUNCE, the release
      time recorded, a wakeup debounceMsecs after now. A release while
      HANDLED returns to RELEASED. */
  lemma ReleaseTransitions(k: Key, ev: InputEvent, now: Timespec, debounceMsecs: int)
    requires |k.actions| >= 1 && ev.value == 0
    ensures var r := Step(k, ev, now, debounceMsecs);
      && (k.state == Pressed ==>
            r.state == Debounce && r.tvReleased == ev.time && r.hasWakeup
            && TotalNs(r.tsWakeup) == TotalNs(now) + debounceMsecs * 1_000_000
            && r.tvPressed == k.tvPressed)
      && (k.state == Handled ==> r == k.(state := Released))
  {
  }

  /** The invariant the state machine keeps for a configured key: RELEASED
      and HANDLED have no wakeup, DEBOUNCE has one, PRESSED has one exactly
      when the last action is long, and then it is no earlier than that
      action's trigger time after the press. */
  predicate WellFormed(k: Key) {
    && |k.actions| >= 1
    && NormalTv(k.tvPressed)
    && ((k.state == Released || k.state == Handled) ==> !k.hasWakeup)
    && (k.state == Debounce ==> k.hasWakeup)
    && (k.state == Pressed ==> (k.hasWakeup <==> LastAction(k).kind == LongPress))
    && (k.state == Pressed && k.hasWakeup ==>
          TotalNs(k.tsWakeup) >= TotalUs(k.tvPressed) * 1000 + LastAction(k).triggerTime * 1_000_000)
  }

  /** The state a key starts in (calloc'd). */
  lemma InitialKeyWellFormed(code: int, actions: seq<Action>)
    requires |actions| >= 1
    ensures WellFormed(Key(code, false, actions, Timeval(0, 0), Timeval(0, 0), Timespec(0, 0), Released))
  {
  }

  lemma StepPreservesWellFormed(k: Key, ev: InputEvent, now: Timespec, debounceMsecs: int)
    requires WellFormed(k) && NormalTv(ev.time)
    ensures WellFormed(Step(k, ev, now, debounceMsecs))
  {
  }

  lemma ArmResetPreservesWellFormed(k: Key, now: Timespec)
    requires WellFormed(k) && NormalTs(now)
    ensures WellFormed(Arm(k, true, now))
  {
    var r := Arm(k, true, now);
    if r.hasWakeup {
      ArmWakeup(k, true, now);
    }
  }

  /** The events one key receives between two wakeups, each with the clock
      reading at which it is handled. */
  datatype Stamped = Stamped(ev: InputEvent, now: Timespec)

  function Replay(k: Key, evs: seq<Stamped>, debounceMsecs: int): (r: Key)
    requires |k.actions| >= 1
    ensures r.actions == k.actions
    decreases |evs|
  {
    if evs == [] then k
    else Replay(Step(k, evs[0].ev, evs[0].now, debounceMsecs), evs[1..], debounceMsecs)
  }

  /** Chatter is coalesced: while no wakeup fires, any run of presses and
      releases leaves a PRESSED or DEBOUNCE key with its original press
      time, in DEBOUNCE exactly when the last event was a release. */
  lemma {:induction false} ChatterCoalesces(k: Key, evs: seq<Stamped>, debounceMsecs: int)
    requires |k.actions| >= 1 && (k.state == Pressed || k.state == Debounce)
    ensures var r := Replay(k, evs, debounceMsecs);
      && r.tvPressed == k.tvPressed
      && (r.state == Pressed || r.state == Debounce)
      && (evs != [] ==> (r.state == Debounce <==> evs[|evs| - 1].ev.value == 0))
    decreases |evs|
  {
    if evs != [] {
      var k1 := Step(k, evs[0].ev, evs[0].now, debounceMsecs);
      ChatterCoalesces(k1, evs[1..], debounceMsecs);
      if |evs| == 1 {
        assert evs[1..] == [];
      } else {
        assert evs[1..][|evs[1..]| - 1] == evs[|evs| - 1];
      }
    }
  }

  /** A press from RELEASED followed by chatter: the logical press starts
      at the first press event. */
  lemma PressThenChatter(k: Key, first: Stamped, evs: seq<Stamped>, debounceMsecs: int)
    requires |k.actions| >= 1 && k.state == Released && first.ev.value != 0
    ensures Replay(k, [first] + evs, debounceMsecs).tvPressed == first.ev.time
  {
    var k1 := Step(k, first.ev, first.now, debounceMsecs);
    assert ([first] + evs)[1..] == evs;
    ChatterCoalesces(k1, evs, debounceMsecs);
  }

  /** handle_key's companion, in place on one element of the key table. */
  method ArmKeyPress(keys: array<Key>, i: nat, resetPressed: bool, now: Timespec)
    requires i < keys.Length && |keys[i].actions| >= 1
    modifies keys
    ensures keys[i] == Arm(old(keys[i]), resetPressed, now)
    ensures forall j :: 0 <= j < keys.Length && j != i ==> keys[j] == old(keys[j])
  {
    keys[i] := keys[i].(state := Pressed);
    var action := keys[i].actions[|keys[i].actions| - 1];
    if action.kind != LongPress {
      keys[i] := keys[i].(hasWakeup := false);
      return;
    }
    keys[i] := keys[i].(hasWakeup := true);
    if resetPressed {
      keys[i] := keys[i].(tsWakeup := now);
      keys[i] := keys[i].(tvPressed := Ts2Tv(keys[i].tsWakeup, 0));
      keys[i] := keys[i].(tsWakeup := AddTs(keys[i].tsWakeup, action.triggerTime));
    } else {
      keys[i] := keys[i].(tsWakeup := Tv2Ts(keys[i].tvPressed, action.triggerTime));
    }
  }

  /** handle_key, in place on one element of the key table. */
  method HandleKey(debounceMsecs: int, ev: InputEvent, keys: array<Key>, i: nat, now: Timespec)
    requires i < keys.Length && |keys[i].actions| >= 1
    modifies keys
    ensures keys[i] == Step(old(keys[i]), ev, now, debounceMsecs)
    ensures forall j :: 0 <= j < keys.Length && j != i ==> keys[j] == old(keys[j])
  {
    if keys[i].state == Released || keys[i].state == Debounce {
      if ev.value == 0 {
        return;
      }
      if keys[i].state == Released {
        keys[i] := keys[i].(tvPressed := ev.time);
      }
      ArmKeyPress(keys, i, false, now);
    } else if keys[i].state == Pressed {
      if ev.value != 0 {
        return;
      }
      keys[i] := keys[i].(state := Debounce);
      keys[i] := keys[i].(tvReleased := ev.time);
      keys[i] := keys[i].(hasWakeup := true);
      keys[i] := keys[i].(tsWakeup := now);
      keys[i] := keys[i].(tsWakeup := AddTs(keys[i].tsWakeup, debounceMsecs));
    } else {
      if ev.value != 0 {
        return;
      }
      keys[i] := keys[i].(state := Released);
    }
  }

  // ---------------------------------------------------------------------
  // The scheduler (compute_timeout, handle_timeouts)
  // ---------------------------------------------------------------------

  function NonNeg(x: int): int {
    if x < 0 then 0 else x
  }

  /** A key whose wakeup is due at now: armed, and the rounded-up distance
      to the wakeup is not positive. */
  predicate Due(k: Key, now: Timespec) {
    k.hasWakeup && DiffTs(k.tsWakeup, now) <= 0
  }

  /** compute_timeout: -1 when no key is armed, otherwise the smallest
      distance in milliseconds to an armed wakeup, clamped at 0; it is 0
      exactly when some key is due. */
  method ComputeTimeout(keys: array<Key>, now: Timespec) returns (timeout: int)
    ensures timeout == -1 <==> forall j :: 0 <= j < keys.Length ==> !keys[j].hasWakeup
    ensures timeout >= 0 ==>
      exists j :: (0 <= j < keys.Length && keys[j].hasWakeup && timeout == NonNeg(DiffTs(keys[j].tsWakeup, now)))
    ensures forall j :: 0 <= j < keys.Length && keys[j].hasWakeup ==> 0 <= timeout <= NonNeg(DiffTs(keys[j].tsWakeup, now))
    ensures timeout == 0 <==> exists j :: 0 <= j < keys.Length && Due(keys[j], now)
  {
    timeout := -1;
    var i := 0;
    while i < keys.Length
      invariant 0 <= i <= keys.Length && timeout >= -1
      invariant timeout == -1 <==> forall j :: 0 <= j < i ==> !keys[j].hasWakeup
      invariant timeout >= 0 ==>
        exists j :: (0 <= j < i && keys[j].hasWakeup && timeout == NonNeg(DiffTs(keys[j].tsWakeup, now)))
      invariant forall j :: 0 <= j < i && keys[j].hasWakeup ==> 0 <= timeout <= NonNeg(DiffTs(keys[j].tsWakeup, now))
    {
      if keys[i].hasWakeup {
        var diff := DiffTs(keys[i].tsWakeup, now);
        if diff < 0 {
          timeout := 0;
        } else if timeout == -1 || diff < timeout {
          timeout := diff;
        }
      }
      i := i + 1;
    }
  }

  /** The action find_key_action chooses for a key firing at now, with the
      release time handle_timeouts uses (the real one after a debounce,
      now for a key still held). */
  function ReleaseTime(k: Key, now: Timespec): Timeval {
    if k.state != Debounce then Ts2Tv(now, 0) else k.tvReleased
  }

  function Chosen(k: Key, now: Timespec): (r: Option<Action>)
    ensures r.Some? ==> r.value in k.actions
  {
    match FindAction(k.actions, DiffTv(ReleaseTime(k, now), k.tvPressed))
    case Some(i) => Some(k.actions[i])
    case None => None
  }

  /** The command a chosen action runs: none when the string is NULL or empty. */
  function CommandEffects(a: Action): seq<Effect> {
    match a.command
    case Some(c) => if |c| > 0 then [RunCommand(c)] else []
    case None => []
  }

  /** After a wakeup the key has none and goes DEBOUNCE -> RELEASED,
      anything else -> HANDLED. */
  function Settle(k: Key): Key {
    k.(hasWakeup := false, state := if k.state == Debounce then Released else Handled)
  }

  /** One key's firing: its new value, its effects, and whether the
      process exits (exit(0) after an exit_after action). */
  datatype Fired = Fired(key: Key, effects: seq<Effect>, exited: bool)

  /** The body of handle_timeouts' loop for one due key: the release time
      is recorded, and unless the process exits the key loses its wakeup
      and settles. */
  function FireKey(k: Key, now: Timespec): (f: Fired)
    ensures f.key.code == k.code && f.key.actions == k.actions
    ensures f.key.tvPressed == k.tvPressed && f.key.tsWakeup == k.tsWakeup
    ensures f.key.tvReleased == ReleaseTime(k, now)
    ensures !f.exited ==> !f.key.hasWakeup && f.key.state == (if k.state == Debounce then Released else Handled)
    ensures f.exited ==> f.key.hasWakeup == k.hasWakeup && f.key.state == k.state
  {
    var k1 := k.(tvReleased := ReleaseTime(k, now));
    match Chosen(k, now)
    case Some(a) =>
      if a.exitAfter then Fired(k1, CommandEffects(a) + [Exit(0)], true)
      else Fired(Settle(k1), CommandEffects(a), false)
    case None =>
      Fired(Settle(k1), if k.state != Debounce then [NoActionWarning(k.code)] else [], false)
  }

  /** What firing a key does outside the daemon: it runs the chosen
      action's command when that is non-empty, warns when a held key found
      no action, and exits (as its last effect) exactly after an exit_after
      action. */
  lemma FireKeyEffects(k: Key, now: Timespec)
    ensures var f := FireKey(k, now);
      && (forall c :: RunCommand(c) in f.effects <==>
            Chosen(k, now).Some? && Chosen(k, now).value.command == Some(c) && |c| > 0)
      && (NoActionWarning(k.code) in f.effects <==> Chosen(k, now).None? && k.state != Debounce)
      && (f.exited <==> Chosen(k, now).Some? && Chosen(k, now).value.exitAfter)
      && (forall e :: e in f.effects && e.Exit? ==> f.exited && e == f.effects[|f.effects| - 1])
      && (f.exited ==> f.effects != [] && f.effects[|f.effects| - 1] == Exit(0))
  {
  }

  /** A wakeup that is due has been reached: the clock is at or past it. */
  lemma DueWakeupReached(wakeup: Timespec, now: Timespec)
    requires DiffTs(wakeup, now) <= 0
    ensures TotalNs(now) >= TotalNs(wakeup)
  {
    DiffTsRoundsUp(wakeup, now);
    MulMono(DiffTs(wakeup, now), 1, 1_000_000);
  }

  /** Once the clock has reached the press time plus t milliseconds, the
      release time taken from it (truncated to microseconds) has too. */
  lemma ReleaseTimeReached(now: Timespec, pressed: Timeval, t: int)
    requires NormalTs(now)
    requires TotalNs(now) >= TotalUs(pressed) * 1000 + t * 1_000_000
    ensures TotalUs(Ts2Tv(now, 0)) >= TotalUs(pressed) + t * 1000
  {
    var rel := Ts2Tv(now, 0);
    var target := TotalUs(pressed) + t * 1000;
    assert target * 1000 == TotalUs(pressed) * 1000 + t * 1_000_000;
    assert TotalUs(rel) * 1000 == now.sec * 1_000_000_000 + CDiv(now.nsec, 1000) * 1000;
    MulMono(TotalUs(rel), target, 1000);
  }

  /** A release at least t milliseconds after the press measures at least
      t milliseconds. */
  lemma MeasuredAtLeast(rel: Timeval, pressed: Timeval, t: int)
    requires TotalUs(rel) >= TotalUs(pressed) + t * 1000
    ensures DiffTv(rel, pressed) >= t
  {
    DiffTvRoundsUp(rel, pressed);
    MulMono(DiffTv(rel, pressed), t, 1000);
  }

  /** A long-press wakeup always finds an action: the wakeup was armed at
      the last (long) action's trigger time after the press, so when it is
      due the measured duration has reached that trigger time, and no
      warning is printed. */
  lemma LongWakeupAlwaysMatches(k: Key, now: Timespec)
    requires WellFormed(k) && NormalTs(now) && k.state == Pressed && Due(k, now)
    ensures Chosen(k, now).Some?
    ensures NoActionWarning(k.code) !in FireKey(k, now).effects
  {
    HeldToWakeup(k, now);
    LastActionMatches(k, DiffTv(ReleaseTime(k, now), k.tvPressed));
    FireKeyEffects(k, now);
  }

  /** A held key whose wakeup is due has been held for the last action's
      trigger time. */
  lemma HeldToWakeup(k: Key, now: Timespec)
    requires WellFormed(k) && NormalTs(now) && k.state == Pressed && Due(k, now)
    ensures DiffTv(ReleaseTime(k, now), k.tvPressed) >= LastAction(k).triggerTime
  {
    var t := LastAction(k).triggerTime;
    DueWakeupReached(k.tsWakeup, now);
    ReleaseTimeReached(now, k.tvPressed, t);
    MeasuredAtLeast(Ts2Tv(now, 0), k.tvPressed, t);
  }

  /** A long last action matches any duration reaching its trigger time,
      so some action is chosen. */
  lemma LastActionMatches(k: Key, time: int)
    requires WellFormed(k) && LastAction(k).kind == LongPress && time >= LastAction(k).triggerTime
    ensures FindAction(k.actions, time).Some?
  {
    assert ActionMatch(LastAction(k), time);
    assert ScanLong(k.actions, time, |k.actions| - 1).Some?;
  }

  lemma FirePreservesWellFormed(k: Key, now: Timespec)
    requires WellFormed(k)
    ensures !FireKey(k, now).exited ==> WellFormed(FireKey(k, now).key)
  {
  }

  /** The state after handle_timeouts has looked at keys 0..n-1. */
  datatype Pass = Pass(keys: seq<Key>, effects: seq<Effect>, exited: bool)

  function Timeouts(ks: seq<Key>, now: Timespec, n: nat): (p: Pass)
    requires n <= |ks|
    ensures |p.keys| == |ks|
    ensures forall j :: n <= j < |ks| ==> p.keys[j] == ks[j]
    decreases n
  {
    if n == 0 then Pass(ks, [], false)
    else
      var p := Timeouts(ks, now, n - 1);
      if p.exited || !Due(ks[n - 1], now) then p
      else
        var f := FireKey(ks[n - 1], now);
        Pass(p.keys[n - 1 := f.key], p.effects + f.effects, f.exited)
  }

  /** Once the process has exited, later keys are not looked at. */
  lemma {:induction false} TimeoutsExitStops(ks: seq<Key>, now: Timespec, n: nat, m: nat)
    requires n <= m <= |ks| && Timeouts(ks, now, n).exited
    ensures Timeouts(ks, now, m) == Timeouts(ks, now, n)
    decreases m - n
  {
    if m > n {
      TimeoutsAfterExit(ks, now, n);
      TimeoutsExitStops(ks, now, n + 1, m);
    }
  }

  lemma TimeoutsAfterExit(ks: seq<Key>, now: Timespec, i: nat)
    requires i < |ks| && Timeouts(ks, now, i).exited
    ensures Timeouts(ks, now, i + 1) == Timeouts(ks, now, i)
  {
  }

  lemma TimeoutsSkip(ks: seq<Key>, now: Timespec, i: nat)
    requires i < |ks| && !Due(ks[i], now)
    ensures Timeouts(ks, now, i + 1) == Timeouts(ks, now, i)
  {
  }

  lemma TimeoutsFire(ks: seq<Key>, now: Timespec, i: nat)
    requires i < |ks| && !Timeouts(ks, now, i).exited && Due(ks[i], now)
    ensures var p, f := Timeouts(ks, now, i), FireKey(ks[i], now);
      Timeouts(ks, now, i + 1) == Pass(p.keys[i := f.key], p.effects + f.effects, f.exited)
  {
  }

  /** What a pass without exit does: every due key is fired (and so has no
      wakeup left, and is RELEASED after a debounce, HANDLED otherwise),
      every other key is unchanged. */
  lemma {:induction false} TimeoutsOutcome(ks: seq<Key>, now: Timespec, n: nat)
    requires n <= |ks|
    ensures var p := Timeouts(ks, now, n);
      !p.exited ==> forall j :: 0 <= j < n ==>
        && (Due(ks[j], now) ==> !FireKey(ks[j], now).exited && p.keys[j] == FireKey(ks[j], now).key)
        && (!Due(ks[j], now) ==> p.keys[j] == ks[j])
    decreases n
  {
    if n > 0 {
      TimeoutsOutcome(ks, now, n - 1);
    }
  }

  /** Every command handle_timeouts runs is the non-empty command of the
      action chosen for a due key. */
  lemma {:induction false} TimeoutsCommands(ks: seq<Key>, now: Timespec, n: nat)
    requires n <= |ks|
    ensures forall c :: RunCommand(c) in Timeouts(ks, now, n).effects ==>
      exists j :: (0 <= j < n && Due(ks[j], now) && Chosen(ks[j], now).Some?
        && Chosen(ks[j], now).value.command == Some(c) && |c| > 0)
    decreases n
  {
    if n > 0 {
      TimeoutsCommands(ks, now, n - 1);
      var p := Timeouts(ks, now, n - 1);
      if !p.exited && Due(ks[n - 1], now) {
        var f := FireKey(ks[n - 1], now);
        FireKeyEffects(ks[n - 1], now);
        forall c | RunCommand(c) in p.effects + f.effects
          ensures exists j :: (0 <= j < n && Due(ks[j], now) && Chosen(ks[j], now).Some?
            && Chosen(ks[j], now).value.command == Some(c) && |c| > 0)
        {
          if RunCommand(c) !in f.effects {
            assert RunCommand(c) in p.effects;
          }
        }
      }
    }
  }

  /** handle_timeouts exits exactly when its last effect is exit(0), and
      no exit comes before the last effect. */
  lemma {:induction false} TimeoutsExitIsLast(ks: seq<Key>, now: Timespec, n: nat)
    requires n <= |ks|
    ensures var p := Timeouts(ks, now, n);
      && (forall e :: e in p.effects && e.Exit? ==> p.exited && e == p.effects[|p.effects| - 1])
      && (p.exited ==> p.effects != [] && p.effects[|p.effects| - 1] == Exit(0))
    decreases n
  {
    if n > 0 {
      TimeoutsExitIsLast(ks, now, n - 1);
      var p := Timeouts(ks, now, n - 1);
      if !p.exited && Due(ks[n - 1], now) {
        var f := FireKey(ks[n - 1], now);
        FireKeyEffects(ks[n - 1], now);
        var q := p.effects + f.effects;
        forall e | e in q && e.Exit? ensures e == q[|q| - 1] {
          assert e in f.effects;
        }
      }
    }
  }

  /** A pass without exit keeps every key well formed. */
  lemma TimeoutsPreserveWellFormed(ks: seq<Key>, now: Timespec)
    requires forall j :: 0 <= j < |ks| ==> WellFormed(ks[j])
    ensures var p := Timeouts(ks, now, |ks|);
      !p.exited ==> forall j :: 0 <= j < |ks| ==> WellFormed(p.keys[j])
  {
    TimeoutsOutcome(ks, now, |ks|);
    forall j | 0 <= j < |ks| {
      FirePreservesWellFormed(ks[j], now);
    }
  }

  /** The body of handle_timeouts' loop, in place on one due key. */
  method FireDueKey(keys: array<Key>, i: nat, now: Timespec) returns (effects: seq<Effect>, exited: bool)
    requires i < keys.Length
    modifies keys
    ensures var f := FireKey(old(keys[i]), now);
      keys[i] == f.key && effects == f.effects && exited == f.exited
    ensures forall j :: 0 <= j < keys.Length && j != i ==> keys[j] == old(keys[j])
  {
    effects := [];
    if keys[i].state != Debounce {
      keys[i] := keys[i].(tvReleased := Ts2Tv(now, 0));
    }
    var diff := DiffTv(keys[i].tvReleased, keys[i].tvPressed);
    var found := FindKeyAction(keys[i].actions, diff);
    if found.Some? {
      var action := keys[i].actions[found.value];
      if action.command.Some? && |action.command.value| > 0 {
        effects := [RunCommand(action.command.value)];
      }
      if action.exitAfter {
        return effects + [Exit(0)], true;
      }
    } else if keys[i].state != Debounce {
      effects := [NoActionWarning(keys[i].code)];
    }
    keys[i] := keys[i].(hasWakeup := false);
    if keys[i].state == Debounce {
      keys[i] := keys[i].(state := Released);
    } else {
      keys[i] := keys[i].(state := Handled);
    }
    exited := false;
  }

  /** One turn of handle_timeouts' loop: key i is fired if it is due. The
      ghost ks is the table the pass started from. */
  method VisitKey(keys: array<Key>, i: nat, now: Timespec, ghost ks: seq<Key>) returns (fx: seq<Effect>, exited: bool)
    requires i < keys.Length == |ks|
    requires Timeouts(ks, now, i).keys == keys[..] && !Timeouts(ks, now, i).exited
    modifies keys
    ensures var p, q := Timeouts(ks, now, i), Timeouts(ks, now, i + 1);
      q == Pass(keys[..], p.effects + fx, exited)
  {
    assert keys[i] == ks[i];
    fx, exited := [], false;
    if keys[i].hasWakeup && DiffTs(keys[i].tsWakeup, now) <= 0 {
      ghost var before := keys[..];
      TimeoutsFire(ks, now, i);
      fx, exited := FireDueKey(keys, i, now);
      assert keys[..] == before[i := FireKey(ks[i], now).key];
    } else {
      TimeoutsSkip(ks, now, i);
    }
  }

  /** handle_timeouts: fire every due key in table order, stopping at an
      exit. */
  method HandleTimeouts(keys: array<Key>, now: Timespec) returns (effects: seq<Effect>)
    modifies keys
    ensures var p := Timeouts(old(keys[..]), now, keys.Length);
      keys[..] == p.keys && effects == p.effects
  {
    ghost var ks := keys[..];
    var i := 0;
    effects := [];
    while i < keys.Length
      invariant 0 <= i <= keys.Length
      invariant Timeouts(ks, now, i) == Pass(keys[..], effects, false)
    {
      var fx, exited := VisitKey(keys, i, now, ks);
      effects := effects + fx;
      if exited {
        TimeoutsExitStops(ks, now, i + 1, keys.Length);
        return;
      }
      i := i + 1;
    }
  }

  // ---------------------------------------------------------------------
  // Scenarios
  // ---------------------------------------------------------------------

  const ShortAction: Action := Action(ShortPress, 1000, Some("echo short"), false)
  const LongAction: Action := Action(LongPress, 5000, Some("echo long"), false)
  const TwoTierActions: seq<Action> := [ShortAction, LongAction]

  /** A key with a short action below 1 s and a long action at 5 s, last
      pressed at 90.1 s and released at 90.3 s. */
  const TwoTierKey: Key :=
    Key(30, false, TwoTierActions, Timeval(90, 100_000), Timeval(90, 300_000), Timespec(90, 310_000_000), Released)

  /** The key pressed at 100.1 s, its long wakeup armed at 105.1 s. */
  const HeldKey: Key :=
    TwoTierKey.(state := Pressed, hasWakeup := true, tvPressed := Timeval(100, 100_000),
                tsWakeup := Timespec(105, 100_000_000))

  /** The key released 800 ms later, at 100.9 s, debouncing until 100.91 s. */
  const DebouncingKey: Key :=
    HeldKey.(state := Debounce, tvReleased := Timeval(100, 900_000), tsWakeup := Timespec(100, 910_000_000))

  /** Pressed at 100.1 s it arms the long wakeup at 105.1 s. */
  lemma PressArmsLongWakeup()
    ensures Step(TwoTierKey, InputEvent(Timeval(100, 100_000), 1, 30, 1), Timespec(100, 100_000_000), 10) == HeldKey
  {
    ArmsFiveSecondsLater();
  }

  lemma ArmsFiveSecondsLater()
    ensures Arm(TwoTierKey.(tvPressed := Timeval(100, 100_000)), false, Timespec(100, 100_000_000)) == HeldKey
  {
    LongActionLast();
    WakeupFiveSecondsLater();
  }

  lemma LongActionLast()
    ensures LastAction(TwoTierKey) == LongAction
  {
  }

  lemma WakeupFiveSecondsLater()
    ensures Tv2Ts(Timeval(100, 100_000), 5000) == Timespec(105, 100_000_000)
  {
    Tv2TsIs(Timeval(100, 100_000), 5000, Timespec(105, 100_000_000));
  }

  /** Released 800 ms after the press it debounces for 10 ms, and is due
      then and not a millisecond before. */
  lemma ReleaseDebouncesTenMsecs()
    ensures Step(HeldKey, InputEvent(Timeval(100, 900_000), 1, 30, 0), Timespec(100, 900_000_000), 10) == DebouncingKey
    ensures Due(DebouncingKey, Timespec(100, 910_000_000)) && !Due(DebouncingKey, Timespec(100, 909_000_000))
  {
    ReleaseStartsDebounce();
    DebouncingKeyWakeup();
    TenMsecsAfter();
    DueAtDebounceEnd();
    NotDueBeforeDebounceEnd();
  }

  lemma ReleaseStartsDebounce()
    ensures Step(HeldKey, InputEvent(Timeval(100, 900_000), 1, 30, 0), Timespec(100, 900_000_000), 10)
      == HeldKey.(state := Debounce, tvReleased := Timeval(100, 900_000), hasWakeup := true,
                  tsWakeup := AddTs(Timespec(100, 900_000_000), 10))
  {
  }

  lemma DebouncingKeyWakeup()
    ensures DebouncingKey
      == HeldKey.(state := Debounce, tvReleased := Timeval(100, 900_000), hasWakeup := true,
                  tsWakeup := Timespec(100, 910_000_000))
  {
  }

  lemma TenMsecsAfter()
    ensures AddTs(Timespec(100, 900_000_000), 10) == Timespec(100, 910_000_000)
  {
    AddTsIs(Timespec(100, 900_000_000), 10, Timespec(100, 910_000_000));
  }

  lemma DueAtDebounceEnd()
    ensures Due(DebouncingKey, Timespec(100, 910_000_000))
  {
    DiffTsSelf(Timespec(100, 910_000_000));
  }

  lemma NotDueBeforeDebounceEnd()
    ensures !Due(DebouncingKey, Timespec(100, 909_000_000))
  {
  }

  /** The two tiers: 800 ms chooses the short action, 5000 ms the long one. */
  lemma TwoTierChoices()
    ensures FindAction(TwoTierActions, 800) == Some(0)
    ensures FindAction(TwoTierActions, 5000) == Some(1)
  {
    assert ScanShort(TwoTierActions, 800, 0) == Some(0);
    assert ScanShort(TwoTierActions, 5000, 1) == None;
    assert ScanShort(TwoTierActions, 5000, 0) == None;
    assert ScanLong(TwoTierActions, 5000, 1) == Some(1);
  }

  /** After the debounce the short command runs once and the key is
      RELEASED again, with no wakeup. */
  lemma ShortPressFires()
    ensures Timeouts([DebouncingKey], Timespec(100, 910_000_000), 1)
      == Pass([DebouncingKey.(state := Released, hasWakeup := false)], [RunCommand("echo short")], false)
  {
    DueAtDebounceEnd();
    TimeoutsOfOneDueKey(DebouncingKey, Timespec(100, 910_000_000));
    ShortFired();
  }

  /** One due key: the pass is that key's firing. */
  lemma TimeoutsOfOneDueKey(k: Key, now: Timespec)
    requires Due(k, now)
    ensures var f := FireKey(k, now);
      Timeouts([k], now, 1) == Pass([f.key], f.effects, f.exited)
  {
  }

  /** A firing whose chosen action does not exit. */
  lemma FireKeyStays(k: Key, now: Timespec, a: Action)
    requires Chosen(k, now) == Some(a) && !a.exitAfter
    ensures FireKey(k, now) == Fired(Settle(k.(tvReleased := ReleaseTime(k, now))), CommandEffects(a), false)
  {
  }

  lemma ShortFired()
    ensures FireKey(DebouncingKey, Timespec(100, 910_000_000))
      == Fired(DebouncingKey.(state := Released, hasWakeup := false), [RunCommand("echo short")], false)
  {
    ShortChosen();
    FireKeyStays(DebouncingKey, Timespec(100, 910_000_000), ShortAction);
    ShortCommand();
    DebouncingKeySettles();
  }

  lemma ShortCommand()
    ensures CommandEffects(ShortAction) == [RunCommand("echo short")]
  {
  }

  lemma DebouncingKeySettles()
    ensures Settle(DebouncingKey.(tvReleased := ReleaseTime(DebouncingKey, Timespec(100, 910_000_000))))
      == DebouncingKey.(state := Released, hasWakeup := false)
  {
  }

  lemma ShortChosen()
    ensures Chosen(DebouncingKey, Timespec(100, 910_000_000)) == Some(ShortAction)
  {
    TwoTierChoices();
    ShortHoldMeasured();
    ChosenByDuration(DebouncingKey, Timespec(100, 910_000_000), 0);
  }

  /** The action chosen is the one find_key_action finds for the measured
      duration. */
  lemma ChosenByDuration(k: Key, now: Timespec, i: nat)
    requires FindAction(k.actions, DiffTv(ReleaseTime(k, now), k.tvPressed)) == Some(i)
    ensures i < |k.actions| && Chosen(k, now) == Some(k.actions[i])
  {
  }

  lemma ShortHoldMeasured()
    ensures DiffTv(Timeval(100, 900_000), Timeval(100, 100_000)) == 800
  {
  }

  /** Held until its wakeup at 105.1 s, the long command runs once and the
      key is HANDLED; the release at 107.3 s only returns it to RELEASED,
      with no wakeup left to fire. */
  lemma LongPressFires()
    ensures var handled := HeldKey.(tvReleased := Timeval(105, 100_000), state := Handled, hasWakeup := false);
      && Timeouts([HeldKey], Timespec(105, 100_000_000), 1) == Pass([handled], [RunCommand("echo long")], false)
      && Step(handled, InputEvent(Timeval(107, 300_000), 1, 30, 0), Timespec(107, 300_000_000), 10)
         == handled.(state := Released)
  {
    HeldDue();
    TimeoutsOfOneDueKey(HeldKey, Timespec(105, 100_000_000));
    LongFired();
    HandledKeyReleased();
  }

  lemma LongFired()
    ensures FireKey(HeldKey, Timespec(105, 100_000_000))
      == Fired(HeldKey.(tvReleased := Timeval(105, 100_000), state := Handled, hasWakeup := false),
               [RunCommand("echo long")], false)
  {
    LongChosen();
    FireKeyStays(HeldKey, Timespec(105, 100_000_000), LongAction);
    LongCommand();
    HeldKeySettles();
  }

  lemma LongCommand()
    ensures CommandEffects(LongAction) == [RunCommand("echo long")]
  {
  }

  lemma HeldKeySettles()
    ensures Settle(HeldKey.(tvReleased := ReleaseTime(HeldKey, Timespec(105, 100_000_000))))
      == HeldKey.(tvReleased := Timeval(105, 100_000), state := Handled, hasWakeup := false)
  {
    HeldReleasedAtWakeup();
  }

  lemma HandledKeyReleased()
    ensures var handled := HeldKey.(tvReleased := Timeval(105, 100_000), state := Handled, hasWakeup := false);
      Step(handled, InputEvent(Timeval(107, 300_000), 1, 30, 0), Timespec(107, 300_000_000), 10)
        == handled.(state := Released)
  {
  }

  lemma LongChosen()
    ensures Chosen(HeldKey, Timespec(105, 100_000_000)) == Some(LongAction)
  {
    TwoTierChoices();
    HeldReleasedAtWakeup();
    HeldMeasuresFiveSeconds();
    ChosenByDuration(HeldKey, Timespec(105, 100_000_000), 1);
  }

  /** At its wakeup the held key is due, and the press has lasted 5000 ms. */
  lemma HeldFiveSeconds()
    ensures Due(HeldKey, Timespec(105, 100_000_000))
    ensures ReleaseTime(HeldKey, Timespec(105, 100_000_000)) == Timeval(105, 100_000)
    ensures DiffTv(Timeval(105, 100_000), HeldKey.tvPressed) == 5000
  {
    HeldDue();
    HeldReleasedAtWakeup();
    HeldMeasuresFiveSeconds();
  }

  lemma HeldDue()
    ensures Due(HeldKey, Timespec(105, 100_000_000))
  {
    DiffTsSelf(Timespec(105, 100_000_000));
  }

  lemma HeldReleasedAtWakeup()
    ensures ReleaseTime(HeldKey, Timespec(105, 100_000_000)) == Timeval(105, 100_000)
  {
    WakeupAsTimeval();
  }

  lemma HeldMeasuresFiveSeconds()
    ensures DiffTv(Timeval(105, 100_000), HeldKey.tvPressed) == 5000
  {
  }

  lemma WakeupAsTimeval()
    ensures Ts2Tv(Timespec(105, 100_000_000), 0) == Timeval(105, 100_000)
  {
    Ts2TvIs(Timespec(105, 100_000_000), 0, Timeval(105, 100_000));
  }
}
