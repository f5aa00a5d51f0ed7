/**
 The button-gesture adapter: a service host that listens to a bound button's
 `down` / `up` events and synthesises click, double-click, multi-click, hold
 and hold-release gestures.

 Time is abstracted away. Each delayed check the adapter schedules becomes a
 pending timer tagged with the event counter at the moment it was armed; any
 pending timer may fire at any later step. A firing timer acts only if its tag
 still equals the event counter, which is how the adapter discards checks that
 a later button event has superseded.
 */
module ButtonGesture {
  import opened Wrappers

  /** Event codes of the source button service (`down` and `up`). */
  const ButtonEventDown: int := 0x01
  const ButtonEventUp: int := 0x02

  datatype Phase = Up | DownClick | UpClick | DownHeld

  datatype Gesture = Click | DoubleClick | MultiClick | ClickHold | MultiClickHold | HoldRelease

  /** `HoldCheck` is armed by a press, `ResetCheck` by a click. */
  datatype TimerKind = HoldCheck | ResetCheck

  datatype Timer = Timer(kind: TimerKind, tag: nat)

  /** What can happen to the adapter: a source event, or a pending timer firing. */
  datatype Input = SourceDown | SourceUp | FireHold(tag: nat) | FireReset(tag: nat)

  datatype Adapter = Adapter(phase: Phase, eventCounter: nat, clickCounter: nat, pending: multiset<Timer>)

  /** The state after a step, the gestures it emitted in order, and the timers it armed. */
  datatype Outcome = Outcome(next: Adapter, emitted: seq<Gesture>, armed: multiset<Timer>)

  const Initial: Adapter := Adapter(Up, 0, 0, multiset{})

  /** The outcome of doing nothing. */
  function Idle(a: Adapter): Outcome {
    Outcome(a, [], multiset{})
  }

  /** The gesture a completed click emits, given the click count including it. */
  function ClickGesture(clicks: nat): Gesture {
    if clicks == 1 then Click else if clicks == 2 then DoubleClick else MultiClick
  }

  // ---------------------------------------------------------------------------
  // Handlers
  // ---------------------------------------------------------------------------

  /** Source `down`: a new press starts; a hold check is armed with the new counter. */
  function OnDown(a: Adapter): (o: Outcome)
    ensures o.next.eventCounter == a.eventCounter + 1
    ensures o.next.phase == DownClick && o.next.clickCounter == a.clickCounter
    ensures o.emitted == []
    ensures o.armed == multiset{Timer(HoldCheck, o.next.eventCounter)}
    ensures o.next.pending == a.pending + o.armed
  {
    var count := a.eventCounter + 1;
    var hold := Timer(HoldCheck, count);
    Outcome(Adapter(DownClick, count, a.clickCounter, a.pending + multiset{hold}), [], multiset{hold})
  }

  /**
   Source `up`: completes a click after a short press, releases a hold after
   a long one, and is ignored in the other phases.
   */
  function OnUp(a: Adapter): (o: Outcome)
    ensures a.phase == DownClick ==>
              && o.next.eventCounter == a.eventCounter + 1
              && o.next.clickCounter == a.clickCounter + 1
              && o.next.phase == UpClick
              && |o.emitted| == 1
              && (o.emitted[0] == Click <==> o.next.clickCounter == 1)
              && (o.emitted[0] == DoubleClick <==> o.next.clickCounter == 2)
              && (o.emitted[0] == MultiClick <==> o.next.clickCounter >= 3)
              && o.armed == multiset{Timer(ResetCheck, o.next.eventCounter)}
    ensures o.next.pending == a.pending + o.armed
    ensures a.phase == DownHeld ==>
              && o.emitted == [HoldRelease]
              && o.next == a.(phase := Up, clickCounter := 0)
              && o.armed == multiset{}
    ensures a.phase == Up || a.phase == UpClick ==> o == Idle(a)
  {
    match a.phase
    case DownClick =>
      var count := a.eventCounter + 1;
      var clicks := a.clickCounter + 1;
      var reset := Timer(ResetCheck, count);
      Outcome(Adapter(UpClick, count, clicks, a.pending + multiset{reset}), [ClickGesture(clicks)], multiset{reset})
    case DownHeld =>
      assert a.pending + multiset{} == a.pending;
      Outcome(a.(phase := Up, clickCounter := 0), [HoldRelease], multiset{})
    case _ =>
      assert a.pending + multiset{} == a.pending;
      Idle(a)
  }

  /**
   The hold check armed with `tag` fires. If no button event came since, the
   press has become a hold: `ClickHold` after no earlier click, otherwise
   `MultiClickHold`. A stale check changes nothing but its own removal.
   */
  function OnHoldTimer(a: Adapter, tag: nat): (o: Outcome)
    requires Timer(HoldCheck, tag) in a.pending
    ensures o.armed == multiset{}
    ensures o.next.pending == a.pending - multiset{Timer(HoldCheck, tag)}
    ensures tag == a.eventCounter ==>
              && o.next == a.(phase := DownHeld, pending := o.next.pending)
              && |o.emitted| == 1
              && (o.emitted[0] == ClickHold <==> a.clickCounter == 0)
              && (o.emitted[0] == MultiClickHold <==> a.clickCounter != 0)
    ensures tag != a.eventCounter ==> o.next == a.(pending := o.next.pending) && o.emitted == []
  {
    var rest := a.pending - multiset{Timer(HoldCheck, tag)};
    if tag == a.eventCounter then
      var gesture := if a.clickCounter == 0 then ClickHold else MultiClickHold;
      Outcome(a.(phase := DownHeld, pending := rest), [gesture], multiset{})
    else
      Outcome(a.(pending := rest), [], multiset{})
  }

  /**
   The reset check armed with `tag` fires. If no button event came since, the
   click sequence is over: back to `Up` with no clicks counted. Emits nothing.
   */
  function OnResetTimer(a: Adapter, tag: nat): (o: Outcome)
    requires Timer(ResetCheck, tag) in a.pending
    ensures o.armed == multiset{} && o.emitted == []
    ensures o.next.pending == a.pending - multiset{Timer(ResetCheck, tag)}
    ensures tag == a.eventCounter ==> o.next == a.(phase := Up, clickCounter := 0, pending := o.next.pending)
    ensures tag != a.eventCounter ==> o.next == a.(pending := o.next.pending)
  {
    var rest := a.pending - multiset{Timer(ResetCheck, tag)};
    if tag == a.eventCounter then
      Outcome(a.(phase := Up, clickCounter := 0, pending := rest), [], multiset{})
    else
      Outcome(a.(pending := rest), [], multiset{})
  }

  /** The timer a firing input stands for. */
  function FiredTimer(i: Input): Option<Timer> {
    match i
    case FireHold(tag) => Some(Timer(HoldCheck, tag))
    case FireReset(tag) => Some(Timer(ResetCheck, tag))
    case _ => None
  }

  lemma NotPendingUnchanged(pending: multiset<Timer>, t: Timer)
    requires t !in pending
    ensures pending - multiset{t} == pending
  {
  }

  /**
   One step of the adapter. Only armed timers can fire: firing a timer that is
   not pending does nothing.
   */
  function Step(a: Adapter, i: Input): (o: Outcome)
    ensures o.next.eventCounter >= a.eventCounter
    ensures FiredTimer(i).Some? && FiredTimer(i).value !in a.pending ==> o == Idle(a)
    ensures FiredTimer(i).Some? && FiredTimer(i).value.tag != a.eventCounter ==>
              o.next == a.(pending := o.next.pending) && o.emitted == []
  {
    match i
    case SourceDown => OnDown(a)
    case SourceUp => OnUp(a)
    case FireHold(tag) =>
      if Timer(HoldCheck, tag) in a.pending then OnHoldTimer(a, tag) else Idle(a)
    case FireReset(tag) =>
      if Timer(ResetCheck, tag) in a.pending then OnResetTimer(a, tag) else Idle(a)
  }

  /**
   Timer bookkeeping: a source event adds exactly the timers it arms; a firing
   timer removes itself and arms nothing.
   */
  lemma StepPending(a: Adapter, i: Input)
    ensures FiredTimer(i).None? ==> Step(a, i).next.pending == a.pending + Step(a, i).armed
    ensures FiredTimer(i).Some? ==>
              && Step(a, i).armed == multiset{}
              && Step(a, i).next.pending == a.pending - multiset{FiredTimer(i).value}
  {
    match FiredTimer(i)
    case None =>
    case Some(t) =>
      if t !in a.pending {
        NotPendingUnchanged(a.pending, t);
      }
  }

  // ---------------------------------------------------------------------------
  // The staleness invariant
  // ---------------------------------------------------------------------------

  /**
   Every pending timer is pending once and is tagged with a counter value
   already reached, and the only timer that can still act (the one tagged with the
   current counter) is the hold check while pressed, or the reset check while
   released after a click. With no live timer the adapter is `Up` or held.
   */
  ghost predicate Inv(a: Adapter) {
    && (forall t | t in a.pending :: 1 <= t.tag <= a.eventCounter && a.pending[t] == 1)
    && (a.phase == DownClick <==> Timer(HoldCheck, a.eventCounter) in a.pending)
    && (a.phase == UpClick <==> Timer(ResetCheck, a.eventCounter) in a.pending)
    && (a.phase == Up ==> a.clickCounter == 0)
    && (a.phase == UpClick ==> a.clickCounter >= 1)
  }

  lemma InitialInv()
    ensures Inv(Initial)
  {
  }

  lemma DownPreservesInv(a: Adapter)
    requires Inv(a)
    ensures Inv(OnDown(a).next)
  {
    var o := OnDown(a);
    var hold := Timer(HoldCheck, o.next.eventCounter);
    assert hold !in a.pending;
    assert Timer(ResetCheck, o.next.eventCounter) !in a.pending;
  }

  lemma UpPreservesInv(a: Adapter)
    requires Inv(a)
    ensures Inv(OnUp(a).next)
  {
    var o := OnUp(a);
    if a.phase == DownClick {
      assert Timer(ResetCheck, o.next.eventCounter) !in a.pending;
      assert Timer(HoldCheck, o.next.eventCounter) !in a.pending;
    }
  }

  lemma HoldTimerPreservesInv(a: Adapter, tag: nat)
    requires Inv(a) && Timer(HoldCheck, tag) in a.pending
    ensures Inv(OnHoldTimer(a, tag).next)
  {
    var o := OnHoldTimer(a, tag);
    assert forall t | t in o.next.pending :: t in a.pending && o.next.pending[t] <= a.pending[t];
    if tag == a.eventCounter {
      assert Timer(HoldCheck, a.eventCounter) !in o.next.pending;
    }
  }

  lemma ResetTimerPreservesInv(a: Adapter, tag: nat)
    requires Inv(a) && Timer(ResetCheck, tag) in a.pending
    ensures Inv(OnResetTimer(a, tag).next)
  {
    var o := OnResetTimer(a, tag);
    assert forall t | t in o.next.pending :: t in a.pending && o.next.pending[t] <= a.pending[t];
    if tag == a.eventCounter {
      assert Timer(ResetCheck, a.eventCounter) !in o.next.pending;
    }
  }

  /** Every step keeps the staleness invariant. */
  lemma StepPreservesInv(a: Adapter, i: Input)
    requires Inv(a)
    ensures Inv(Step(a, i).next)
  {
    match i
    case SourceDown => DownPreservesInv(a);
    case SourceUp => UpPreservesInv(a);
    case FireHold(tag) =>
      if Timer(HoldCheck, tag) in a.pending {
        HoldTimerPreservesInv(a, tag);
      }
    case FireReset(tag) =>
      if Timer(ResetCheck, tag) in a.pending {
        ResetTimerPreservesInv(a, tag);
      }
  }

  /** The timers that would act if they fired now. */
  ghost function LiveTimers(a: Adapter): set<Timer> {
    set t | t in a.pending && t.tag == a.eventCounter
  }

  /** At most one pending timer is live, and which one is determined by the phase. */
  lemma AtMostOneLiveTimer(a: Adapter)
    requires Inv(a)
    ensures a.phase == DownClick ==> LiveTimers(a) == {Timer(HoldCheck, a.eventCounter)}
    ensures a.phase == UpClick ==> LiveTimers(a) == {Timer(ResetCheck, a.eventCounter)}
    ensures a.phase == Up || a.phase == DownHeld ==> LiveTimers(a) == {}
    ensures |LiveTimers(a)| <= 1
  {
    var live := LiveTimers(a);
    forall t | t in live
      ensures t == Timer(HoldCheck, a.eventCounter) || t == Timer(ResetCheck, a.eventCounter)
    {
      assert t.tag == a.eventCounter;
      match t.kind
      case HoldCheck => assert t == Timer(HoldCheck, a.eventCounter);
      case ResetCheck => assert t == Timer(ResetCheck, a.eventCounter);
    }
    if a.phase == DownClick {
      assert live == {Timer(HoldCheck, a.eventCounter)};
    } else if a.phase == UpClick {
      assert live == {Timer(ResetCheck, a.eventCounter)};
    } else {
      assert live == {};
    }
  }

  /** The gestures that complete a click. */
  predicate IsClickGesture(g: Gesture) {
    g == Click || g == DoubleClick || g == MultiClick
  }

  /** The gestures that report a press held past the click timeout. */
  predicate IsHoldGesture(g: Gesture) {
    g == ClickHold || g == MultiClickHold
  }

  /**
   Where each gesture comes from: a step emits at most one gesture; a click
   gesture exactly when a short press is released, a hold gesture exactly
   when the live hold check fires, and `HoldRelease` exactly when a held press
   is released.
   */
  lemma GestureSources(a: Adapter, i: Input)
    requires Inv(a)
    ensures |Step(a, i).emitted| <= 1
    ensures (|Step(a, i).emitted| == 1 && IsClickGesture(Step(a, i).emitted[0])) <==> (i == SourceUp && a.phase == DownClick)
    ensures (|Step(a, i).emitted| == 1 && IsHoldGesture(Step(a, i).emitted[0])) <==> (i == FireHold(a.eventCounter) && a.phase == DownClick)
    ensures Step(a, i).emitted == [HoldRelease] <==> (i == SourceUp && a.phase == DownHeld)
  {
    match i
    case SourceDown => DownSources(a);
    case SourceUp => UpSources(a);
    case FireHold(tag) => HoldCheckSources(a, tag);
    case FireReset(tag) => ResetCheckSources(a, tag);
  }

  ghost predicate SourcesOf(a: Adapter, i: Input, o: Outcome) {
    && |o.emitted| <= 1
    && ((|o.emitted| == 1 && IsClickGesture(o.emitted[0])) <==> (i == SourceUp && a.phase == DownClick))
    && ((|o.emitted| == 1 && IsHoldGesture(o.emitted[0])) <==> (i == FireHold(a.eventCounter) && a.phase == DownClick))
    && (o.emitted == [HoldRelease] <==> (i == SourceUp && a.phase == DownHeld))
  }

  lemma DownSources(a: Adapter)
    ensures SourcesOf(a, SourceDown, Step(a, SourceDown))
  {
  }

  lemma UpSources(a: Adapter)
    ensures SourcesOf(a, SourceUp, Step(a, SourceUp))
  {
    assert Step(a, SourceUp) == OnUp(a);
  }

  lemma HoldCheckSources(a: Adapter, tag: nat)
    requires Inv(a)
    ensures SourcesOf(a, FireHold(tag), Step(a, FireHold(tag)))
  {
    if Timer(HoldCheck, tag) in a.pending && tag == a.eventCounter {
      assert a.phase == DownClick;
    }
  }

  lemma ResetCheckSources(a: Adapter, tag: nat)
    ensures SourcesOf(a, FireReset(tag), Step(a, FireReset(tag)))
  {
  }

  // ---------------------------------------------------------------------------
  // Runs
  // ---------------------------------------------------------------------------

  /** Sequential composition of two outcomes. */
  function Then(first: Outcome, second: Outcome): Outcome {
    Outcome(second.next, first.emitted + second.emitted, first.armed + second.armed)
  }

  /** The outcome of a sequence of inputs. */
  function Run(a: Adapter, inputs: seq<Input>): (o: Outcome)
    ensures o.next.eventCounter >= a.eventCounter
    decreases |inputs|
  {
    if |inputs| == 0 then Idle(a)
    else
      var first := Step(a, inputs[0]);
      Then(first, Run(first.next, inputs[1..]))
  }

  lemma {:induction false} RunPreservesInv(a: Adapter, inputs: seq<Input>)
    requires Inv(a)
    ensures Inv(Run(a, inputs).next)
    decreases |inputs|
  {
    if |inputs| > 0 {
      StepPreservesInv(a, inputs[0]);
      RunPreservesInv(Step(a, inputs[0]).next, inputs[1..]);
    }
  }

  /**
   A timer superseded by a later button event stays inert for ever: whatever
   happens in between, when it fires it only removes itself.
   */
  lemma StaleTimerStaysInert(a: Adapter, inputs: seq<Input>, fire: Input)
    requires FiredTimer(fire).Some? && FiredTimer(fire).value.tag < a.eventCounter
    ensures var b := Run(a, inputs).next;
            Step(b, fire).next == b.(pending := b.pending - multiset{FiredTimer(fire).value})
            && Step(b, fire).emitted == []
  {
  }

  predicate IsFiring(i: Input) {
    i.FireHold? || i.FireReset?
  }

  /** Once released after a click (or idle), timers alone emit nothing and never re-enter a press. */
  lemma {:induction false} FiringAfterReleaseIsQuiet(a: Adapter, fires: seq<Input>)
    requires Inv(a) && (a.phase == Up || a.phase == UpClick)
    requires forall k | 0 <= k < |fires| :: IsFiring(fires[k])
    ensures Run(a, fires).emitted == []
    ensures Run(a, fires).next.phase == Up || Run(a, fires).next.phase == UpClick
    decreases |fires|
  {
    if |fires| > 0 {
      var first := Step(a, fires[0]);
      FiringWhileReleased(a, fires[0]);
      StepPreservesInv(a, fires[0]);
      FiringAfterReleaseIsQuiet(first.next, fires[1..]);
    }
  }

  /** While released, the hold check that could act is not pending, so a firing timer emits nothing. */
  lemma FiringWhileReleased(a: Adapter, i: Input)
    requires Inv(a) && (a.phase == Up || a.phase == UpClick)
    requires IsFiring(i)
    ensures Step(a, i).emitted == []
    ensures Step(a, i).next.phase == Up || Step(a, i).next.phase == UpClick
  {
    match i
    case FireHold(tag) =>
      if Timer(HoldCheck, tag) in a.pending {
        assert tag != a.eventCounter;
      }
    case FireReset(tag) =>
  }

  lemma RunCons(a: Adapter, i: Input, rest: seq<Input>)
    ensures Run(a, [i] + rest) == Then(Step(a, i), Run(Step(a, i).next, rest))
  {
    assert ([i] + rest)[1..] == rest;
  }

  /**
   A press released before its hold check acts is exactly one click: the
   click gesture for the new count is emitted, and however the pending timers
   fire afterwards no hold gesture follows.
   */
  lemma PressReleaseIsOneClick(a: Adapter, fires: seq<Input>)
    requires Inv(a) && (a.phase == Up || a.phase == UpClick)
    requires forall k | 0 <= k < |fires| :: IsFiring(fires[k])
    ensures Run(a, [SourceDown, SourceUp] + fires).emitted == [ClickGesture(a.clickCounter + 1)]
  {
    var down := Step(a, SourceDown);
    var up := Step(down.next, SourceUp);
    var rest := Run(up.next, fires);
    assert Run(a, [SourceDown] + ([SourceUp] + fires)).emitted == down.emitted + (up.emitted + rest.emitted) by {
      RunTwo(a, SourceDown, SourceUp, fires);
    }
    assert down.emitted == [] && up.emitted == [ClickGesture(a.clickCounter + 1)] && rest.emitted == [] by {
      PressThenRelease(a);
      FiringAfterReleaseIsQuiet(up.next, fires);
    }
    TwoThenRest(SourceDown, SourceUp, fires);
  }

  lemma TwoThenRest(i: Input, j: Input, rest: seq<Input>)
    ensures [i, j] + rest == [i] + ([j] + rest)
  {
  }

  /** Running two inputs and then more is the first step, then the second, then the rest. */
  lemma RunTwo(a: Adapter, i: Input, j: Input, rest: seq<Input>)
    ensures var first := Step(a, i);
            var second := Step(first.next, j);
            Run(a, [i] + ([j] + rest)) == Then(first, Then(second, Run(second.next, rest)))
  {
    RunCons(Step(a, i).next, j, rest);
    RunCons(a, i, [j] + rest);
  }

  /** Down then up from a released adapter: one click gesture, and released after a click. */
  lemma PressThenRelease(a: Adapter)
    requires Inv(a) && (a.phase == Up || a.phase == UpClick)
    ensures var down := Step(a, SourceDown);
            var up := Step(down.next, SourceUp);
            && down.emitted == []
            && up.emitted == [ClickGesture(a.clickCounter + 1)]
            && up.next.phase == UpClick
            && Inv(up.next)
  {
    var down := Step(a, SourceDown);
    assert down.next.phase == DownClick && down.next.clickCounter == a.clickCounter;
    StepPreservesInv(a, SourceDown);
    StepPreservesInv(down.next, SourceUp);
  }

  /** From rest, down then up emits a single `Click` and never a `ClickHold`. */
  lemma SingleClickFromRest(fires: seq<Input>)
    requires forall k | 0 <= k < |fires| :: IsFiring(fires[k])
    ensures Run(Initial, [SourceDown, SourceUp] + fires).emitted == [Click]
  {
    PressReleaseIsOneClick(Initial, fires);
  }

  /**
   A press that is held until its check fires emits `ClickHold`, and its
   release `HoldRelease`; afterwards the adapter is released with no clicks
   counted and nothing pending.
   */
  lemma HoldFromRest()
    ensures Run(Initial, [SourceDown, FireHold(1), SourceUp]).emitted == [ClickHold, HoldRelease]
    ensures Run(Initial, [SourceDown, FireHold(1), SourceUp]).next == Adapter(Up, 1, 0, multiset{})
  {
    var s1 := Step(Initial, SourceDown);
    var s2 := Step(s1.next, FireHold(1));
    var s3 := Step(s2.next, SourceUp);
    assert s2.next.pending == multiset{};
    RunCons(Initial, SourceDown, [FireHold(1), SourceUp]);
    assert [SourceDown, FireHold(1), SourceUp] == [SourceDown] + [FireHold(1), SourceUp];
    RunCons(s1.next, FireHold(1), [SourceUp]);
    assert [FireHold(1), SourceUp] == [FireHold(1)] + [SourceUp];
  }

  /** A step whose outcome is known, followed by the rest of a run. */
  lemma RunKnownStep(a: Adapter, i: Input, rest: seq<Input>, b: Adapter, e: seq<Gesture>)
    requires Step(a, i).next == b && Step(a, i).emitted == e
    ensures Run(a, [i] + rest).emitted == e + Run(b, rest).emitted
  {
    RunCons(a, i, rest);
  }

  /**
   Two quick clicks from rest (released, no clicks, nothing pending, any
   counter): the first click's hold and reset checks fire after they have
   been superseded, so they are inert, and the second click is a
   `DoubleClick`.
   */
  lemma DoubleClickFromRest(e: nat)
    ensures Run(Adapter(Up, e, 0, multiset{}),
                [SourceDown, SourceUp, FireHold(e + 1), SourceDown, FireReset(e + 2), SourceUp]).emitted
            == [Click, DoubleClick]
  {
    var rest := [SourceDown, FireReset(e + 2), SourceUp];
    assert [SourceDown, SourceUp, FireHold(e + 1), SourceDown, FireReset(e + 2), SourceUp]
           == [SourceDown, SourceUp, FireHold(e + 1)] + rest;
    FirstClickRun(e, rest);
    assert rest == rest + [];
    SecondClickRun(e, []);
  }

  /** Down, up and the late hold check from rest: one `Click`, then whatever the rest emits. */
  lemma FirstClickRun(e: nat, rest: seq<Input>)
    ensures Run(Adapter(Up, e, 0, multiset{}), [SourceDown, SourceUp, FireHold(e + 1)] + rest).emitted
            == [Click] + Run(Adapter(UpClick, e + 2, 1, multiset{Timer(ResetCheck, e + 2)}), rest).emitted
  {
    var tail1 := [FireHold(e + 1)] + rest;
    var tail2 := [SourceUp] + tail1;
    assert [SourceDown, SourceUp, FireHold(e + 1)] + rest == [SourceDown] + tail2;
    FirstPress(e, tail2);
    FirstRelease(e, tail1);
    FirstHoldCheckLate(e, rest);
  }

  lemma FirstPress(e: nat, rest: seq<Input>)
    ensures Run(Adapter(Up, e, 0, multiset{}), [SourceDown] + rest).emitted
            == Run(Adapter(DownClick, e + 1, 0, multiset{Timer(HoldCheck, e + 1)}), rest).emitted
  {
    FirstClickSteps(e);
    RunKnownStep(Adapter(Up, e, 0, multiset{}), SourceDown, rest,
                 Adapter(DownClick, e + 1, 0, multiset{Timer(HoldCheck, e + 1)}), []);
  }

  lemma FirstRelease(e: nat, rest: seq<Input>)
    ensures Run(Adapter(DownClick, e + 1, 0, multiset{Timer(HoldCheck, e + 1)}), [SourceUp] + rest).emitted
            == [Click] + Run(Adapter(UpClick, e + 2, 1, multiset{Timer(HoldCheck, e + 1), Timer(ResetCheck, e + 2)}), rest).emitted
  {
    FirstClickSteps(e);
    RunKnownStep(Adapter(DownClick, e + 1, 0, multiset{Timer(HoldCheck, e + 1)}), SourceUp, rest,
                 Adapter(UpClick, e + 2, 1, multiset{Timer(HoldCheck, e + 1), Timer(ResetCheck, e + 2)}), [Click]);
  }

  lemma FirstHoldCheckLate(e: nat, rest: seq<Input>)
    ensures Run(Adapter(UpClick, e + 2, 1, multiset{Timer(HoldCheck, e + 1), Timer(ResetCheck, e + 2)}), [FireHold(e + 1)] + rest).emitted
            == Run(Adapter(UpClick, e + 2, 1, multiset{Timer(ResetCheck, e + 2)}), rest).emitted
  {
    FirstClickSteps(e);
    RunKnownStep(Adapter(UpClick, e + 2, 1, multiset{Timer(HoldCheck, e + 1), Timer(ResetCheck, e + 2)}), FireHold(e + 1), rest,
                 Adapter(UpClick, e + 2, 1, multiset{Timer(ResetCheck, e + 2)}), []);
  }

  /** The second press, the late reset check and the release: one `DoubleClick`, then whatever the rest emits. */
  lemma SecondClickRun(e: nat, rest: seq<Input>)
    ensures Run(Adapter(UpClick, e + 2, 1, multiset{Timer(ResetCheck, e + 2)}), [SourceDown, FireReset(e + 2), SourceUp] + rest).emitted
            == [DoubleClick] + Run(Adapter(UpClick, e + 4, 2, multiset{Timer(HoldCheck, e + 3), Timer(ResetCheck, e + 4)}), rest).emitted
  {
    var tail1 := [SourceUp] + rest;
    var tail2 := [FireReset(e + 2)] + tail1;
    assert [SourceDown, FireReset(e + 2), SourceUp] + rest == [SourceDown] + tail2;
    SecondPress(e, tail2);
    FirstResetCheckLate(e, tail1);
    SecondRelease(e, rest);
  }

  lemma SecondPress(e: nat, rest: seq<Input>)
    ensures Run(Adapter(UpClick, e + 2, 1, multiset{Timer(ResetCheck, e + 2)}), [SourceDown] + rest).emitted
            == Run(Adapter(DownClick, e + 3, 1, multiset{Timer(ResetCheck, e + 2), Timer(HoldCheck, e + 3)}), rest).emitted
  {
    SecondPressStep(e);
    RunKnownStep(Adapter(UpClick, e + 2, 1, multiset{Timer(ResetCheck, e + 2)}), SourceDown, rest,
                 Adapter(DownClick, e + 3, 1, multiset{Timer(ResetCheck, e + 2), Timer(HoldCheck, e + 3)}), []);
  }

  lemma FirstResetCheckLate(e: nat, rest: seq<Input>)
    ensures Run(Adapter(DownClick, e + 3, 1, multiset{Timer(ResetCheck, e + 2), Timer(HoldCheck, e + 3)}), [FireReset(e + 2)] + rest).emitted
            == Run(Adapter(DownClick, e + 3, 1, multiset{Timer(HoldCheck, e + 3)}), rest).emitted
  {
    LateResetStep(e);
    RunKnownStep(Adapter(DownClick, e + 3, 1, multiset{Timer(ResetCheck, e + 2), Timer(HoldCheck, e + 3)}), FireReset(e + 2), rest,
                 Adapter(DownClick, e + 3, 1, multiset{Timer(HoldCheck, e + 3)}), []);
  }

  lemma SecondRelease(e: nat, rest: seq<Input>)
    ensures Run(Adapter(DownClick, e + 3, 1, multiset{Timer(HoldCheck, e + 3)}), [SourceUp] + rest).emitted
            == [DoubleClick] + Run(Adapter(UpClick, e + 4, 2, multiset{Timer(HoldCheck, e + 3), Timer(ResetCheck, e + 4)}), rest).emitted
  {
    SecondReleaseStep(e);
    RunKnownStep(Adapter(DownClick, e + 3, 1, multiset{Timer(HoldCheck, e + 3)}), SourceUp, rest,
                 Adapter(UpClick, e + 4, 2, multiset{Timer(HoldCheck, e + 3), Timer(ResetCheck, e + 4)}), [DoubleClick]);
  }

  /** The first click, and its hold check firing late. */
  lemma FirstClickSteps(e: nat)
    ensures var a0 := Adapter(Up, e, 0, multiset{});
            Step(a0, SourceDown).next == Adapter(DownClick, e + 1, 0, multiset{Timer(HoldCheck, e + 1)})
            && Step(a0, SourceDown).emitted == []
    ensures var a1 := Adapter(DownClick, e + 1, 0, multiset{Timer(HoldCheck, e + 1)});
            Step(a1, SourceUp).next == Adapter(UpClick, e + 2, 1, multiset{Timer(HoldCheck, e + 1), Timer(ResetCheck, e + 2)})
            && Step(a1, SourceUp).emitted == [Click]
    ensures var a2 := Adapter(UpClick, e + 2, 1, multiset{Timer(HoldCheck, e + 1), Timer(ResetCheck, e + 2)});
            Step(a2, FireHold(e + 1)).next == Adapter(UpClick, e + 2, 1, multiset{Timer(ResetCheck, e + 2)})
            && Step(a2, FireHold(e + 1)).emitted == []
  {
    var h1, r2 := Timer(HoldCheck, e + 1), Timer(ResetCheck, e + 2);
    assert multiset{} + multiset{h1} == multiset{h1};
    assert multiset{h1} + multiset{r2} == multiset{h1, r2};
    assert multiset{h1, r2} - multiset{h1} == multiset{r2};
  }

  /** The second press, while the first click's reset check is still pending. */
  lemma SecondPressStep(e: nat)
    ensures var a3 := Adapter(UpClick, e + 2, 1, multiset{Timer(ResetCheck, e + 2)});
            Step(a3, SourceDown).next == Adapter(DownClick, e + 3, 1, multiset{Timer(ResetCheck, e + 2), Timer(HoldCheck, e + 3)})
            && Step(a3, SourceDown).emitted == []
  {
    var r2, h3 := Timer(ResetCheck, e + 2), Timer(HoldCheck, e + 3);
    assert multiset{r2} + multiset{h3} == multiset{r2, h3};
  }

  /** The first click's reset check firing late, during the second press. */
  lemma LateResetStep(e: nat)
    ensures var a4 := Adapter(DownClick, e + 3, 1, multiset{Timer(ResetCheck, e + 2), Timer(HoldCheck, e + 3)});
            Step(a4, FireReset(e + 2)).next == Adapter(DownClick, e + 3, 1, multiset{Timer(HoldCheck, e + 3)})
            && Step(a4, FireReset(e + 2)).emitted == []
  {
    var r2, h3 := Timer(ResetCheck, e + 2), Timer(HoldCheck, e + 3);
    assert multiset{r2, h3} - multiset{r2} == multiset{h3};
  }

  /** The second release. */
  lemma SecondReleaseStep(e: nat)
    ensures var a5 := Adapter(DownClick, e + 3, 1, multiset{Timer(HoldCheck, e + 3)});
            Step(a5, SourceUp).next == Adapter(UpClick, e + 4, 2, multiset{Timer(HoldCheck, e + 3), Timer(ResetCheck, e + 4)})
            && Step(a5, SourceUp).emitted == [DoubleClick]
  {
    var h3, r4 := Timer(HoldCheck, e + 3), Timer(ResetCheck, e + 4);
    assert multiset{h3} + multiset{r4} == multiset{h3, r4};
  }

  // ---------------------------------------------------------------------------
  // Event dispatch from the bound button
  // ---------------------------------------------------------------------------

  /** The adapter input a source event code stands for; other codes are ignored. */
  function SourceInput(code: int): Option<Input> {
    if code == ButtonEventDown then Some(SourceDown)
    else if code == ButtonEventUp then Some(SourceUp)
    else None
  }

  /** A batch of source events, handled in order. */
  function Dispatch(a: Adapter, codes: seq<int>): (o: Outcome)
    ensures (forall k | 0 <= k < |codes| :: SourceInput(codes[k]).None?) ==> o == Idle(a)
    decreases |codes|
  {
    if |codes| == 0 then Idle(a)
    else
      var first := match SourceInput(codes[0]) case None => Idle(a) case Some(i) => Step(a, i);
      Then(first, Dispatch(first.next, codes[1..]))
  }

  /** The inputs a batch of source event codes stands for, in order. */
  function SourceInputs(codes: seq<int>): (ins: seq<Input>)
    ensures forall k | 0 <= k < |ins| :: ins[k] == SourceDown || ins[k] == SourceUp
    decreases |codes|
  {
    if |codes| == 0 then []
    else match SourceInput(codes[0])
      case None => SourceInputs(codes[1..])
      case Some(i) => [i] + SourceInputs(codes[1..])
  }

  /** Dispatching a batch is running the down/up events it contains and dropping every other code. */
  lemma {:induction false} DispatchRunsSourceInputs(a: Adapter, codes: seq<int>)
    ensures Dispatch(a, codes) == Run(a, SourceInputs(codes))
    decreases |codes|
  {
    if |codes| > 0 {
      match SourceInput(codes[0])
      case None =>
        DispatchRunsSourceInputs(a, codes[1..]);
        DispatchSkipsOtherCode(a, codes);
      case Some(i) =>
        DispatchRunsSourceInputs(Step(a, i).next, codes[1..]);
        DispatchStepsOnSourceCode(a, codes, i);
    }
  }

  /** A code that is neither down nor up leaves the adapter as it is and emits nothing. */
  lemma DispatchSkipsOtherCode(a: Adapter, codes: seq<int>)
    requires |codes| > 0 && SourceInput(codes[0]).None?
    requires Dispatch(a, codes[1..]) == Run(a, SourceInputs(codes[1..]))
    ensures Dispatch(a, codes) == Run(a, SourceInputs(codes))
  {
    var rest := Run(a, SourceInputs(codes[1..]));
    assert [] + rest.emitted == rest.emitted;
    assert multiset{} + rest.armed == rest.armed;
  }

  /** A down or up code is one step of the adapter, followed by the rest of the batch. */
  lemma DispatchStepsOnSourceCode(a: Adapter, codes: seq<int>, i: Input)
    requires |codes| > 0 && SourceInput(codes[0]) == Some(i)
    requires Dispatch(Step(a, i).next, codes[1..]) == Run(Step(a, i).next, SourceInputs(codes[1..]))
    ensures Dispatch(a, codes) == Run(a, SourceInputs(codes))
  {
    RunCons(a, i, SourceInputs(codes[1..]));
  }

  // ---------------------------------------------------------------------------
  // The adapter as a service host with a late-bound role manager
  // ---------------------------------------------------------------------------

  /** The service class of the button service the adapter listens to. */
  const ButtonServiceClass: int := 0x1473a263

  /**
   The role manager, reduced to what the adapter asks of it: the service class
   of the service bound to each role name.
   */
  datatype RoleManager = RoleManager(bindings: map<string, int>)

  /**
   The adapter as a service host. `subscribed` records whether the handler for
   the button's events has been installed.
   */
  datatype Server = Server(roleManager: Option<RoleManager>, subscribed: bool, buttonRole: string, adapter: Adapter)

  /** The assertion failures and the failed property access of the attach path. */
  datatype ServerError = ResettingRoleManager | RoleNotBound | NotAButton

  /** A new adapter for `buttonRole`: no role manager yet, not subscribed, released, no clicks, nothing pending. */
  function NewServer(buttonRole: string): (s: Server)
    ensures s.roleManager.None? && !s.subscribed && s.buttonRole == buttonRole && Inv(s.adapter)
    ensures s.adapter.phase == Up && s.adapter.clickCounter == 0 && s.adapter.pending == multiset{}
  {
    InitialInv();
    Server(None, false, buttonRole, Initial)
  }

  /**
   Attach the role manager and subscribe to the button role's events. A second
   attachment fails and changes nothing. Otherwise the role manager is stored
   first; the subscription then fails if the role is not bound or is bound to
   a service that is not a button, and the stored role manager stays.
   */
  function SetRoleManager(s: Server, rm: RoleManager): (r: (Server, Option<ServerError>))
    ensures s.roleManager.Some? ==> r == (s, Some(ResettingRoleManager))
    ensures s.roleManager.None? ==>
              && r.0 == s.(roleManager := Some(rm), subscribed := r.0.subscribed)
              && (r.1.None? <==> s.buttonRole in rm.bindings && rm.bindings[s.buttonRole] == ButtonServiceClass)
              && (r.1 == Some(RoleNotBound) <==> s.buttonRole !in rm.bindings)
              && (r.1 == Some(NotAButton) <==>
                    s.buttonRole in rm.bindings && rm.bindings[s.buttonRole] != ButtonServiceClass)
              && r.0.subscribed == (s.subscribed || r.1.None?)
  {
    if s.roleManager.Some? then (s, Some(ResettingRoleManager))
    else
      var stored := s.(roleManager := Some(rm));
      if s.buttonRole !in rm.bindings then (stored, Some(RoleNotBound))
      else if rm.bindings[s.buttonRole] != ButtonServiceClass then (stored, Some(NotAButton))
      else (stored.(subscribed := true), None)
  }

  /**
   Deliver a batch of the button's events. Until the handler is installed
   nothing happens.
   */
  function Deliver(s: Server, codes: seq<int>): (r: (Server, seq<Gesture>))
    ensures r.0 == s.(adapter := r.0.adapter)
    ensures !s.subscribed ==> r == (s, [])
    ensures s.subscribed ==>
              var o := Run(s.adapter, SourceInputs(codes)); r == (s.(adapter := o.next), o.emitted)
  {
    if !s.subscribed then (s, [])
    else
      var o := Dispatch(s.adapter, codes);
      DispatchRunsSourceInputs(s.adapter, codes);
      (s.(adapter := o.next), o.emitted)
  }

  /** The role manager can be attached only once. */
  lemma AttachOnlyOnce(s: Server, rm1: RoleManager, rm2: RoleManager)
    ensures var first := SetRoleManager(s, rm1).0;
            SetRoleManager(first, rm2) == (first, Some(ResettingRoleManager))
  {
  }

  /**
   A new adapter attached to a role manager that binds its role to a button
   hears exactly the down/up events of that button, and nothing else.
   */
  lemma AttachedAdapterHearsButton(role: string, rm: RoleManager, codes: seq<int>)
    requires role in rm.bindings && rm.bindings[role] == ButtonServiceClass
    ensures var s := SetRoleManager(NewServer(role), rm).0;
            Deliver(s, codes).1 == Run(Initial, SourceInputs(codes)).emitted
  {
  }

  /** If the role is unbound or not a button, the adapter never hears anything, however often events arrive. */
  lemma MisboundAdapterIsDeaf(role: string, rm: RoleManager, codes: seq<int>)
    requires !(role in rm.bindings && rm.bindings[role] == ButtonServiceClass)
    ensures var s := SetRoleManager(NewServer(role), rm).0;
            Deliver(s, codes) == (s, [])
  {
  }
}
