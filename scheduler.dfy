/** The report scheduler of main.c's event loop, as functions: which slots a
    sample tick and a service tick make pending, how one slot's idle counter
    counts down, and which reports a drain of the pending bitfield sends.
    The `must_report` bitfield is modelled as the set of slot indices whose
    bit is set (bit i is slot i, report id i + 1). */
module Scheduler {
  import opened Bytes

  /** The idle counter is in 4 ms units; one service tick (nominally 22 ms)
      is counted as 5 of them. */
  const SERVICE_TICK_UNITS: uint8 := 5

  /* ---------------------------- sample tick ---------------------------- */

  /** The slots among the first `n` whose gamepad reports a change. */
  function ChangedSlots(changed: uint8 -> bool, n: nat): set<nat>
    requires n <= MAX_REPORTS
  {
    if n == 0 then {}
    else ChangedSlots(changed, n - 1) + (if changed(n as uint8) then {n - 1} else {})
  }

  /** Slot j is among the changed slots iff it is one of the first `n` and
      `changed(j + 1)` holds. */
  lemma {:induction false} ChangedSlotsIff(changed: uint8 -> bool, n: nat)
    requires n <= MAX_REPORTS
    ensures forall j: nat :: j in ChangedSlots(changed, n) <==> j < n && changed((j + 1) as uint8)
  {
    if n > 0 {
      ChangedSlotsIff(changed, n - 1);
    }
  }

  /* -------------------------- idle countdown --------------------------- */

  /** One slot after a service tick: its new idle counter, and whether the
      tick scheduled a report for it. */
  datatype SlotTick = SlotTick(counter: uint8, fire: bool)

  /** The service tick on one slot. A zero rate leaves the slot alone; a
      counter of at least one tick's worth of units counts down; otherwise
      the counter is reloaded from the rate and a report is scheduled. */
  function TickSlot(rate: uint8, counter: uint8): SlotTick
  {
    if rate == 0 then SlotTick(counter, false)
    else if counter > SERVICE_TICK_UNITS - 1 then SlotTick(counter - SERVICE_TICK_UNITS, false)
    else SlotTick(rate, true)
  }

  /** The slots among the first `n` whose idle counter expires on this
      service tick. */
  function ExpiredSlots(rates: seq<uint8>, counters: seq<uint8>, n: nat): set<nat>
    requires n <= MAX_REPORTS <= |rates| && MAX_REPORTS <= |counters|
  {
    if n == 0 then {}
    else
      ExpiredSlots(rates, counters, n - 1) +
      (if TickSlot(rates[n - 1], counters[n - 1]).fire then {n - 1} else {})
  }

  /** Slot j expires iff it is one of the first `n`, its idle rate is
      nonzero, and its counter holds less than one tick's worth of units. */
  lemma {:induction false} ExpiredSlotsIff(rates: seq<uint8>, counters: seq<uint8>, n: nat)
    requires n <= MAX_REPORTS <= |rates| && MAX_REPORTS <= |counters|
    ensures forall j: nat :: j in ExpiredSlots(rates, counters, n) <==>
      j < n && rates[j] != 0 && counters[j] < SERVICE_TICK_UNITS
  {
    if n > 0 {
      ExpiredSlotsIff(rates, counters, n - 1);
    }
  }

  /** The outcome of `ticks` service ticks on one slot whose rate stays put:
      the final counter and how many reports were scheduled. */
  datatype Countdown = Countdown(counter: uint8, fires: nat)

  function Run(rate: uint8, counter: uint8, ticks: nat): Countdown
    decreases ticks
  {
    if ticks == 0 then Countdown(counter, 0)
    else
      var t := TickSlot(rate, counter);
      var rest := Run(rate, t.counter, ticks - 1);
      Countdown(rest.counter, rest.fires + if t.fire then 1 else 0)
  }

  /** The number of service ticks between two reports a nonzero idle rate
      forces: the reload value counts down by 5 while it is at least 5. */
  function Period(rate: uint8): (p: nat)
    requires rate != 0
    ensures rate as int < SERVICE_TICK_UNITS as int * p <= rate as int + SERVICE_TICK_UNITS as int
  {
    rate as int / SERVICE_TICK_UNITS as int + 1
  }

  /** However many service ticks pass, the counter never rises above the
      larger of its starting value and the rate (the countdown only takes
      units away, and a reload sets the rate), and each tick forces at most
      one report. */
  lemma {:induction false} CounterBounded(rate: uint8, counter: uint8, ticks: nat)
    ensures Run(rate, counter, ticks).counter <= if counter < rate then rate else counter
    ensures Run(rate, counter, ticks).fires <= ticks
    decreases ticks
  {
    if ticks > 0 {
      CounterBounded(rate, TickSlot(rate, counter).counter, ticks - 1);
    }
  }

  /** With an idle rate of 0 a slot is never scheduled by the countdown, and
      its counter is never touched, however many ticks pass. */
  lemma {:induction false} ZeroRateNeverFires(counter: uint8, ticks: nat)
    ensures Run(0, counter, ticks) == Countdown(counter, 0)
  {
    if ticks > 0 {
      ZeroRateNeverFires(counter, ticks - 1);
    }
  }

  /** Ticks run one after another: `a + b` ticks are `a` ticks followed by
      `b` ticks from the counter the first `a` leave behind. */
  lemma {:induction false} RunSplit(rate: uint8, counter: uint8, a: nat, b: nat)
    ensures Run(rate, counter, a + b) ==
      var x := Run(rate, counter, a);
      var y := Run(rate, x.counter, b);
      Countdown(y.counter, x.fires + y.fires)
    decreases a
  {
    if a > 0 {
      var t := TickSlot(rate, counter);
      RunSplit(rate, t.counter, a - 1, b);
      assert a + b - 1 == (a - 1) + b;
    }
  }

  /** While the counter holds at least one tick's worth per tick, a nonzero
      rate only counts down: nothing fires and no counter underflows. */
  lemma {:induction false} CountsDown(rate: uint8, counter: uint8, ticks: nat)
    requires rate != 0
    requires SERVICE_TICK_UNITS as int * ticks <= counter as int
    ensures Run(rate, counter, ticks).fires == 0
    ensures Run(rate, counter, ticks).counter as int == counter as int - SERVICE_TICK_UNITS as int * ticks
  {
    if ticks > 0 {
      CountsDown(rate, counter - SERVICE_TICK_UNITS, ticks - 1);
    }
  }

  /** From any counter, a nonzero rate fires for the first time on tick
      `counter / 5 + 1`, and then reloads the counter from the rate. */
  lemma FirstFire(rate: uint8, counter: uint8)
    requires rate != 0
    ensures var k := counter as int / SERVICE_TICK_UNITS as int;
      Run(rate, counter, k).fires == 0 && Run(rate, counter, k + 1) == Countdown(rate, 1)
  {
    var k := counter as int / SERVICE_TICK_UNITS as int;
    CountsDown(rate, counter, k);
    RunSplit(rate, counter, k, 1);
  }

  /** After a forced report (counter reloaded from the rate), the slot is
      forced again exactly once every `Period(rate)` ticks. */
  lemma {:induction false} FiresPerPeriod(rate: uint8, ticks: nat)
    requires rate != 0
    ensures Run(rate, rate, ticks).fires == ticks / Period(rate)
    decreases ticks
  {
    var p := Period(rate);
    if ticks < p {
      CountsDown(rate, rate, ticks);
      DivSmall(ticks, p);
    } else {
      FirstFire(rate, rate);
      RunSplit(rate, rate, p, ticks - p);
      FiresPerPeriod(rate, ticks - p);
      DivStep(ticks - p, p);
    }
  }

  /** The number of reports a nonzero idle rate forces in `ticks` service
      ticks from any counter: none before the first expiry at tick
      `counter / 5 + 1`, then one every `Period(rate)` ticks. A rate changed
      by SET_IDLE thus takes effect only once the old counter has run out. */
  lemma FireCount(rate: uint8, counter: uint8, ticks: nat)
    requires rate != 0
    ensures var first := counter as int / SERVICE_TICK_UNITS as int + 1;
      Run(rate, counter, ticks).fires ==
        if ticks < first then 0 else 1 + (ticks - first) / Period(rate)
  {
    var first := counter as int / SERVICE_TICK_UNITS as int + 1;
    if ticks < first {
      CountsDown(rate, counter, ticks);
    } else {
      FirstFire(rate, counter);
      RunSplit(rate, counter, first, ticks - first);
      FiresPerPeriod(rate, ticks - first);
    }
  }

  lemma DivSmall(m: nat, p: nat)
    requires m < p
    ensures m / p == 0
  {
  }

  lemma DivStep(m: nat, p: nat)
    requires p > 0
    ensures 1 + m / p == (m + p) / p
  {
    var q, r := m / p, m % p;
    var d, e := (m + p) / p, (m + p) % p;
    var k := d - q - 1;
    assert k * p == r - e by {
      assert m == q * p + r && m + p == d * p + e;
      assert k * p == d * p - q * p - p;
    }
  }

  /* ------------------------------- drain ------------------------------- */

  /** The report ids the drain sends, in the order it sends them: ascending
      over the first `n` slots, each pending slot whose readiness check
      `ready[i]` succeeds. */
  function Delivered(pending: set<nat>, ready: seq<bool>, n: nat): seq<uint8>
    requires n <= MAX_REPORTS && n <= |ready|
  {
    if n == 0 then []
    else
      Delivered(pending, ready, n - 1) +
      (if n - 1 in pending && ready[n - 1] then [n as uint8] else [])
  }

  /** The drain sends report ids of the first `n` slots only, in strictly
      ascending order (so each at most once); and it sends slot j's report
      iff slot j is pending and the endpoint is ready when the drain
      reaches it. */
  lemma {:induction false} DeliveredSlots(pending: set<nat>, ready: seq<bool>, n: nat)
    requires n <= MAX_REPORTS && n <= |ready|
    ensures var ids := Delivered(pending, ready, n);
      (forall k :: 0 <= k < |ids| ==> 0 < ids[k] as int <= n) &&
      (forall k, l :: 0 <= k < l < |ids| ==> ids[k] < ids[l]) &&
      (forall j :: 0 <= j < n ==> ((j + 1) as uint8 in ids <==> j in pending && ready[j]))
  {
    if n > 0 {
      DeliveredSlots(pending, ready, n - 1);
    }
  }

  /** Nothing pending, nothing sent. */
  lemma {:induction false} NothingPendingNothingSent(ready: seq<bool>, n: nat)
    requires n <= MAX_REPORTS && n <= |ready|
    ensures Delivered({}, ready, n) == []
  {
    if n > 0 {
      NothingPendingNothingSent(ready, n - 1);
    }
  }

  /** The pending slots after one pass of the loop has handled its ticks:
      the sample tick (if it came) adds the changed slots, then the service
      tick (if it came) adds the slots whose idle counter expired. */
  function PendingAfterTicks(pending: set<nat>, sampleTick: bool, changed: uint8 -> bool,
                             serviceTick: bool, rates: seq<uint8>, counters: seq<uint8>, n: nat): set<nat>
    requires n <= MAX_REPORTS <= |rates| && MAX_REPORTS <= |counters|
  {
    pending
    + (if sampleTick then ChangedSlots(changed, n) else {})
    + (if serviceTick then ExpiredSlots(rates, counters, n) else {})
  }

  /** The ticks only ever add pending slots, and only among the first `n`:
      slot j is pending afterwards iff it was already, or the sample tick
      came and slot j changed, or the service tick came and slot j's idle
      counter expired. */
  lemma PendingAfterTicksIff(pending: set<nat>, sampleTick: bool, changed: uint8 -> bool,
                             serviceTick: bool, rates: seq<uint8>, counters: seq<uint8>, n: nat)
    requires n <= MAX_REPORTS <= |rates| && MAX_REPORTS <= |counters|
    ensures forall j: nat :: j in PendingAfterTicks(pending, sampleTick, changed, serviceTick, rates, counters, n) <==>
      j in pending ||
      (sampleTick && j < n && changed((j + 1) as uint8)) ||
      (serviceTick && j < n && rates[j] != 0 && counters[j] < SERVICE_TICK_UNITS)
  {
    ChangedSlotsIff(changed, n);
    ExpiredSlotsIff(rates, counters, n);
  }

  /** A slot whose gamepad reports a change on a sample tick is sent in the
      same pass of the loop if the endpoint is ready when the drain reaches
      it, whatever else is pending. */
  lemma ChangeIsSentWhenReady(pending: set<nat>, changed: uint8 -> bool, serviceTick: bool,
                              rates: seq<uint8>, counters: seq<uint8>, ready: seq<bool>, n: nat, j: nat)
    requires n <= MAX_REPORTS <= |rates| && MAX_REPORTS <= |counters| && n <= |ready|
    requires j < n && changed((j + 1) as uint8) && ready[j]
    ensures (j + 1) as uint8 in
      Delivered(PendingAfterTicks(pending, true, changed, serviceTick, rates, counters, n), ready, n)
  {
    PendingAfterTicksIff(pending, true, changed, serviceTick, rates, counters, n);
    DeliveredSlots(PendingAfterTicks(pending, true, changed, serviceTick, rates, counters, n), ready, n);
  }

  /** Likewise, a slot whose idle counter expires on a service tick is sent
      in that pass if the endpoint is ready when the drain reaches it. */
  lemma ExpiryIsSentWhenReady(pending: set<nat>, sampleTick: bool, changed: uint8 -> bool,
                              rates: seq<uint8>, counters: seq<uint8>, ready: seq<bool>, n: nat, j: nat)
    requires n <= MAX_REPORTS <= |rates| && MAX_REPORTS <= |counters| && n <= |ready|
    requires j < n && rates[j] != 0 && counters[j] < SERVICE_TICK_UNITS && ready[j]
    ensures (j + 1) as uint8 in
      Delivered(PendingAfterTicks(pending, sampleTick, changed, true, rates, counters, n), ready, n)
  {
    PendingAfterTicksIff(pending, sampleTick, changed, true, rates, counters, n);
    DeliveredSlots(PendingAfterTicks(pending, sampleTick, changed, true, rates, counters, n), ready, n);
  }

  /** A pending slot whose readiness check fails is not sent; since the
      drain then clears the whole bitfield, that report is dropped rather
      than retried on the next pass. */
  lemma NotReadyIsSkipped(pending: set<nat>, ready: seq<bool>, n: nat, j: nat)
    requires n <= MAX_REPORTS && n <= |ready|
    requires j < n && j in pending && !ready[j]
    ensures (j + 1) as uint8 !in Delivered(pending, ready, n)
  {
    DeliveredSlots(pending, ready, n);
  }
}
