# HID report scheduler and control requests of the SNES-to-USB converter

This project models the core of the converter firmware's `main.c`. It has
two parts.

The first is the handler of HID class control requests,
`usbFunctionSetup`. It answers three requests of the Device Class
Definition for HID 1.11:

- GET_REPORT (section 7.2.1) builds a report into the 12-byte report
  buffer and returns its length.
- GET_IDLE (section 7.2.3) points the reply at one byte of the idle-rate
  table, for report ids 1..8 only.
- SET_IDLE (section 7.2.4) writes the idle-rate table. Report id 0 sets
  all 8 entries, report ids 1..8 set one entry, and larger ids are
  ignored.

The request type is taken from bmRequestType as in section 9.3.1 of the
USB 2.0 specification. Any request that is not a class request, or a
class request of another kind, is answered with no data.

The second is the scheduling body of the main event loop, with each step
lifted into a method:

- The sample tick: every slot whose gamepad reports a change gets its bit
  set in `must_report`.
- The service tick: every slot with a nonzero idle rate counts its idle
  counter down by 5 units of 4 ms. When the counter holds less than 5, it
  is reloaded from the rate and the slot's bit is set.
- The drain: pending slots are visited in ascending order. Each one is
  built and sent only if the interrupt endpoint is ready at that moment.
  Then the whole bitfield is cleared.

The model is in four modules:

- `Bytes` defines the unsigned byte type and the fixed sizes: 8 report
  slots and the 12-byte report buffer.
- `Hid` states the control requests as functions of the request and the
  idle-rate table, with the SET_IDLE/GET_IDLE round trip.
- `Scheduler` states the ticks and the drain as functions of the pending
  set. It proves the per-slot characterisation of each step and how often
  a nonzero idle rate forces a report.
- `Firmware` holds the class `Device` with the firmware's state:
  - the idle-rate table, the idle counters and the report buffer, as
    arrays;
  - the `must_report` bitfield, as the set of slot indices whose bit is
    set.

  Its methods perform the steps with the source's loops. Their contracts
  tie each new state to the functions of `Scheduler` and `Hid`.

The gamepad is an input to the methods, not part of the model:

- `changed(id)` says whether report `id` changed since the last sample.
- `buildReport(id)` gives the bytes of report `id`. It is required to fit
  the 12-byte report buffer.

The interrupt endpoint's readiness is also an input: `ready[i]` is the
answer of `usbInterruptIsReady()` when the drain reaches slot `i`.

Two behaviours of the drain are worth stating plainly:

- The firmware hands each report to the endpoint in one call
  (main.c:226), with no chunking and no zero-length packet.
- The drain is not at-least-once. Pending slots skipped because the
  endpoint was busy are cleared with the rest (main.c:236), so their
  reports are dropped rather than retried on the next pass.

## Model

| member | source | states |
|---|---|---|
| Hid.SetIdle | main.c:111-121 | Report id 0 sets all 8 entries to the rate. A slot id k sets entry k-1 to the rate and leaves every other entry. An id past 8 leaves the table unchanged. |
| Hid.GetIdle | main.c:104-109 | The reply has length 1 exactly for slot ids 1..8, otherwise length 0. For a slot id k the reply is one byte pointing at entry k-1 of the idle-rate table. |
| Hid.SetupReply | main.c:93-126 | Only class GET_REPORT and GET_IDLE requests send data. Class GET_REPORT replies with buildReport's length from the report buffer. A class GET_IDLE is answered as GetIdle answers it: one byte at entry k-1 for a slot id k, and no data for id 0 or an id past 8. The reply points into the idle-rate table iff the request is a class GET_IDLE for a slot id. |
| Hid.SetupRates | main.c:96-121 | The idle-rate table keeps its 8 entries. A class SET_IDLE makes it SetIdle of the old table with the low byte of wValue as report id and the high byte as rate, and no other request changes it. |
| Hid.SetIdleGetIdleRoundTrip | main.c:104-121 | SET_IDLE(k, R) followed by GET_IDLE(k) reads back exactly [R] for k in 1..8, and nothing for other k. |
| Hid.BroadcastThenGetIdle | main.c:104-115 | After SET_IDLE(0, R), GET_IDLE of every slot id reads back [R]. |
| Scheduler.ChangedSlotsIff | main.c:185-189 | The sample tick marks slot j iff j < num_reports and changed(j+1) holds. |
| Scheduler.ExpiredSlotsIff | main.c:197-209 | The service tick marks slot j iff j < num_reports, its idle rate is nonzero, and its counter is at most 4. |
| Scheduler.CounterBounded | main.c:197-209 | However many service ticks pass, a slot's counter never rises above the larger of its starting value and its rate, and each tick forces at most one report. |
| Scheduler.Period | main.c:201-206 | The number of ticks between forced reports, p, satisfies rate < 5p <= rate + 5. |
| Scheduler.ZeroRateNeverFires | main.c:200 | With rate 0, any number of service ticks leaves the counter as it was and never schedules a report. |
| Scheduler.RunSplit | main.c:197-209 | a + b service ticks on a slot are a ticks followed by b ticks from the counter left behind; the fire counts add up. |
| Scheduler.CountsDown | main.c:201-202 | While the counter holds 5 units per tick, t ticks subtract 5t and fire nothing. |
| Scheduler.FirstFire | main.c:201-206 | From counter c, a nonzero rate fires first on tick c/5+1 and leaves the counter reloaded to the rate. |
| Scheduler.FiresPerPeriod | main.c:197-209 | From a freshly reloaded counter, t ticks force exactly t / Period(rate) reports. |
| Scheduler.FireCount | main.c:197-209 | From any counter c, t ticks force 0 reports if t < c/5+1, and otherwise 1 + (t - (c/5+1)) / Period(rate). |
| Scheduler.DeliveredSlots | main.c:216-234 | The drain sends only ids 1..num_reports, in strictly ascending order (each at most once). It sends slot j's report iff slot j is pending and the endpoint is ready when the drain reaches it. |
| Scheduler.NothingPendingNothingSent | main.c:214-237 | With nothing pending the drain sends nothing. |
| Scheduler.PendingAfterTicksIff | main.c:178-210 | After the ticks, slot j is pending iff it was pending before, or the sample tick came and slot j changed, or the service tick came and slot j's counter expired. The ticks never clear a bit. |
| Scheduler.ChangeIsSentWhenReady | main.c:185-234 | A slot that changed on a sample tick is sent in the same pass if the endpoint is ready when the drain reaches it. |
| Scheduler.ExpiryIsSentWhenReady | main.c:197-234 | A slot whose idle counter expired on a service tick is sent in the same pass if the endpoint is ready when the drain reaches it. |
| Scheduler.NotReadyIsSkipped | main.c:218-236 | A pending slot whose readiness check fails is not sent in this pass. |
| Firmware.Device.constructor | main.c:84-137 | At power-on nothing is pending and both tables are zero. The idle-rate table is zero because it is static storage (main.c:84), and the idle counters because of the memset (main.c:137). |
| Firmware.Device.BuildReport | main.c:225 | buildReport's bytes are written at the front of the report buffer, the rest of the buffer is kept, and their count is returned. |
| Firmware.Device.Setup | main.c:88-127 | The reply is SetupReply, and the idle-rate table becomes SetupRates of the old table. The report buffer changes only on class GET_REPORT. The idle counters and the pending set never change. |
| Firmware.Device.SetIdleThenGetIdle | main.c:104-121 | Two control requests in a row, SET_IDLE(k, R) then GET_IDLE(k), give the host [R] for a slot id and nothing otherwise. The idle-rate table ends as SetIdle of the old table, and the report buffer and the idle counters are left alone. |
| Firmware.Device.SampleTick | main.c:178-190 | The pending set becomes the old set plus the changed slots. No bit is cleared. |
| Firmware.Device.ServiceTick | main.c:194-210 | Each counter of the first num_reports slots takes TickSlot's new value, and the other counters are kept. The pending set becomes the old set plus the expired slots. |
| Firmware.Device.Drain | main.c:214-237 | The sent packets are the Delivered ids of the old pending set, each with its built report. The report buffer ends as those reports written in turn. The pending set is empty afterwards, whether or not every slot was sent. |
| Firmware.Device.Pass | main.c:171-238 | One loop pass sends Delivered(PendingAfterTicks(...)). The counters tick only if the service tick came, and nothing is pending afterwards. |

## Left out

- `hardwareInit` (main.c:41-74) configures ports and timers and busy-waits for a USB reset. It is pure hardware I/O.
- The timer flags in `TIFR` (main.c:178-180, 194-195) become the boolean inputs `sampleTick` and `serviceTick` of `Pass`.
- The USB driver is not part of this model: `usbInit`, `usbPoll`, `usbSetInterrupt` and `usbInterruptIsReady`.
  - `usbMsgPtr` is modelled as the reply's `MsgPtr`.
  - The driver's clipping of a reply to the host's wLength is not modelled.
  - Control requests are served by `usbPoll` at the top of each pass (main.c:175) and also inside the drain's busy-wait (main.c:230). The model serves them only as separate calls of `Setup` between passes.
- Firmware.Device.Drain, Firmware.Device.Pass: requests served during the drain's busy-wait are not modelled. In the firmware a GET_REPORT there rewrites the report buffer between two sends, and a SET_IDLE there changes the idle-rate table in the middle of a pass. The sent packets are unaffected, since each report is built just before it is sent. But `Drain`'s ensures on the final report buffer, and `Pass`'s use of the final idle-rate table for the service tick, hold only for drains during which no control request arrives.
- Firmware.Device.Drain: readiness is an arbitrary answer per visited slot. The driver's stronger behaviour is not captured: after a send, the busy-wait at main.c:228-232 leaves the endpoint ready for the next check. The busy-wait itself is assumed to terminate.
- Watchdog and debug calls (`wdt_reset`, `odDebugInit`, `DBG1`) have no effect on the modelled state.
- Descriptor selection and the serial-number descriptor (main.c:31-34, 139-157) are static configuration.
- The gamepad's `init`, `update`, `changed` and `buildReport` (`snes.h`, `gamepad.h`) are not part of this model. `changed` and `buildReport` are inputs, and every report is required to fit the 12-byte report buffer.
- `reportPos` (main.c:86, 101) is written but never read.
- `must_report` is a `char` bitfield in the source. It is modelled as the set of slot indices whose bit is set. At most 8 slots exist, so every bit fits.
- The service tick is about 22 ms of timer 0, but the counter is decreased by 5 units of 4 ms. The model counts in ticks and units, as the code does. It does not relate them to wall-clock time.
