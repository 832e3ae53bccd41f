/** The converter's state and the code of main.c that changes it: the HID
    control-request handler (`usbFunctionSetup`) and the scheduling steps of
    the main event loop. The gamepad (`changed`, `buildReport`) and the
    endpoint's readiness are inputs to the methods. */
module Firmware {
  import opened Bytes
  import opened Hid
  import opened Scheduler

  /** One report handed to the interrupt endpoint (`usbSetInterrupt`). */
  datatype Packet = Packet(reportId: uint8, data: seq<uint8>)

  /** The report buffer after the gamepad has built the report `data` over
      its front; the bytes past the report keep their old values. */
  function Written(buffer: seq<uint8>, data: seq<uint8>): (r: seq<uint8>)
    requires |data| <= |buffer|
    ensures |r| == |buffer| && r[..|data|] == data
    ensures forall k :: |data| <= k < |buffer| ==> r[k] == buffer[k]
  {
    data + buffer[|data|..]
  }

  /** The packets sent for the report ids `ids`, in order. */
  function Packets(ids: seq<uint8>, buildReport: uint8 -> seq<uint8>): seq<Packet>
  {
    seq(|ids|, k requires 0 <= k < |ids| => Packet(ids[k], buildReport(ids[k])))
  }

  /** Every report the gamepad builds fits the 12-byte report buffer. */
  predicate FitsBuffer(buildReport: uint8 -> seq<uint8>)
  {
    forall id: uint8 :: |buildReport(id)| <= REPORT_BUFFER_SIZE
  }

  /** The report buffer after each of `sent` has been built into it in turn. */
  function AfterSends(buffer: seq<uint8>, sent: seq<Packet>): (r: seq<uint8>)
    requires forall k :: 0 <= k < |sent| ==> |sent[k].data| <= |buffer|
    ensures |r| == |buffer|
  {
    if sent == [] then buffer
    else Written(AfterSends(buffer, sent[..|sent| - 1]), sent[|sent| - 1].data)
  }

  lemma PacketsSnoc(ids: seq<uint8>, id: uint8, buildReport: uint8 -> seq<uint8>)
    ensures Packets(ids + [id], buildReport) == Packets(ids, buildReport) + [Packet(id, buildReport(id))]
  {
  }

  lemma AfterSendsSnoc(buffer: seq<uint8>, sent: seq<Packet>, p: Packet)
    requires forall k :: 0 <= k < |sent| ==> |sent[k].data| <= |buffer|
    requires |p.data| <= |buffer|
    ensures AfterSends(buffer, sent + [p]) == Written(AfterSends(buffer, sent), p.data)
  {
    assert (sent + [p])[..|sent|] == sent;
  }

  class Device {
    /** How many report slots the gamepad has (`curGamepad->num_reports`). */
    const numReports: nat
    /** Idle rate per slot, in 4 ms units; 0 means report on change only. */
    const idleRates: array<uint8>
    /** Countdown per slot toward the next forced report. */
    const idleCounters: array<uint8>
    /** The buffer reports are built into, for both endpoints. */
    const reportBuffer: array<uint8>
    /** `must_report`, as the set of slots whose bit is set: slot i has a
        report to send. */
    var mustReport: set<nat>

    ghost predicate Valid()
      reads this
    {
      numReports <= MAX_REPORTS &&
      idleRates.Length == MAX_REPORTS && idleCounters.Length == MAX_REPORTS &&
      reportBuffer.Length == REPORT_BUFFER_SIZE &&
      idleRates != idleCounters && reportBuffer != idleRates && reportBuffer != idleCounters &&
      WithinSlots(mustReport, numReports)
    }

    /** Power-on state: the idle-rate table is zero (static storage), the
        counters are cleared by `memset`, and nothing is pending. */
    constructor (numReports: nat)
      requires numReports <= MAX_REPORTS
      ensures Valid() && this.numReports == numReports
      ensures fresh(idleRates) && fresh(idleCounters) && fresh(reportBuffer)
      ensures forall i :: 0 <= i < MAX_REPORTS ==> idleRates[i] == 0 && idleCounters[i] == 0
      ensures mustReport == {}
    {
      this.numReports := numReports;
      idleRates := new uint8[MAX_REPORTS](_ => 0);
      idleCounters := new uint8[MAX_REPORTS](_ => 0);
      reportBuffer := new uint8[REPORT_BUFFER_SIZE](_ => 0);
      mustReport := {};
    }

    /** The gamepad's buildReport writing report `id` into the report buffer
        and returning its length. */
    method BuildReport(id: uint8, buildReport: uint8 -> seq<uint8>) returns (len: nat)
      requires Valid() && FitsBuffer(buildReport)
      modifies reportBuffer
      ensures len == |buildReport(id)|
      ensures reportBuffer[..] == Written(old(reportBuffer[..]), buildReport(id))
    {
      var data := buildReport(id);
      forall k | 0 <= k < |data| {
        reportBuffer[k] := data[k];
      }
      len := |data|;
    }

    /** The handler of HID class control requests. Only SET_IDLE changes the
        idle-rate table and only GET_REPORT the report buffer; no request
        touches the idle counters or the pending bitfield. */
    method Setup(p: SetupPacket, buildReport: uint8 -> seq<uint8>) returns (r: Reply)
      requires Valid() && FitsBuffer(buildReport)
      modifies idleRates, reportBuffer
      ensures Valid()
      ensures r == SetupReply(p, |buildReport(p.wValueLo)|)
      ensures idleRates[..] == SetupRates(p, old(idleRates[..]))
      ensures reportBuffer[..] ==
        if IsClassRequest(p.bmRequestType) && p.bRequest == HID_GET_REPORT
        then Written(old(reportBuffer[..]), buildReport(p.wValueLo))
        else old(reportBuffer[..])
      ensures unchanged(idleCounters)
    {
      r := NoData;
      if IsClassRequest(p.bmRequestType) {
        if p.bRequest == HID_GET_REPORT {
          var len := BuildReport(p.wValueLo, buildReport);
          r := Reply(len, ReportBuffer);
        } else if p.bRequest == HID_GET_IDLE {
          if IsSlotId(p.wValueLo) {
            r := Reply(1, IdleRate(p.wValueLo as int - 1));
          }
        } else if p.bRequest == HID_SET_IDLE {
          if p.wValueLo == 0 {
            for i := 0 to MAX_REPORTS
              invariant forall k :: 0 <= k < i ==> idleRates[k] == p.wValueHi
              invariant unchanged(reportBuffer)
            {
              idleRates[i] := p.wValueHi;
            }
          } else if IsSlotId(p.wValueLo) {
            idleRates[p.wValueLo - 1] := p.wValueHi;
          }
        }
      }
    }

    /** A host's SET_IDLE(k, R) followed by GET_IDLE(k): the bytes the host
        reads back are exactly [R] for a slot id k, and nothing otherwise. */
    method SetIdleThenGetIdle(bmRequestType: uint8, reportId: uint8, rate: uint8,
                              buildReport: uint8 -> seq<uint8>) returns (bytes: seq<uint8>)
      requires Valid() && FitsBuffer(buildReport) && IsClassRequest(bmRequestType)
      modifies idleRates, reportBuffer
      ensures Valid()
      ensures bytes == if IsSlotId(reportId) then [rate] else []
      ensures idleRates[..] == SetIdle(old(idleRates[..]), reportId, rate)
      ensures reportBuffer[..] == old(reportBuffer[..])
      ensures unchanged(idleCounters)
    {
      var _ := Setup(SetupPacket(bmRequestType, HID_SET_IDLE, reportId, rate), buildReport);
      var r := Setup(SetupPacket(bmRequestType, HID_GET_IDLE, reportId, 0), buildReport);
      bytes := ReplyBytes(r, idleRates[..], reportBuffer[..]);
      SetIdleGetIdleRoundTrip(old(idleRates[..]), reportBuffer[..], reportId, rate);
    }

    /** The sample tick, after the gamepad's update(): every slot whose
        `changed(i + 1)` holds becomes pending; no bit is cleared. */
    method SampleTick(changed: uint8 -> bool)
      requires Valid()
      modifies this`mustReport
      ensures Valid()
      ensures mustReport == old(mustReport) + ChangedSlots(changed, numReports)
    {
      var i := 0;
      while i < numReports
        invariant i <= numReports
        invariant mustReport == old(mustReport) + ChangedSlots(changed, i)
      {
        if changed((i + 1) as uint8) {
          mustReport := mustReport + {i};
        }
        i := i + 1;
      }
      ChangedSlotsIff(changed, numReports);
    }

    /** The service tick: the idle countdown of every slot (TickSlot); the
        slots whose counter expired become pending; no slot stops being
        pending. */
    method ServiceTick()
      requires Valid()
      modifies this`mustReport, idleCounters
      ensures Valid()
      ensures forall i :: 0 <= i < MAX_REPORTS ==>
        idleCounters[i] == if i < numReports then TickSlot(idleRates[i], old(idleCounters[i])).counter
                           else old(idleCounters[i])
      ensures mustReport == old(mustReport) + ExpiredSlots(idleRates[..], old(idleCounters[..]), numReports)
    {
      ghost var rates, counters := idleRates[..], idleCounters[..];
      var i := 0;
      while i < numReports
        invariant i <= numReports
        invariant forall k :: 0 <= k < MAX_REPORTS ==>
          idleCounters[k] == if k < i then TickSlot(rates[k], counters[k]).counter else counters[k]
        invariant mustReport == old(mustReport) + ExpiredSlots(rates, counters, i)
      {
        if idleRates[i] != 0 {
          if idleCounters[i] > SERVICE_TICK_UNITS - 1 {
            idleCounters[i] := idleCounters[i] - SERVICE_TICK_UNITS;
          } else {
            idleCounters[i] := idleRates[i];
            mustReport := mustReport + {i};
          }
        }
        i := i + 1;
      }
      ExpiredSlotsIff(rates, counters, numReports);
    }

    /** The drain: pending slots are visited in ascending order, and each is
        built and sent only if the endpoint is ready when it is visited
        (`ready[i]`). The bitfield is then cleared, sent or not. */
    method Drain(ready: seq<bool>, buildReport: uint8 -> seq<uint8>) returns (sent: seq<Packet>)
      requires Valid() && |ready| == numReports && FitsBuffer(buildReport)
      modifies this`mustReport, reportBuffer
      ensures Valid() && mustReport == {}
      ensures sent == Packets(Delivered(old(mustReport), ready, numReports), buildReport)
      ensures reportBuffer[..] == AfterSends(old(reportBuffer[..]), sent)
    {
      sent := [];
      if mustReport != {} {
        ghost var buffer := reportBuffer[..];
        var i := 0;
        while i < numReports
          invariant i <= numReports && mustReport == old(mustReport)
          invariant sent == Packets(Delivered(mustReport, ready, i), buildReport)
          invariant forall k :: 0 <= k < |sent| ==> |sent[k].data| <= REPORT_BUFFER_SIZE
          invariant reportBuffer[..] == AfterSends(buffer, sent)
        {
          if i in mustReport && ready[i] {
            var id := (i + 1) as uint8;
            var len := BuildReport(id, buildReport);
            var packet := Packet(id, reportBuffer[..len]);
            assert packet == Packet(id, buildReport(id));
            PacketsSnoc(Delivered(mustReport, ready, i), id, buildReport);
            AfterSendsSnoc(buffer, sent, packet);
            sent := sent + [packet];
          }
          i := i + 1;
        }
        mustReport := {};
      } else {
        NothingPendingNothingSent(ready, numReports);
      }
    }

    /** One pass of the main event loop: the sample tick if it came, then the
        service tick if it came, then the drain. */
    method Pass(sampleTick: bool, changed: uint8 -> bool, serviceTick: bool,
                ready: seq<bool>, buildReport: uint8 -> seq<uint8>) returns (sent: seq<Packet>)
      requires Valid() && |ready| == numReports && FitsBuffer(buildReport)
      modifies this`mustReport, idleCounters, reportBuffer
      ensures Valid() && mustReport == {}
      ensures sent == Packets(Delivered(
        PendingAfterTicks(old(mustReport), sampleTick, changed, serviceTick,
                          idleRates[..], old(idleCounters[..]), numReports),
        ready, numReports), buildReport)
      ensures forall i :: 0 <= i < MAX_REPORTS ==>
        idleCounters[i] == if serviceTick && i < numReports
                           then TickSlot(idleRates[i], old(idleCounters[i])).counter
                           else old(idleCounters[i])
      ensures reportBuffer[..] == AfterSends(old(reportBuffer[..]), sent)
    {
      ghost var pending := PendingAfterTicks(old(mustReport), sampleTick, changed, serviceTick,
                                             idleRates[..], idleCounters[..], numReports);
      if sampleTick {
        SampleTick(changed);
      }
      assert mustReport == old(mustReport) + if sampleTick then ChangedSlots(changed, numReports) else {};
      if serviceTick {
        ServiceTick();
      }
      assert mustReport == pending;
      sent := Drain(ready, buildReport);
    }
  }
}
