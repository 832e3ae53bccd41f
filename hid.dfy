/** The HID class control requests the firmware answers (`usbFunctionSetup`
    in main.c), stated as functions of the request and the idle-rate table.
    Request codes are those of the Device Class Definition for HID 1.11,
    section 7.2; the request-type field is that of bmRequestType in section
    9.3.1 of the USB 2.0 specification. */
module Hid {
  import opened Bytes

  /** Bits 6..5 of bmRequestType: the request type. */
  const USBRQ_TYPE_MASK: bv8 := 0x60
  /** Request type 1 in bits 6..5: a class request. */
  const USBRQ_TYPE_CLASS: bv8 := 0x20

  /** HID 1.11 section 7.2.1. */
  const HID_GET_REPORT: uint8 := 0x01
  /** HID 1.11 section 7.2.3. */
  const HID_GET_IDLE: uint8 := 0x02
  /** HID 1.11 section 7.2.4. */
  const HID_SET_IDLE: uint8 := 0x0A

  /** The fields of the 8-byte setup packet that the handler reads; wValue is
      split into its low byte (the report id) and its high byte (the report
      type for GET_REPORT, the new idle rate for SET_IDLE). */
  datatype SetupPacket = SetupPacket(bmRequestType: uint8, bRequest: uint8, wValueLo: uint8, wValueHi: uint8)

  /** Where `usbMsgPtr` points when the handler returns: at the report
      buffer, or at entry `index` of the idle-rate table. */
  datatype MsgPtr = ReportBuffer | IdleRate(index: nat)

  /** The handler's answer: how many bytes the driver sends back, from where. */
  datatype Reply = Reply(len: nat, msg: MsgPtr)

  predicate IsClassRequest(bmRequestType: uint8)
  {
    (bmRequestType as bv8) & USBRQ_TYPE_MASK == USBRQ_TYPE_CLASS
  }

  /** A report id that names a slot (1..MAX_REPORTS). */
  predicate IsSlotId(reportId: uint8)
  {
    0 < reportId as int <= MAX_REPORTS
  }

  /** The answer given when nothing is sent back. */
  const NoData: Reply := Reply(0, ReportBuffer)

  /** SET_IDLE on the idle-rate table: report id 0 sets every entry, a slot id
      sets that slot's entry alone, any larger id is ignored. */
  function SetIdle(rates: seq<uint8>, reportId: uint8, rate: uint8): (r: seq<uint8>)
    requires |rates| == MAX_REPORTS
    ensures |r| == MAX_REPORTS
    ensures reportId == 0 ==> forall i :: 0 <= i < MAX_REPORTS ==> r[i] == rate
    ensures IsSlotId(reportId) ==> r[reportId - 1] == rate
    ensures IsSlotId(reportId) ==>
      forall i :: 0 <= i < MAX_REPORTS && i != reportId as int - 1 ==> r[i] == rates[i]
    ensures reportId as int > MAX_REPORTS ==> r == rates
  {
    if reportId == 0 then seq(MAX_REPORTS, _ => rate)
    else if IsSlotId(reportId) then rates[reportId - 1 := rate]
    else rates
  }

  /** GET_IDLE: one byte read from the slot's table entry, or nothing for
      report id 0 and ids past the last slot. */
  function GetIdle(reportId: uint8): (r: Reply)
    ensures r.len == 1 <==> IsSlotId(reportId)
    ensures r.len <= 1
    ensures r.msg.IdleRate? ==> r.len == 1 && r.msg.index == reportId as int - 1
    ensures IsSlotId(reportId) ==> r == Reply(1, IdleRate(reportId as int - 1))
  {
    if IsSlotId(reportId) then Reply(1, IdleRate(reportId as int - 1)) else NoData
  }

  /** The whole reply of the handler to `p`, given the length that the
      gamepad's buildReport returns for report id `p.wValueLo`. */
  function SetupReply(p: SetupPacket, reportLen: nat): (r: Reply)
    ensures r.len != 0 ==>
      IsClassRequest(p.bmRequestType) && (p.bRequest == HID_GET_REPORT || p.bRequest == HID_GET_IDLE)
    ensures IsClassRequest(p.bmRequestType) && p.bRequest == HID_GET_REPORT ==>
      r == Reply(reportLen, ReportBuffer)
    ensures r.msg.IdleRate? <==>
      IsClassRequest(p.bmRequestType) && p.bRequest == HID_GET_IDLE && IsSlotId(p.wValueLo)
    ensures r.msg.IdleRate? ==> r.len == 1 && r.msg.index < MAX_REPORTS
    ensures IsClassRequest(p.bmRequestType) && p.bRequest == HID_GET_IDLE ==> r == GetIdle(p.wValueLo)
  {
    if !IsClassRequest(p.bmRequestType) then NoData
    else if p.bRequest == HID_GET_REPORT then Reply(reportLen, ReportBuffer)
    else if p.bRequest == HID_GET_IDLE then GetIdle(p.wValueLo)
    else NoData
  }

  /** The idle-rate table after the handler has answered `p`. */
  function SetupRates(p: SetupPacket, rates: seq<uint8>): (r: seq<uint8>)
    requires |rates| == MAX_REPORTS
    ensures |r| == MAX_REPORTS
    ensures r != rates ==> IsClassRequest(p.bmRequestType) && p.bRequest == HID_SET_IDLE
    ensures IsClassRequest(p.bmRequestType) && p.bRequest == HID_SET_IDLE ==>
      r == SetIdle(rates, p.wValueLo, p.wValueHi)
  {
    if IsClassRequest(p.bmRequestType) && p.bRequest == HID_SET_IDLE
    then SetIdle(rates, p.wValueLo, p.wValueHi)
    else rates
  }

  /** The bytes the host receives: `len` bytes starting at `usbMsgPtr`. */
  function ReplyBytes(r: Reply, rates: seq<uint8>, buffer: seq<uint8>): seq<uint8>
    requires r.msg.IdleRate? ==> r.msg.index + r.len <= |rates|
    requires r.msg.ReportBuffer? ==> r.len <= |buffer|
  {
    match r.msg
    case ReportBuffer => buffer[..r.len]
    case IdleRate(i) => rates[i..i + r.len]
  }

  /** SET_IDLE(k, R) followed by GET_IDLE(k) reads back R, for every slot id
      k; for report id 0 and ids past the last slot GET_IDLE reads nothing. */
  lemma SetIdleGetIdleRoundTrip(rates: seq<uint8>, buffer: seq<uint8>, reportId: uint8, rate: uint8)
    requires |rates| == MAX_REPORTS
    ensures ReplyBytes(GetIdle(reportId), SetIdle(rates, reportId, rate), buffer) ==
      if IsSlotId(reportId) then [rate] else []
  {
  }

  /** After a broadcast SET_IDLE(0, R), GET_IDLE of every slot id reads R. */
  lemma BroadcastThenGetIdle(rates: seq<uint8>, buffer: seq<uint8>, rate: uint8, reportId: uint8)
    requires |rates| == MAX_REPORTS
    requires IsSlotId(reportId)
    ensures ReplyBytes(GetIdle(reportId), SetIdle(rates, 0, rate), buffer) == [rate]
  {
  }
}
