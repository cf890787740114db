/** The NEO-M8N GPS driver context and its position acquisition
    (src/components/neom8n.c): two 128-byte NMEA receive buffers filled in
    turn by DMA, the flags shared with the LPUART interrupt, the GGA parse
    of a completed line, and the wake-up loop of NEOM8N_GetPosition.

    The hardware around the loop (RTC wake-up timer, DMA, ADC, clocks,
    sleep and watchdog) is an environment: each wake-up is a WakeEvent
    that says whether the RTC flag is set, what the DMA left in the buffer
    it gives up, whether the interrupt reported a line feed, and what the
    ADC reads as the supercap voltage. */
module Neom8nDriver {
  import opened Common
  import opened Nmea
  import opened Gga
  import opened Ubx

  /** NEOM8N_ReturnCode: the only two values NEOM8N_GetPosition assigns. */
  datatype ReturnCode = Timeout | Success

  /** What one wake-up of the acquisition loop observes. `rtcFired` is the
      RTC wake-up flag when the loop tests it before that sleep; during
      the sleep the LPUART interrupt hands the DMA buffer over, leaving
      `received` in the buffer it gives up and reporting `lf`; after a
      line feed the ADC reads `supercapMv`. */
  datatype WakeEvent = WakeEvent(rtcFired: bool, lf: bool, received: seq<uint8>, supercapMv: nat)

  /** How a session ends: after how many wake-ups, and with which position
      if one was delivered. */
  datatype SessionEnd = SessionEnd(wakeUps: nat, found: Option<Position>)

  /** A buffer of zeros, what an erased receive buffer holds. */
  const Zeros: seq<uint8> := ZeroBytes(BufferSize)

  // ---------------------------------------------------------------------
  // What the parse of one buffer decides.

  /** The parse accepts the buffer: both checksums agree and the GGA fields
      pass every check up to the altitude unit. */
  predicate LineAccepted(s: seq<uint8>)
  {
    ChecksumsMatch(s) && FieldsAccepted(s)
  }

  /** The parse erases the buffer: the checksums differ or a field check
      fails. */
  predicate LineDiscarded(s: seq<uint8>)
  {
    !ChecksumsMatch(s) || LineRejected(s)
  }

  /** An accepted buffer is never erased, and it carries a GGA address
      field, a latitude, a hemisphere, a longitude, a side and an
      altitude. */
  lemma AcceptedLineKept(s: seq<uint8>)
    requires LineAccepted(s)
    ensures !LineDiscarded(s)
    ensures |Closed(Line(s))| >= 11 && |Closed(Line(s))[2]| == 10 && |Closed(Line(s))[4]| == 11
  {
    AcceptedFieldShapes(s);
  }

  /** A buffer with no '*' within its 128 bytes has both checksums 0, so
      the checksum comparison lets it through. */
  lemma NoStarPassesChecksum(s: seq<uint8>)
    requires forall i :: 0 <= i < |s| ==> s[i] != Star
    ensures ChecksumsMatch(s)
  {
    assert FindFrom(s, Star, 0) == |s|;
    var dollar := FindFrom(s, Dollar, 0);
    assert FindFrom(s, Star, dollar) == |s|;
  }

  // ---------------------------------------------------------------------
  // The acquisition loop, as a function of the wake-up trace.

  /** The RTC flag seen after j wake-ups; a trace that ends stands for the
      wake-up timer firing. */
  predicate RtcFlag(events: seq<WakeEvent>, j: nat)
  {
    j >= |events| || events[j].rtcFired
  }

  /** A wake-up that ends the session with a position: a line feed, a
      buffer the parse accepts, and a position within range. */
  predicate Delivers(ev: WakeEvent)
  {
    ev.lf && LineAccepted(ev.received) && PositionIsValid(GgaPosition(ev.received))
  }

  /** A wake-up that ends the session on the supercap threshold. */
  predicate LowSupercap(ev: WakeEvent, minMv: nat)
  {
    ev.lf && ev.supercapMv < minMv
  }

  /** The session from the j-th loop test on: it ends when the RTC flag is
      set, when a wake-up delivers a valid position, or when a wake-up
      with a line feed reads the supercap below the threshold. */
  function Session(events: seq<WakeEvent>, j: nat, minMv: nat): SessionEnd
    decreases |events| - j
  {
    if RtcFlag(events, j) then SessionEnd(j, None)
    else if Delivers(events[j]) then SessionEnd(j + 1, Some(GgaPosition(events[j].received)))
    else if LowSupercap(events[j], minMv) then SessionEnd(j + 1, None)
    else Session(events, j + 1, minMv)
  }

  /** The fix duration as returned: the wake-up count in unsigned 32-bit
      arithmetic, replaced by the timeout when the RTC flag is set or the
      count exceeds it. */
  function ClampedFix(wakeUps: nat, rtc: bool, timeout: nat): (fix: nat)
    ensures fix <= timeout
    ensures !rtc && wakeUps < Uint32Limit && wakeUps <= timeout ==> fix == wakeUps
  {
    var count := wakeUps % Uint32Limit;
    if rtc || count > timeout then timeout else count
  }

  /** A session delivers a position only from a wake-up with a line feed
      whose buffer the parse accepts, and only a position within range. */
  lemma {:induction false} SessionDeliversValidPosition(events: seq<WakeEvent>, j: nat, minMv: nat)
    ensures var r := Session(events, j, minMv);
      r.found.Some? ==>
        && PositionIsValid(r.found.value)
        && exists k :: j <= k < r.wakeUps && k < |events| && events[k].lf
             && LineAccepted(events[k].received) && r.found.value == GgaPosition(events[k].received)
    decreases |events| - j
  {
    var r := Session(events, j, minMv);
    if !RtcFlag(events, j) {
      if Delivers(events[j]) {
        assert j < r.wakeUps && events[j].lf && LineAccepted(events[j].received);
      } else if !LowSupercap(events[j], minMv) {
        SessionDeliversValidPosition(events, j + 1, minMv);
      }
    }
  }

  /** A session ends on the RTC flag or right after a wake-up that
      reported a line feed: the supercap voltage is sampled, and the loop
      can end early, only on such wake-ups. Wake-ups before the last one
      neither delivered nor saw a low supercap. */
  lemma {:induction false} SessionEndsOnTimerOrLine(events: seq<WakeEvent>, j: nat, minMv: nat)
    requires j <= |events|
    ensures var r := Session(events, j, minMv);
      && j <= r.wakeUps <= |events|
      && (RtcFlag(events, r.wakeUps) || (r.wakeUps > j && events[r.wakeUps - 1].lf))
      && (r.found.None? && !RtcFlag(events, r.wakeUps) ==> LowSupercap(events[r.wakeUps - 1], minMv))
      && forall k :: j <= k < r.wakeUps - 1 ==> !Delivers(events[k]) && !LowSupercap(events[k], minMv)
    decreases |events| - j
  {
    if !RtcFlag(events, j) && !Delivers(events[j]) && !LowSupercap(events[j], minMv) {
      SessionEndsOnTimerOrLine(events, j + 1, minMv);
    }
  }

  /** One wake-up of the session. */
  lemma SessionStep(events: seq<WakeEvent>, j: nat, minMv: nat)
    requires !RtcFlag(events, j)
    ensures Session(events, j, minMv) ==
      if Delivers(events[j]) then SessionEnd(j + 1, Some(GgaPosition(events[j].received)))
      else if LowSupercap(events[j], minMv) then SessionEnd(j + 1, None)
      else Session(events, j + 1, minMv)
  {
  }

  /** The unsigned 32-bit wake-up counter follows the count. */
  lemma CountStep(fix: nat, j: nat)
    requires fix == j % Uint32Limit
    ensures (fix + 1) % Uint32Limit == (j + 1) % Uint32Limit
  {
  }

  // ---------------------------------------------------------------------
  // The driver context.

  /** Fill a buffer: the model of what the DMA channel writes. */
  method Fill(buf: array<uint8>, data: seq<uint8>)
    requires buf.Length == |data|
    modifies buf
    ensures buf[..] == data
  {
    var i := 0;
    while i < buf.Length
      invariant 0 <= i <= buf.Length
      invariant buf[..i] == data[..i]
    {
      buf[i] := data[i];
      i := i + 1;
    }
  }

  /** The erase loop of the driver: every byte of the buffer set to 0. */
  method Erase(buf: array<uint8>)
    requires buf.Length == BufferSize
    modifies buf
    ensures buf[..] == Zeros
  {
    var i := 0;
    while i < buf.Length
      invariant 0 <= i <= buf.Length
      invariant forall k :: 0 <= k < i ==> buf[k] == 0
    {
      buf[i] := 0;
      i := i + 1;
    }
  }

  /** NEOM8N_Context: the two receive buffers, which of them the DMA fills,
      the line-feed flag set by the interrupt, the parse and validity
      flags, and the last supercap voltage read. */
  class Neom8n {
    const buf1: array<uint8>
    const buf2: array<uint8>
    var fillBuf1: bool
    var lfFlag: bool
    var parsingSuccess: bool
    var dataValid: bool
    var supercapMv: nat

    ghost predicate Valid()
    {
      buf1.Length == BufferSize && buf2.Length == BufferSize && buf1 != buf2
    }

    constructor ()
      ensures Valid() && fresh(buf1) && fresh(buf2)
    {
      buf1 := new uint8[BufferSize];
      buf2 := new uint8[BufferSize];
    }

    /** NEOM8N_Init: both buffers erased and the flags and voltage reset;
        the buffer selection is left as it is. */
    method Init()
      requires Valid()
      modifies this, buf1, buf2
      ensures Valid()
      ensures buf1[..] == Zeros && buf2[..] == Zeros
      ensures !lfFlag && !parsingSuccess && !dataValid && supercapMv == 0
      ensures fillBuf1 == old(fillBuf1)
    {
      Erase(buf1);
      Erase(buf2);
      lfFlag, parsingSuccess, dataValid, supercapMv := false, false, false, 0;
    }

    /** NEOM8N_SwitchDmaBuffer, run by the LPUART character-match
        interrupt: the DMA moves to the other buffer and the line-feed flag
        takes the interrupt's value. */
    method SwitchDmaBuffer(lf: bool)
      modifies this`fillBuf1, this`lfFlag
      ensures fillBuf1 == !old(fillBuf1) && lfFlag == lf
    {
      if !fillBuf1 {
        fillBuf1 := true;
      } else {
        fillBuf1 := false;
      }
      lfFlag := lf;
    }

    /** NEOM8N_ParseNmeaGgaMessage on buf, writing into the candidate
        position `local`: the buffer is erased when the checksums differ
        or a field check fails; parsingSuccess is set when the line is
        accepted, and then the result is the line's position. */
    method ParseNmeaGgaMessage(buf: array<uint8>, local: Position) returns (pos: Position)
      requires buf.Length == BufferSize
      modifies this`parsingSuccess, buf
      ensures var s := old(buf[..]);
        && parsingSuccess == (old(parsingSuccess) || LineAccepted(s))
        && buf[..] == (if LineDiscarded(s) then Zeros else s)
        && (LineAccepted(s) ==> pos == GgaPosition(s))
        && (!ChecksumsMatch(s) ==> pos == local)
        && (ChecksumsMatch(s) && !LineRejected(s) ==> pos == Replay(Closed(Line(s)), local))
    {
      var received := GetNmeaChecksum(buf);
      var computed := ComputeNmeaChecksum(buf);
      pos := local;
      if computed == received {
        var error, success;
        error, success, pos := ScanGgaFields(buf, local);
        if success {
          parsingSuccess := true;
        }
        if error {
          Erase(buf);
        }
      } else {
        Erase(buf);
      }
    }

    /** The buffer the parser reads: the one the DMA is not filling. */
    function Vacated(): array<uint8>
      reads this
    {
      if fillBuf1 then buf2 else buf1
    }

    /** What happens while the loop sleeps: the DMA writes `received` into
        the buffer it fills, then the interrupt switches buffers with the
        line-feed flag `lf`. The parser then reads exactly what the DMA
        wrote. */
    method Receive(received: seq<uint8>, lf: bool)
      requires Valid() && |received| == BufferSize
      modifies this`fillBuf1, this`lfFlag, buf1, buf2
      ensures Valid()
      ensures fillBuf1 == !old(fillBuf1) && lfFlag == lf
      ensures Vacated()[..] == received
    {
      if fillBuf1 {
        Fill(buf1, received);
      } else {
        Fill(buf2, received);
      }
      SwitchDmaBuffer(lf);
    }

    /** The body of the acquisition loop after a line-feed wake-up: parse
        the vacated buffer, keep the position if it is accepted and valid,
        clear the line-feed flag and read the supercap voltage. `stop` is
        the early exit on a low supercap. */
    method HandleLine(ev: WakeEvent, minMv: nat, code: ReturnCode, out: Position, local: Position)
      returns (code': ReturnCode, out': Position, local': Position, stop: bool)
      requires Valid() && ev.lf && |ev.received| == BufferSize
      requires Vacated()[..] == ev.received && !parsingSuccess && !dataValid
      modifies this`parsingSuccess, this`dataValid, this`lfFlag, this`supercapMv, buf1, buf2
      ensures Valid() && !lfFlag
      ensures dataValid == Delivers(ev) && !parsingSuccess == !dataValid
      ensures code' == (if Delivers(ev) then Success else code)
      ensures out' == (if Delivers(ev) then GgaPosition(ev.received) else out)
      ensures stop == LowSupercap(ev, minMv)
    {
      code', out' := code, out;
      if fillBuf1 {
        local' := ParseNmeaGgaMessage(buf2, local);
      } else {
        local' := ParseNmeaGgaMessage(buf1, local);
      }
      if parsingSuccess {
        if PositionIsValid(local') {
          code' := Success;
          out' := local';
          dataValid := true;
        } else {
          dataValid := false;
          parsingSuccess := false;
        }
      }
      lfFlag := false;
      supercapMv := ev.supercapMv;
      stop := supercapMv < minMv;
    }

    /** One pass of the acquisition loop on the j-th wake-up: the DMA
        buffers receive its bytes and, on a line feed, the line is
        handled. Its outcome is the session's j-th step. */
    method WakeUp(events: seq<WakeEvent>, j: nat, minMv: nat, code: ReturnCode, out: Position, local: Position)
      returns (code': ReturnCode, out': Position, local': Position, stop: bool)
      requires Valid() && !RtcFlag(events, j) && |events[j].received| == BufferSize
      requires !lfFlag && !parsingSuccess && !dataValid
      modifies this`fillBuf1, this`parsingSuccess, this`dataValid, this`lfFlag, this`supercapMv, buf1, buf2
      ensures Valid() && !lfFlag
      ensures dataValid ==> code' == Success && Session(events, j, minMv) == SessionEnd(j + 1, Some(out'))
      ensures !dataValid ==> code' == code && out' == out && !parsingSuccess
      ensures !dataValid && stop ==> Session(events, j, minMv) == SessionEnd(j + 1, None)
      ensures !dataValid && !stop ==> Session(events, j, minMv) == Session(events, j + 1, minMv)
    {
      var ev := events[j];
      SessionStep(events, j, minMv);
      code', out', local', stop := code, out, local, false;
      Receive(ev.received, ev.lf);
      if lfFlag {
        code', out', local', stop := HandleLine(ev, minMv, code, out, local);
      }
    }

    /** The acquisition loop of NEOM8N_GetPosition: wake-ups until the RTC
        flag is set, a position is delivered or the supercap reads low.
        Returns the code, the position, the unsigned 32-bit wake-up
        counter and the number of wake-ups. */
    method Acquire(gps: Position, minMv: nat, events: seq<WakeEvent>)
      returns (code: ReturnCode, out: Position, count: nat, j: nat)
      requires Valid() && !lfFlag && !parsingSuccess && !dataValid
      requires forall k :: 0 <= k < |events| ==> |events[k].received| == BufferSize
      modifies this`fillBuf1, this`parsingSuccess, this`dataValid, this`lfFlag, this`supercapMv, buf1, buf2
      ensures Valid() && !lfFlag && count == j % Uint32Limit
      ensures Session(events, 0, minMv) == SessionEnd(j, if dataValid then Some(out) else None)
      ensures code == (if dataValid then Success else Timeout)
      ensures !dataValid ==> out == gps
    {
      code, out, count, j := Timeout, gps, 0, 0;
      var local := gps;
      while !RtcFlag(events, j) && !dataValid
        invariant Valid()
        invariant j <= |events|
        invariant count == j % Uint32Limit
        invariant !lfFlag
        invariant dataValid ==> code == Success && Session(events, 0, minMv) == SessionEnd(j, Some(out))
        invariant !dataValid ==> code == Timeout && out == gps && !parsingSuccess
        invariant !dataValid ==> Session(events, 0, minMv) == Session(events, j, minMv)
        decreases |events| - j
      {
        CountStep(count, j);
        var stop;
        code, out, local, stop := WakeUp(events, j, minMv, code, out, local);
        j := j + 1;
        count := (count + 1) % Uint32Limit;
        if stop {
          break;
        }
      }
    }

    /** NEOM8N_GetPosition over a wake-up trace. Returns the code, the
        position handed back through gps_position (gps when nothing is
        delivered), the fix duration, and the UBX bytes sent to select
        GGA output. */
    method GetPosition(gps: Position, timeout: nat, minMv: nat, events: seq<WakeEvent>)
      returns (code: ReturnCode, out: Position, fix: nat, sent: seq<uint8>)
      requires Valid()
      requires timeout < Uint32Limit
      requires forall k :: 0 <= k < |events| ==> |events[k].received| == BufferSize
      modifies this, buf1, buf2
      ensures Valid()
      ensures sent == SelectionFrames(NmeaGgaMask, |NmeaMessageIds|)
      ensures var r := Session(events, 0, minMv);
        && (code == Success <==> r.found.Some?)
        && out == (if r.found.Some? then r.found.value else gps)
        && fix == ClampedFix(r.wakeUps, RtcFlag(events, r.wakeUps), timeout)
        && dataValid == r.found.Some?
      ensures !lfFlag
    {
      parsingSuccess, dataValid, lfFlag := false, false, false;
      sent := SelectNmeaMessages(NmeaGgaMask);
      fillBuf1 := true;
      var j;
      code, out, fix, j := Acquire(gps, minMv, events);
      if RtcFlag(events, j) || fix > timeout {
        fix := timeout;
      }
    }
  }
}
