/** The UBX side of the NEO-M8N GPS driver (src/components/neom8n.c): the
    8-bit Fletcher checksum that closes every UBX frame
    (NEOM8N_ComputeUbxChecksum) and the UBX-CFG-MSG frames that enable or
    disable each standard NMEA message (NEOM8N_SelectNmeaMessages). */
module Ubx {
  import opened Common

  const Sync1: uint8 := 0xB5
  const Sync2: uint8 := 0x62
  /** Index of the first byte covered by the checksum (NEOM8N_CHECKSUM_OFFSET). */
  const ChecksumOffset: nat := 2
  /** Class, id and the two length bytes (NEOM8N_CHECKSUM_OVERHEAD_LENGTH). */
  const ChecksumOverhead: nat := 4
  /** Payload length of a UBX-CFG-MSG frame (NEOM8N_CFG_MSG_PAYLOAD_LENGTH). */
  const CfgMsgPayloadLength: nat := 8
  /** Header and checksum bytes around a payload (NEOM8N_MSG_OVERHEAD_LENGTH). */
  const FrameOverhead: nat := 8
  const CfgMsgFrameLength: nat := 16

  /** The fixed head of a UBX-CFG-MSG frame: sync characters, class 0x06,
      id 0x01, payload length 8 (little-endian), NMEA message class 0xF0. */
  const CfgMsgHead: seq<uint8> := [Sync1, Sync2, 0x06, 0x01, 0x08, 0x00, 0xF0]

  /** NMEA message ids in the order of the selection mask's bits:
      DTM GBQ GBS GGA GLL GLQ GNQ GNS GPQ GRS GSA GST GSV RMC TXT VLW VTG ZDA. */
  const NmeaMessageIds: seq<uint8> :=
    [0x0A, 0x44, 0x09, 0x00, 0x01, 0x43, 0x42, 0x0D, 0x40, 0x06, 0x02, 0x07, 0x03, 0x04, 0x41, 0x0F, 0x05, 0x08]

  /** The mask the driver passes to select GGA alone (NMEA_GGA_MASK). */
  const NmeaGgaMask: nat := 0x08
  /** Position of GGA in NmeaMessageIds. */
  const GgaIndex: nat := 3

  // ---------------------------------------------------------------------
  // The checksum.

  /** The pair (CK_A, CK_B) over bs: for each byte, CK_A += byte and then
      CK_B += CK_A, both in unsigned 8-bit arithmetic. */
  function Fletcher(bs: seq<uint8>): (uint8, uint8)
  {
    if bs == [] then (0, 0)
    else
      var (a, b) := Fletcher(bs[..|bs| - 1]);
      var a' := (a + bs[|bs| - 1]) % 256;
      (a', (b + a') % 256)
  }

  /** Sum of the bytes. */
  function Sum(bs: seq<uint8>): nat
  {
    if bs == [] then 0 else bs[0] + Sum(bs[1..])
  }

  /** Sum of the bytes, the i-th one counted |bs| - i times. */
  function Weighted(bs: seq<uint8>): nat
  {
    if bs == [] then 0 else |bs| * bs[0] + Weighted(bs[1..])
  }

  lemma {:induction false} SumSnoc(bs: seq<uint8>, x: uint8)
    ensures Sum(bs + [x]) == Sum(bs) + x
  {
    if bs != [] {
      assert (bs + [x])[1..] == bs[1..] + [x];
      SumSnoc(bs[1..], x);
    }
  }

  lemma {:induction false} WeightedSnoc(bs: seq<uint8>, x: uint8)
    ensures Weighted(bs + [x]) == Weighted(bs) + Sum(bs) + x
  {
    if bs != [] {
      assert (bs + [x])[1..] == bs[1..] + [x];
      WeightedSnoc(bs[1..], x);
      assert (|bs| + 1) * bs[0] == |bs| * bs[0] + bs[0];
    }
  }

  lemma ModAdd(a: int, b: int)
    requires a >= 0 && b >= 0
    ensures (a % 256 + b) % 256 == (a + b) % 256
  {
    var q := a / 256;
    assert a == 256 * q + a % 256;
    assert a + b == 256 * q + (a % 256 + b);
  }

  /** The checksum in closed form: CK_A is the byte sum and CK_B the sum in
      which the i-th of n bytes counts n - i times, both modulo 256, as
      section "UBX Checksum" of the u-blox 8 receiver description gives it. */
  lemma {:induction false} FletcherClosedForm(bs: seq<uint8>)
    ensures Fletcher(bs).0 == Sum(bs) % 256
    ensures Fletcher(bs).1 == Weighted(bs) % 256
    decreases |bs|
  {
    if bs != [] {
      var p, x := bs[..|bs| - 1], bs[|bs| - 1];
      assert bs == p + [x];
      FletcherClosedForm(p);
      SumSnoc(p, x);
      WeightedSnoc(p, x);
      FletcherStepClosed(Fletcher(p).0, Fletcher(p).1, Sum(p), Weighted(p), x);
    }
  }

  /** One byte of the checksum loop keeps the closed form. */
  lemma FletcherStepClosed(a: uint8, b: uint8, sum: nat, weighted: nat, x: uint8)
    requires a == sum % 256 && b == weighted % 256
    ensures (a + x) % 256 == (sum + x) % 256
    ensures (b + (a + x) % 256) % 256 == (weighted + sum + x) % 256
  {
    ModAdd(sum, x);
    ModAdd(weighted, (sum + x) % 256);
    ModAdd(sum + x, weighted);
    assert (weighted + (sum + x) % 256) % 256 == ((sum + x) % 256 + weighted) % 256;
  }

  /** One more byte of a slice, as the checksum loop adds it. */
  lemma FletcherSnoc(s: seq<uint8>, lo: nat, i: nat)
    requires lo <= i < |s|
    ensures Fletcher(s[lo .. i + 1]).0 == (Fletcher(s[lo .. i]).0 + s[i]) % 256
    ensures Fletcher(s[lo .. i + 1]).1 == (Fletcher(s[lo .. i]).1 + Fletcher(s[lo .. i + 1]).0) % 256
  {
    assert s[lo .. i + 1][..i - lo] == s[lo .. i];
  }

  /** NEOM8N_ComputeUbxChecksum: sums the class, id, length and payload
      bytes cmd[2 .. 6 + payloadLength) and writes CK_A and CK_B just after
      them; no other byte changes. */
  method ComputeUbxChecksum(cmd: array<uint8>, payloadLength: uint8)
    requires ChecksumOffset + ChecksumOverhead + payloadLength + 2 <= cmd.Length
    modifies cmd
    ensures var end := ChecksumOffset + ChecksumOverhead + payloadLength;
            var ck := Fletcher(old(cmd[ChecksumOffset .. end]));
            cmd[..] == old(cmd[..])[end := ck.0][end + 1 := ck.1]
  {
    ghost var s := cmd[..];
    var end := ChecksumOffset + ChecksumOverhead + payloadLength;
    var ckA: uint8 := 0;
    var ckB: uint8 := 0;
    var idx := ChecksumOffset;
    while idx < end
      invariant ChecksumOffset <= idx <= end
      invariant cmd[..] == s
      invariant ckA == Fletcher(s[ChecksumOffset .. idx]).0
      invariant ckB == Fletcher(s[ChecksumOffset .. idx]).1
    {
      FletcherSnoc(s, ChecksumOffset, idx);
      ckA := (ckA + cmd[idx]) % 256;
      ckB := (ckB + ckA) % 256;
      idx := idx + 1;
    }
    cmd[idx] := ckA;
    cmd[idx + 1] := ckB;
  }

  // ---------------------------------------------------------------------
  // UBX frames and the CFG-MSG frames of the NMEA selection.

  /** What a receiver checks of a UBX frame: sync characters, a
      little-endian payload length matching the frame's size, and a
      checksum over class, id, length and payload equal to the last two
      bytes. */
  predicate UbxFrameValid(f: seq<uint8>)
  {
    && |f| >= FrameOverhead
    && f[0] == Sync1 && f[1] == Sync2
    && f[4] as int + 256 * (f[5] as int) == |f| - FrameOverhead
    && Fletcher(f[ChecksumOffset .. |f| - 2]) == (f[|f| - 2], f[|f| - 1])
  }

  /** Bit i of a 32-bit mask: `mask & (1 << i)` non-zero. */
  predicate MaskBit(mask: nat, i: nat)
    requires mask < Uint32Limit && i < 32
  {
    (mask as bv32) & ((1 as bv32) << i) != 0
  }

  /** The UBX-CFG-MSG frame setting the output rate of NMEA message `id`
      to 1 when enabled, 0 otherwise, on all six ports. */
  function CfgMsgFrame(id: uint8, enable: bool): seq<uint8>
  {
    var rate: uint8 := if enable then 1 else 0;
    var body := CfgMsgHead + [id] + seq(6, _ => rate);
    var ck := Fletcher(body[ChecksumOffset ..]);
    body + [ck.0, ck.1]
  }

  lemma CfgMsgFrameSize(id: uint8, enable: bool)
    ensures |CfgMsgFrame(id, enable)| == CfgMsgFrameLength
  {
  }

  /** Every CFG-MSG frame is a well-formed UBX frame whose payload names
      the NMEA class, the message id, and the same rate six times. */
  lemma CfgMsgFrameValid(id: uint8, enable: bool)
    ensures var f := CfgMsgFrame(id, enable);
            && |f| == CfgMsgFrameLength
            && UbxFrameValid(f)
            && f[..7] == CfgMsgHead
            && f[7] == id
            && (forall k :: 8 <= k < 14 ==> f[k] == if enable then 1 else 0)
  {
    var f := CfgMsgFrame(id, enable);
    var rate: uint8 := if enable then 1 else 0;
    var body := CfgMsgHead + [id] + seq(6, _ => rate);
    assert f[ChecksumOffset .. |f| - 2] == body[ChecksumOffset ..];
  }

  /** A 16-byte buffer holding the head, the id, six rate bytes and their
      checksum is the CFG-MSG frame. */
  lemma FrameOfParts(m: seq<uint8>, id: uint8, enable: bool)
    requires |m| == CfgMsgFrameLength && m[..7] == CfgMsgHead && m[7] == id
    requires forall k :: 8 <= k < 14 ==> m[k] == if enable then 1 else 0
    requires Fletcher(m[ChecksumOffset .. 14]) == (m[14], m[15])
    ensures m == CfgMsgFrame(id, enable)
  {
    var rate: uint8 := if enable then 1 else 0;
    var body := CfgMsgHead + [id] + seq(6, _ => rate);
    assert m[..14] == body;
    assert body[ChecksumOffset ..] == m[ChecksumOffset .. 14];
    assert m == m[..14] + [m[14], m[15]];
  }

  /** The bytes the NMEA selection sends for the first n message ids, in
      table order. */
  function SelectionFrames(mask: nat, n: nat): seq<uint8>
    requires mask < Uint32Limit && n <= |NmeaMessageIds|
  {
    if n == 0 then []
    else SelectionFrames(mask, n - 1) + CfgMsgFrame(NmeaMessageIds[n - 1], MaskBit(mask, n - 1))
  }

  /** The selection is n frames of 16 bytes, the i-th one enabling or
      disabling the i-th message id according to bit i of the mask. */
  lemma {:induction false} SelectionFrameAt(mask: nat, n: nat, i: nat)
    requires mask < Uint32Limit && i < n <= |NmeaMessageIds|
    ensures |SelectionFrames(mask, n)| == CfgMsgFrameLength * n
    ensures SelectionFrames(mask, n)[CfgMsgFrameLength * i .. CfgMsgFrameLength * (i + 1)]
            == CfgMsgFrame(NmeaMessageIds[i], MaskBit(mask, i))
  {
    var prev := SelectionFrames(mask, n - 1);
    var f := CfgMsgFrame(NmeaMessageIds[n - 1], MaskBit(mask, n - 1));
    assert SelectionFrames(mask, n) == prev + f;
    SelectionLength(mask, n);
    SelectionLength(mask, n - 1);
    CfgMsgFrameSize(NmeaMessageIds[n - 1], MaskBit(mask, n - 1));
    if i < n - 1 {
      SelectionFrameAt(mask, n - 1, i);
    }
    FrameOfAppend(prev, f, n - 1, i);
  }

  /** Frame i of a run of m frames followed by one more. */
  lemma FrameOfAppend(a: seq<uint8>, b: seq<uint8>, m: nat, i: nat)
    requires |a| == CfgMsgFrameLength * m && |b| == CfgMsgFrameLength && i <= m
    ensures (a + b)[CfgMsgFrameLength * i .. CfgMsgFrameLength * (i + 1)]
            == if i < m then a[CfgMsgFrameLength * i .. CfgMsgFrameLength * (i + 1)] else b
  {
  }

  lemma {:induction false} SelectionLength(mask: nat, n: nat)
    requires mask < Uint32Limit && n <= |NmeaMessageIds|
    ensures |SelectionFrames(mask, n)| == CfgMsgFrameLength * n
  {
    if n > 0 {
      SelectionLength(mask, n - 1);
      CfgMsgFrameSize(NmeaMessageIds[n - 1], MaskBit(mask, n - 1));
    }
  }

  /** The GGA mask enables exactly one message, the one with id 0x00 (GGA),
      and disables the other seventeen. */
  lemma GgaMaskSelectsGgaOnly()
    ensures NmeaMessageIds[GgaIndex] == 0x00
    ensures forall i :: 0 <= i < |NmeaMessageIds| ==> (MaskBit(NmeaGgaMask, i) <==> i == GgaIndex)
  {
    forall i | 0 <= i < |NmeaMessageIds|
      ensures MaskBit(NmeaGgaMask, i) <==> i == GgaIndex
    {
      var b: bv32 := 8;
      if i == 0 { assert b & (1 << 0) == 0; }
      else if i == 1 { assert b & (1 << 1) == 0; }
      else if i == 2 { assert b & (1 << 2) == 0; }
      else if i == 3 { assert b & (1 << 3) != 0; }
      else { assert b & ((1 as bv32) << i) == 0; }
    }
  }

  /** One pass of the selection loop: writes the id and six rate bytes
      into the frame buffer, whose head is already in place, and appends
      the checksum. */
  method CompleteCfgMsgFrame(msg: array<uint8>, id: uint8, enable: bool)
    requires msg.Length == CfgMsgFrameLength && msg[..7] == CfgMsgHead
    modifies msg
    ensures msg[..] == CfgMsgFrame(id, enable)
  {
    msg[7] := id;
    var rate: uint8 := 0;
    if enable {
      rate := 1;
    }
    var k := 8;
    while k < 14
      invariant 8 <= k <= 14
      invariant msg[..7] == CfgMsgHead && msg[7] == id
      invariant forall m :: 8 <= m < k ==> msg[m] == rate
    {
      msg[k] := rate;
      k := k + 1;
    }
    ghost var parts := msg[..];
    ComputeUbxChecksum(msg, 8);
    assert msg[..] == parts[14 := msg[14]][15 := msg[15]];
    assert msg[ChecksumOffset .. 14] == parts[ChecksumOffset .. 14];
    FrameOfParts(msg[..], id, enable);
  }

  /** NEOM8N_SelectNmeaMessages: for each of the 18 message ids, completes
      a CFG-MSG frame in a local array (id, rate from the mask bit, then
      the checksum) and sends its 16 bytes; the returned sequence is what
      the UART transmits. */
  method SelectNmeaMessages(mask: nat) returns (tx: seq<uint8>)
    requires mask < Uint32Limit
    ensures tx == SelectionFrames(mask, |NmeaMessageIds|)
  {
    var msg := new uint8[CfgMsgFrameLength];
    msg[0], msg[1], msg[2], msg[3], msg[4], msg[5], msg[6] := 0xB5, 0x62, 0x06, 0x01, 0x08, 0x00, 0xF0;
    tx := [];
    var i := 0;
    while i < |NmeaMessageIds|
      invariant 0 <= i <= |NmeaMessageIds|
      invariant msg[..7] == CfgMsgHead
      invariant tx == SelectionFrames(mask, i)
    {
      CompleteCfgMsgFrame(msg, NmeaMessageIds[i], MaskBit(mask, i));
      CfgMsgFrameValid(NmeaMessageIds[i], MaskBit(mask, i));
      tx := tx + msg[..];
      i := i + 1;
    }
  }
}
