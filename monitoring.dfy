/** MONITORING_BuildSigfoxData: the 9-byte monitoring frame sent over
    Sigfox. Temperatures are sent in sign-magnitude form, the solar cell
    voltage as a big-endian 16-bit value, and the supercap and MCU voltages
    as two 12-bit values sharing byte 6. */
module Monitoring {
  import opened Common

  /** MONITORING_Data: the raw measurements. The voltages are in mV, held in
      unsigned integers of which the frame keeps the low 16 or 12 bits. */
  datatype MonitoringData = MonitoringData(
    mcuTemperature: int8,
    pcbTemperature: int8,
    pcbHumidity: uint8,
    solarCellVoltage: nat,
    supercapVoltage: nat,
    mcuVoltage: nat,
    statusByte: uint8)

  const FrameSize: nat := 9

  /** Sign-magnitude byte of a temperature: bit 7 set for a negative one,
      the low 7 bits of its absolute value below. */
  function SignMagnitude(t: int8): (b: uint8)
    ensures b >= 0x80 <==> t < 0
  {
    if t < 0 then 0x80 + (0 - t as int) % 128 else t
  }

  /** The frame, byte by byte. */
  function SigfoxData(d: MonitoringData): (bs: seq<uint8>)
    ensures |bs| == FrameSize
  {
    [SignMagnitude(d.mcuTemperature),
     SignMagnitude(d.pcbTemperature),
     d.pcbHumidity,
     d.solarCellVoltage / 256 % 256,
     d.solarCellVoltage % 256,
     d.supercapVoltage / 16 % 256,
     d.supercapVoltage % 16 * 16 + d.mcuVoltage / 256 % 16,
     d.mcuVoltage % 256,
     d.statusByte]
  }

  /** What a receiver reads from a frame. */
  datatype Reading = Reading(
    mcuTemperature: int,
    pcbTemperature: int,
    pcbHumidity: nat,
    solarCellVoltage: nat,
    supercapVoltage: nat,
    mcuVoltage: nat,
    statusByte: nat)

  function Temperature(b: uint8): int
  {
    if b >= 0x80 then -(b - 0x80) else b
  }

  function Unpack(bs: seq<uint8>): Reading
    requires |bs| == FrameSize
  {
    Reading(
      Temperature(bs[0]),
      Temperature(bs[1]),
      bs[2],
      256 * (bs[3] as int) + bs[4],
      16 * (bs[5] as int) + bs[6] / 16,
      256 * (bs[6] % 16) as int + bs[7],
      bs[8])
  }

  /** Reading a frame gives back every measurement, the voltages truncated
      to the bits the frame keeps and -128 degrees read as 0. */
  lemma UnpackSigfoxData(d: MonitoringData)
    ensures Unpack(SigfoxData(d)) == Reading(
      if d.mcuTemperature == -128 then 0 else d.mcuTemperature,
      if d.pcbTemperature == -128 then 0 else d.pcbTemperature,
      d.pcbHumidity,
      d.solarCellVoltage % 65536,
      d.supercapVoltage % 4096,
      d.mcuVoltage % 4096,
      d.statusByte)
  {
    LowBits(d.solarCellVoltage, 256, 256);
    LowBits(d.supercapVoltage, 16, 256);
    LowBits(d.mcuVoltage, 256, 16);
  }

  /** The low digits of v in mixed radix: the ones below p, then the next
      ones below p * q. */
  lemma LowBits(v: nat, p: nat, q: nat)
    requires p > 0 && q > 0
    ensures p * (v / p % q) + v % p == v % (p * q)
  {
    var a, r := v / p, v % p;
    var b, c := a / q, a % q;
    assert v == p * a + r;
    assert a == q * b + c;
    assert v == (p * q) * b + (p * c + r) by {
      assert p * a == p * (q * b) + p * c;
      assert p * (q * b) == (p * q) * b;
    }
    MulLe(p, c, q - 1);
    assert p * (q - 1) == p * q - p;
    DivUnique(v, p * q, b, p * c + r);
  }

  /** Measurements within the frame's ranges are read back exactly. */
  lemma SigfoxDataRoundTrip(d: MonitoringData)
    requires d.mcuTemperature > -128 && d.pcbTemperature > -128
    requires d.solarCellVoltage < 65536 && d.supercapVoltage < 4096 && d.mcuVoltage < 4096
    ensures Unpack(SigfoxData(d)) == Reading(d.mcuTemperature, d.pcbTemperature, d.pcbHumidity,
      d.solarCellVoltage, d.supercapVoltage, d.mcuVoltage, d.statusByte)
  {
    UnpackSigfoxData(d);
  }

  /** A temperature byte as the source builds it: cleared, then or-ed with
      the sign bit and with the low 7 bits of the absolute value, which is
      computed into an `unsigned char`. Each or sets bits that are still
      clear, so it is written as an addition, and the mask 0x7F as the
      remainder by 128. */
  method TemperatureByte(t: int8) returns (b: uint8)
    ensures b == SignMagnitude(t)
  {
    b := 0x00;
    if t < 0 {
      b := b + 0x80;
      var abs: uint8 := (0 - t as int) % 256;
      assert abs == 0 - t as int;
      b := b + abs % 128;
    } else {
      b := b + t % 128;
    }
  }

  /** MONITORING_BuildSigfoxData: writes the frame into bytes 0 to 8 of the
      caller's array and nothing else. The masks and shifts of the voltages
      are written as division and remainder by powers of two. */
  method BuildSigfoxData(d: MonitoringData, data: array<uint8>)
    requires data.Length >= FrameSize
    modifies data
    ensures data[..FrameSize] == SigfoxData(d)
    ensures data[FrameSize..] == old(data[FrameSize..])
  {
    data[0] := TemperatureByte(d.mcuTemperature);
    data[1] := TemperatureByte(d.pcbTemperature);
    data[2] := d.pcbHumidity;
    data[3] := d.solarCellVoltage / 256 % 256;
    data[4] := d.solarCellVoltage % 256;
    data[5] := d.supercapVoltage / 16 % 256;
    data[6] := d.supercapVoltage % 16 * 16 + d.mcuVoltage / 256 % 16;
    data[7] := d.mcuVoltage % 256;
    data[8] := d.statusByte;
  }
}
