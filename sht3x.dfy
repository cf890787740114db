/** The SHT3x temperature and humidity sensor driver: the conversion of the
    raw 16-bit readings into degrees and percent, and the one-shot result
    cache its getters read and reset. The I2C transfers are inputs: whether
    the command write succeeded and, if the read succeeded, the six bytes
    read. */
module Sht3x {
  import opened Common

  /** SHT3X_FULL_SCALE: readings are 16-bit. */
  const FullScale: nat := 65535
  /** The "no data" values the cache holds until a measurement succeeds. */
  const TemperatureErrorValue: int8 := 0x7F
  const HumidityErrorValue: uint8 := 0xFF

  /** The conversion of an integer to `signed char`: the value modulo 256,
      taken in -128 .. 127. The `unsigned int` wrap-around of the
      subtraction before it is a multiple of 256 and leaves it unchanged. */
  function ToSignedChar(x: int): (r: int8)
    ensures (r - x) % 256 == 0
    ensures -128 <= x < 128 ==> r == x
  {
    (x + 128) % 256 - 128
  }

  /** A big-endian 16-bit reading. */
  function Raw(hi: uint8, lo: uint8): (r: nat)
    ensures r < 65536
  {
    hi * 256 + lo
  }

  /** Temperature in degrees from a raw reading, stored in a `signed
      char`. */
  function TemperatureDegrees(raw: nat): int8
  {
    ToSignedChar(175 * raw / FullScale - 45)
  }

  /** Relative humidity in percent from a raw reading. */
  function HumidityPercent(raw: nat): (h: uint8)
    requires raw <= FullScale
  {
    DivMonotone(100 * raw, 100 * FullScale, FullScale);
    100 * raw / FullScale
  }

  /** Up to the raw reading of 127 degrees the temperature is the
      mathematical conversion, from -45 degrees upwards, and it grows with
      the reading. */
  lemma TemperatureRange(a: nat, b: nat)
    requires a <= b <= 64786
    ensures -45 <= TemperatureDegrees(a) <= TemperatureDegrees(b) <= 127
    ensures TemperatureDegrees(a) == 175 * a / FullScale - 45
    ensures TemperatureDegrees(0) == -45 && TemperatureDegrees(64786) == 127
  {
    DivMonotone(175 * a, 175 * b, FullScale);
    DivMonotone(175 * b, 175 * 64786, FullScale);
  }

  /** Above it the stored value wraps: the next reading, 128 degrees, is
      stored as -128, and the largest one, 175 degrees less 45, as -126. */
  lemma TemperatureWraps()
    ensures 175 * 64787 / FullScale - 45 == 128 && TemperatureDegrees(64787) == -128
    ensures 175 * 65535 / FullScale - 45 == 130
    ensures TemperatureDegrees(65535) == -126
  {
  }

  /** Humidity lies in 0 .. 100 percent, 0 and 100 at the ends of the
      scale, and grows with the reading. */
  lemma HumidityRange(a: nat, b: nat)
    requires a <= b <= FullScale
    ensures 0 <= HumidityPercent(a) <= HumidityPercent(b) <= 100
    ensures HumidityPercent(0) == 0 && HumidityPercent(FullScale) == 100
  {
    DivMonotone(100 * a, 100 * b, FullScale);
  }

  /** sht3x_ctx: the last results not yet read. */
  class Sht3xContext {
    var temperature: int8
    var humidity: uint8

    /** SHT3X_Init: no data yet. */
    constructor ()
      ensures temperature == TemperatureErrorValue && humidity == HumidityErrorValue
    {
      temperature := TemperatureErrorValue;
      humidity := HumidityErrorValue;
    }

    /** SHT3X_PerformMeasurements, given the outcome of the I2C command
        write and of the 6-byte read. A failed transfer returns before the
        cache is touched; otherwise bytes 0-1 give the temperature and
        bytes 3-4 the humidity, the CRC bytes 2 and 5 being ignored. */
    method PerformMeasurements(writeOk: bool, measure: Option<seq<uint8>>)
      requires measure.Some? ==> |measure.value| == 6
      modifies this
      ensures writeOk && measure.Some? ==>
        temperature == TemperatureDegrees(Raw(measure.value[0], measure.value[1]))
        && humidity == HumidityPercent(Raw(measure.value[3], measure.value[4]))
      ensures !(writeOk && measure.Some?) ==>
        temperature == old(temperature) && humidity == old(humidity)
    {
      if !writeOk {
        return;
      }
      if measure.None? {
        return;
      }
      var buf := measure.value;
      var temperature16 := Raw(buf[0], buf[1]);
      temperature := ToSignedChar(175 * temperature16 / FullScale - 45);
      var humidity16 := Raw(buf[3], buf[4]);
      humidity := HumidityPercent(humidity16);
    }

    /** SHT3X_GetTemperature: the cached result, which is then reset, so
        that a second read without a new measurement gives the error
        value. */
    method GetTemperature() returns (t: int8)
      modifies this
      ensures t == old(temperature)
      ensures temperature == TemperatureErrorValue && humidity == old(humidity)
    {
      t := temperature;
      temperature := TemperatureErrorValue;
    }

    /** SHT3X_GetHumidity: the same for the humidity. */
    method GetHumidity() returns (h: uint8)
      modifies this
      ensures h == old(humidity)
      ensures humidity == HumidityErrorValue && temperature == old(temperature)
    {
      h := humidity;
      humidity := HumidityErrorValue;
    }
  }
}
