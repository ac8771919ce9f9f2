/**
 * The per-variant conversion of the five frame bytes into readings, as readTemperature
 * (Dhtxx.java:61-86) and readHumidity (Dhtxx.java:96-117) compute it. Readings are whole
 * tenths of a degree Celsius or of a percent; `None` stands for the source's NaN.
 */
module Readings {
  import opened JavaBytes
  import opened Frames

  datatype Option<T> = None | Some(value: T)

  const Dht11Type: int := 11
  const Dht21Type: int := 21
  const Dht22Type: int := 22

  /** The sensor types the decode switches have a case for. */
  predicate KnownType(sensorType: int)
  {
    sensorType == Dht11Type || sensorType == Dht21Type || sensorType == Dht22Type
  }

  /**
   * Temperature in tenths of a degree as readTemperature computes it from the signed bytes:
   * DHT11 reads byte 2 as whole degrees; DHT21/22 read the low 7 bits of byte 2 as the high
   * byte of a magnitude, add the sign-extended byte 3, and negate when bit 0x80 of byte 2 is set
   * (that bit is set exactly when the signed byte is negative).
   */
  function Temperature(sensorType: int, d: seq<JByte>): (t: Option<int>)
    requires |d| == 5
    ensures t.Some? <==> KnownType(sensorType)
  {
    if sensorType == Dht11Type then Some(10 * (d[2] as int))
    else if sensorType == Dht21Type || sensorType == Dht22Type then
      var magnitude := (Unsigned(d[2]) % 0x80) * 256 + d[3];
      Some(if d[2] < 0 then -magnitude else magnitude)
    else None
  }

  /**
   * Humidity in tenths of a percent as readHumidity computes it from the signed bytes:
   * DHT11 reads byte 0 as whole percent; DHT21/22 take byte 0 times 256 plus byte 1, both
   * sign-extended.
   */
  function Humidity(sensorType: int, d: seq<JByte>): (h: Option<int>)
    requires |d| == 5
    ensures h.Some? <==> KnownType(sensorType)
  {
    if sensorType == Dht11Type then Some(10 * (d[0] as int))
    else if sensorType == Dht21Type || sensorType == Dht22Type then Some(d[0] as int * 256 + d[1])
    else None
  }

  /** DHT21/22 temperature read from the unsigned bytes: a 15-bit magnitude with a sign bit. */
  function TemperatureIntended(sensorType: int, d: seq<JByte>): (t: Option<int>)
    requires |d| == 5
    ensures t.Some? <==> KnownType(sensorType)
  {
    if sensorType == Dht11Type then Some(10 * (d[2] as int))
    else if sensorType == Dht21Type || sensorType == Dht22Type then
      var magnitude := (Unsigned(d[2]) % 0x80) * 256 + Unsigned(d[3]);
      Some(if d[2] < 0 then -magnitude else magnitude)
    else None
  }

  /** DHT21/22 humidity read from the unsigned bytes: a 16-bit number of tenths. */
  function HumidityIntended(sensorType: int, d: seq<JByte>): (h: Option<int>)
    requires |d| == 5
    ensures h.Some? <==> KnownType(sensorType)
  {
    if sensorType == Dht11Type then Some(10 * (d[0] as int))
    else if sensorType == Dht21Type || sensorType == Dht22Type then Some(Unsigned(d[0]) * 256 + Unsigned(d[1]))
    else None
  }

  /** The five bytes a DHT21/22 sends for humidity `h` and temperature `t` (tenths), with checksum byte `c`. */
  function EncodeFrame(h: nat, t: int, c: nat): (u: seq<nat>)
    requires h < 0x10000 && -0x8000 < t < 0x8000 && c < 256
    ensures |u| == 5 && forall k :: 0 <= k < 5 ==> u[k] < 256
  {
    var magnitude := if t < 0 then -t else t;
    [h / 256, h % 256, magnitude / 256 + (if t < 0 then 0x80 else 0), magnitude % 256, c]
  }

  /** Setting bit 0x80 of byte 2 negates a DHT21/22 temperature and changes nothing else. */
  lemma TemperatureSignBit(sensorType: int, d: seq<JByte>)
    requires |d| == 5 && (sensorType == Dht21Type || sensorType == Dht22Type) && d[2] >= 0
    ensures Temperature(sensorType, d[2 := d[2] - 0x80]).value == -Temperature(sensorType, d).value
  {
  }

  /** The code's DHT21/22 temperature is the sign-magnitude reading, except that a byte 3 of 0x80 or more lowers the magnitude by 256. */
  lemma TemperatureAsWrittenDeviation(sensorType: int, d: seq<JByte>)
    requires |d| == 5 && (sensorType == Dht21Type || sensorType == Dht22Type)
    ensures var shortfall := if d[3] < 0 then 256 else 0;
      Temperature(sensorType, d).value
        == TemperatureIntended(sensorType, d).value + (if d[2] < 0 then shortfall else -shortfall)
  {
  }

  /** The code's DHT21/22 humidity is the 16-bit reading lowered by 65536 when byte 0 is 0x80 or more and by 256 when byte 1 is. */
  lemma HumidityAsWrittenDeviation(sensorType: int, d: seq<JByte>)
    requires |d| == 5 && (sensorType == Dht21Type || sensorType == Dht22Type)
    ensures Humidity(sensorType, d).value
      == HumidityIntended(sensorType, d).value - (if d[0] < 0 then 0x10000 else 0) - (if d[1] < 0 then 256 else 0)
  {
  }

  /** Temperature bytes 01 90 (40.0 degrees) read as 14.4 degrees by the code. */
  lemma TemperatureAsWrittenExample()
    ensures Temperature(Dht22Type, SignedFrame([0, 0, 0x01, 0x90, 0x91])) == Some(144)
    ensures TemperatureIntended(Dht22Type, SignedFrame([0, 0, 0x01, 0x90, 0x91])) == Some(400)
  {
    assert SignedFrame([0, 0, 0x01, 0x90, 0x91]) == [0, 0, 1, -112, -111];
  }

  /** Humidity bytes 02 8C (65.2 percent) read as 39.6 percent by the code. */
  lemma HumidityAsWrittenExample()
    ensures Humidity(Dht22Type, SignedFrame([0x02, 0x8C, 0x01, 0x5D, 0xEC])) == Some(396)
    ensures HumidityIntended(Dht22Type, SignedFrame([0x02, 0x8C, 0x01, 0x5D, 0xEC])) == Some(652)
  {
    assert SignedFrame([0x02, 0x8C, 0x01, 0x5D, 0xEC]) == [2, -116, 1, 93, -20];
  }

  /** Decoding the sign-magnitude bytes of any DHT21/22 temperature from the unsigned bytes gives it back. */
  lemma TemperatureIntendedRoundTrip(sensorType: int, h: nat, t: int, c: nat)
    requires sensorType == Dht21Type || sensorType == Dht22Type
    requires h < 0x10000 && -0x8000 < t < 0x8000 && c < 256
    ensures TemperatureIntended(sensorType, SignedFrame(EncodeFrame(h, t, c))) == Some(t)
  {
    var u := EncodeFrame(h, t, c);
    UnsignedOfToByte(u[2]);
    UnsignedOfToByte(u[3]);
    ToByteSign(u[2]);
  }

  /** Decoding the bytes of any 16-bit DHT21/22 humidity from the unsigned bytes gives it back. */
  lemma HumidityIntendedRoundTrip(sensorType: int, h: nat, t: int, c: nat)
    requires sensorType == Dht21Type || sensorType == Dht22Type
    requires h < 0x10000 && -0x8000 < t < 0x8000 && c < 256
    ensures HumidityIntended(sensorType, SignedFrame(EncodeFrame(h, t, c))) == Some(h)
  {
    var u := EncodeFrame(h, t, c);
    UnsignedOfToByte(u[0]);
    UnsignedOfToByte(u[1]);
  }

  /** The code reads the encoded readings back correctly when both low bytes and the humidity high byte are below 0x80. */
  lemma AsWrittenAgreesOnSmallBytes(sensorType: int, h: nat, t: int, c: nat)
    requires sensorType == Dht21Type || sensorType == Dht22Type
    requires h < 0x8000 && h % 256 < 0x80 && -0x8000 < t < 0x8000 && c < 256
    requires (if t < 0 then -t else t) % 256 < 0x80
    ensures Humidity(sensorType, SignedFrame(EncodeFrame(h, t, c))) == Some(h)
    ensures Temperature(sensorType, SignedFrame(EncodeFrame(h, t, c))) == Some(t)
  {
    var u := EncodeFrame(h, t, c);
    var d := SignedFrame(u);
    ToByteSign(u[0]);
    ToByteSign(u[1]);
    ToByteSign(u[3]);
    assert d[0] >= 0 && d[1] >= 0 && d[3] >= 0;
    TemperatureIntendedRoundTrip(sensorType, h, t, c);
    HumidityIntendedRoundTrip(sensorType, h, t, c);
    TemperatureAsWrittenDeviation(sensorType, d);
    HumidityAsWrittenDeviation(sensorType, d);
  }
}
