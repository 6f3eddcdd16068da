/**
 * The sensor client (cliente_sensor_cpp/main.cpp): the packed timestamp,
 * the reading it builds, the byte images of `struct SensorData`, and the
 * sign-then-send packet assembly.
 */
module Sensor {
  import opened Wrappers
  import opened Bytes
  import opened Decimal
  import opened Calendar

  /** `struct SensorData`; the three floats are carried as their bit patterns. */
  datatype SensorData = SensorData(id: int16, fechaHora: uint64, temperatura: word32, presion: word32, humedad: word32)

  /** What `snprintf(buffer, 15, ...)` leaves in the buffer: at most 14 characters before the terminator. */
  function Snprintf15(text: string): (r: string)
    ensures |r| == if |text| <= 14 then |text| else 14
    ensures r == text[..|r|]
  {
    if |text| <= 14 then text else text[..14]
  }

  /**
   * defFechaHora(): the local time (tm_year + 1900, tm_mon + 1, tm_mday,
   * tm_hour, tm_min, tm_sec), passed in as `clock`, printed
   * "%04d%02d%02d%02d%02d%02d" into a 15-byte buffer and read back with
   * std::stoull. At most 14 digits are read, so the value fits a uint64.
   */
  function DefFechaHora(clock: DateTime): (r: uint64)
    ensures r < Pow10(14)
  {
    var text := CompactText(clock);
    BufferBound(text);
    Value(Snprintf15(text))
  }

  lemma BufferBound(text: string)
    requires AllDigits(text)
    ensures AllDigits(Snprintf15(text)) && Value(Snprintf15(text)) < Pow10(14)
    ensures Pow10(14) == 100000000000000
  {
    var buffer := Snprintf15(text);
    assert AllDigits(buffer);
    ValueBound(buffer);
    Pow10Monotone(|buffer|, 14);
    Pow10Values();
  }

  lemma Pow10Values()
    ensures Pow10(2) == 100 && Pow10(4) == 10000 && Pow10(8) == 100000000
    ensures Pow10(13) == 10000000000000 && Pow10(14) == 100000000000000
  {
    assert Pow10(2) == 100;
    assert Pow10(4) == 100 * Pow10(2);
    assert Pow10(8) == 10000 * Pow10(4);
    assert Pow10(12) == 10000 * Pow10(8);
    assert Pow10(13) == 10 * Pow10(12);
    assert Pow10(14) == 10 * Pow10(13);
  }

  lemma DivAdd(q: nat, r: nat, d: nat)
    requires 0 <= r < d
    ensures (q * d + r) / d == q && (q * d + r) % d == r
  {
    var x := q * d + r;
    if x / d > q {
      MulMonotone(d, q + 1, x / d);
    } else if x / d < q {
      MulMonotone(d, x / d + 1, q);
    }
  }

  lemma MulMonotone(d: nat, a: nat, b: nat)
    requires a <= b
    ensures d * a <= d * b
  {
  }

  /** Splitting a packed timestamp into its six decimal fields by division by powers of 100. */
  function UnpackFechaHora(v: nat): DateTime
  {
    DateTime(v / 10000000000, v / 100000000 % 100, v / 1000000 % 100,
             v / 10000 % 100, v / 100 % 100, v % 100)
  }

  predicate FieldsFit(clock: DateTime)
  {
    clock.year < 10000 && clock.month < 100 && clock.day < 100
    && clock.hour < 100 && clock.minute < 100 && clock.second < 100
  }

  /** The six fields packed two decimal digits apiece below the year. */
  function Packed(clock: DateTime): nat
  {
    clock.year * 10000000000 + clock.month * 100000000 + clock.day * 1000000
    + clock.hour * 10000 + clock.minute * 100 + clock.second
  }

  /** With every field within its printed width, the timestamp is the decimal packing of the fields. */
  lemma DefFechaHoraValue(clock: DateTime)
    requires FieldsFit(clock)
    ensures DefFechaHora(clock) == Packed(clock)
  {
    var y, mo, d := Pad(clock.year, 4), Pad(clock.month, 2), Pad(clock.day, 2);
    var h, mi, s := Pad(clock.hour, 2), Pad(clock.minute, 2), Pad(clock.second, 2);
    Pow10Values();
    PadLength(clock.year, 4); PadLength(clock.month, 2); PadLength(clock.day, 2);
    PadLength(clock.hour, 2); PadLength(clock.minute, 2); PadLength(clock.second, 2);
    ValuePad(clock.year, 4); ValuePad(clock.month, 2); ValuePad(clock.day, 2);
    ValuePad(clock.hour, 2); ValuePad(clock.minute, 2); ValuePad(clock.second, 2);
    ValueAppend(y, mo);
    ValueAppend(y + mo, d);
    ValueAppend(y + mo + d, h);
    ValueAppend(y + mo + d + h, mi);
    ValueAppend(y + mo + d + h + mi, s);
    assert CompactText(clock) == y + mo + d + h + mi + s;
  }

  /** Division and remainder by powers of 100 recover the six fields from the packed timestamp. */
  lemma UnpackDefFechaHora(clock: DateTime)
    requires FieldsFit(clock)
    ensures UnpackFechaHora(DefFechaHora(clock)) == clock
  {
    DefFechaHoraValue(clock);
    UnpackPacked(clock);
  }

  lemma UnpackPacked(clock: DateTime)
    requires FieldsFit(clock)
    ensures UnpackFechaHora(Packed(clock)) == clock
  {
    UnpackFields(clock.year, clock.month, clock.day, clock.hour, clock.minute, clock.second);
  }

  lemma UnpackFields(y: nat, mo: nat, d: nat, h: nat, mi: nat, s: nat)
    requires mo < 100 && d < 100 && h < 100 && mi < 100 && s < 100
    ensures UnpackFechaHora(y * 10000000000 + mo * 100000000 + d * 1000000 + h * 10000 + mi * 100 + s)
         == DateTime(y, mo, d, h, mi, s)
  {
    var v := y * 10000000000 + mo * 100000000 + d * 1000000 + h * 10000 + mi * 100 + s;
    assert v / 10000000000 == y by {
      DivAdd(y, mo * 100000000 + d * 1000000 + h * 10000 + mi * 100 + s, 10000000000);
    }
    assert v / 100000000 % 100 == mo by {
      DivAdd(y * 100 + mo, d * 1000000 + h * 10000 + mi * 100 + s, 100000000);
      DivAdd(y, mo, 100);
    }
    assert v / 1000000 % 100 == d by {
      DivAdd(y * 10000 + mo * 100 + d, h * 10000 + mi * 100 + s, 1000000);
      DivAdd(y * 100 + mo, d, 100);
    }
    assert v / 10000 % 100 == h by {
      DivAdd(y * 1000000 + mo * 10000 + d * 100 + h, mi * 100 + s, 10000);
      DivAdd(y * 10000 + mo * 100 + d, h, 100);
    }
    assert v / 100 % 100 == mi by {
      DivAdd(y * 100000000 + mo * 1000000 + d * 10000 + h * 100 + mi, s, 100);
      DivAdd(y * 1000000 + mo * 10000 + d * 100 + h, mi, 100);
    }
    assert v % 100 == s by {
      DivAdd(y * 100000000 + mo * 1000000 + d * 10000 + h * 100 + mi, s, 100);
    }
  }

  /** For years 1000 to 9999 the timestamp has exactly 14 digits: the buffer's 15 bytes hold it and its terminator. */
  lemma DefFechaHoraDigits(clock: DateTime)
    requires FieldsFit(clock) && clock.year >= 1000
    ensures |Show(DefFechaHora(clock))| == 14
  {
    DefFechaHoraValue(clock);
    Pow10Values();
    ShowLength(DefFechaHora(clock), 13);
  }

  /**
   * generateRandomSensorData(id): the id as given and the timestamp of the
   * clock; the three random floats are passed in.
   */
  method GenerateRandomSensorData(id: int16, clock: DateTime, temp: word32, pres: word32, hum: word32)
    returns (data: SensorData)
    ensures data.id == id
    ensures FieldsFit(clock) ==> UnpackFechaHora(data.fechaHora) == clock
    ensures data.temperatura == temp && data.presion == pres && data.humedad == hum
  {
    data := SensorData(id, 0, 0, 0, 0);
    data := data.(fechaHora := DefFechaHora(clock));
    data := data.(temperatura := temp, presion := pres, humedad := hum);
    if FieldsFit(clock) {
      UnpackDefFechaHora(clock);
    }
  }

  /**
   * The 22-byte image of the struct when packed to byte alignment (what the
   * commented-out `#pragma pack(push, 1)` would give): the relay's `<hQfff`.
   */
  function PackedImage(d: SensorData): (b: seq<byte>)
    ensures |b| == 22
  {
    LeBytes(FromInt16(d.id), 2) + LeBytes(d.fechaHora, 8)
    + LeBytes(d.temperatura, 4) + LeBytes(d.presion, 4) + LeBytes(d.humedad, 4)
  }

  /**
   * The image under the usual 64-bit alignment rules, which apply as the
   * source is written: `id` at offset 0, six padding bytes, `fecha_hora` at
   * 8, the floats at 16, 20 and 24, and four tail padding bytes, 32 bytes in
   * all. The padding bytes hold whatever the stack held.
   */
  function PaddedImage(d: SensorData, padding: seq<byte>): (b: seq<byte>)
    requires |padding| == 10
    ensures |b| == 32
  {
    LeBytes(FromInt16(d.id), 2) + padding[..6] + LeBytes(d.fechaHora, 8)
    + LeBytes(d.temperatura, 4) + LeBytes(d.presion, 4) + LeBytes(d.humedad, 4) + padding[6..]
  }

  /** `memcpy(dst + offset, src, |src|)`. */
  method Memcpy(dst: array<byte>, offset: nat, src: seq<byte>)
    requires offset + |src| <= dst.Length
    modifies dst
    ensures dst[..] == old(dst[..offset]) + src + old(dst[offset + |src|..])
  {
    forall i | 0 <= i < |src| {
      dst[offset + i] := src[i];
    }
    assert dst[..] == old(dst[..offset]) + src + old(dst[offset + |src|..]);
  }

  /** The socket calls sendSensorPacket makes, in order. */
  datatype NetCall = OpenSocket | Connect | Send(bytes: seq<byte>) | CloseSocket

  /** How the operating system answers: socket() succeeds, connect() succeeds, and the count send() returns. */
  datatype Network = Network(socketOk: bool, connectOk: bool, sent: int)

  /**
   * sendSensorPacket(data, ...): copies the struct's bytes (`image`, whatever
   * the compiler's layout makes them) into a buffer, signs them, builds the
   * packet [image][signature] and sends it on a new TCP connection. A failed
   * signature returns false before any socket call; any positive count from
   * send() is taken as success, even a partial send.
   */
  method SendSensorPacket(image: seq<byte>, sign: seq<byte> -> Option<seq<byte>>, net: Network)
    returns (ok: bool, calls: seq<NetCall>)
    ensures sign(image).None? ==> !ok && calls == []
    ensures sign(image).Some? ==>
      var packet := image + sign(image).value;
      && |packet| == |image| + |sign(image).value|
      && calls == (if !net.socketOk then [OpenSocket]
                   else if !net.connectOk then [OpenSocket, Connect, CloseSocket]
                   else [OpenSocket, Connect, Send(packet), CloseSocket])
    ensures ok <==> sign(image).Some? && net.socketOk && net.connectOk && net.sent > 0
  {
    var buffer := new byte[|image|];
    Memcpy(buffer, 0, image);
    assert buffer[..] == image;
    var signature := sign(buffer[..]);
    if signature.None? {
      return false, [];
    }
    var sig := signature.value;
    var packet := new byte[|image| + |sig|];
    Memcpy(packet, 0, buffer[..]);
    Memcpy(packet, |image|, sig);
    assert packet[..] == image + sig;
    calls := [OpenSocket];
    if !net.socketOk {
      return false, calls;
    }
    calls := calls + [Connect];
    if !net.connectOk {
      return false, calls + [CloseSocket];
    }
    calls := calls + [Send(packet[..]), CloseSocket];
    ok := net.sent > 0;
  }
}
