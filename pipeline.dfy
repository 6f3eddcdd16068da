/**
 * The three programs end to end: the sensor's packet as the relay reads it,
 * and the relay's envelope line as the final server stores it. Also the
 * effect of the sensor struct's default layout, under which the relay
 * misreads every packet.
 */
module Pipeline {
  import opened Wrappers
  import opened Bytes
  import opened Decimal
  import opened Calendar
  import opened Json
  import Sensor
  import Relay
  import Arith
  import Db
  import FinalServer

  /** The sensor's clock, packed by defFechaHora and rendered by the relay, is "YYYY-MM-DD HH:MM:SS" of that clock. */
  lemma ClockRoundTrip(clock: DateTime)
    requires Valid(clock) && clock.year >= 1000
    ensures Relay.TimestampText(Sensor.DefFechaHora(clock)) == Render(clock)
  {
    CompactRoundTrip(clock);
    assert Sensor.Snprintf15(CompactText(clock)) == CompactText(clock);
    Relay.TimestampOfDate(clock);
  }

  /** The bytes recepcion_tcp accumulates from a connection's stream: at most one frame. */
  function Received(stream: seq<byte>): (paquete: seq<byte>)
    ensures |paquete| <= Relay.FrameSize
  {
    stream[..Arith.Min(Relay.FrameSize, |stream|)]
  }

  /** The record the relay's `<hQfff` format sees in a struct's fields. */
  function AsRecord(d: Sensor.SensorData): Relay.Record
  {
    Relay.Record(d.id, d.fechaHora, d.temperatura, d.presion, d.humedad)
  }

  /**
   * A byte-packed sensor packet (22-byte struct image, 256-byte signature)
   * is read whole by the relay and carries the sensor's id, its rendered
   * timestamp and its three words; it is queued iff the signature verifies.
   */
  lemma PackedFrameDelivers(d: Sensor.SensorData, firma: seq<byte>, verify: (seq<byte>, seq<byte>, int) -> bool)
    requires |firma| == Relay.SignatureSize
    ensures var stream := Sensor.PackedImage(d) + firma;
      && |stream| == Relay.FrameSize
      && var r := Relay.Classify(Received(stream), verify);
      && !r.Incomplete?
      && r.reading == Relay.Reading(d.id, Relay.TimestampText(d.fechaHora), d.temperatura, d.presion, d.humedad)
      && (r.Accepted? <==> verify(Sensor.PackedImage(d), firma, d.id))
  {
    var stream := Sensor.PackedImage(d) + firma;
    assert Sensor.PackedImage(d) == Relay.Pack(AsRecord(d));
    assert Received(stream) == stream;
    Relay.ClassifyRecordFrame(AsRecord(d), firma, verify);
  }

  /** With a byte-packed struct, a reading taken at a valid clock reaches the relay with that clock's text. */
  lemma PackedClockDelivers(id: int16, clock: DateTime, temp: word32, pres: word32, hum: word32,
                            firma: seq<byte>, verify: (seq<byte>, seq<byte>, int) -> bool)
    requires Valid(clock) && clock.year >= 1000 && |firma| == Relay.SignatureSize
    ensures var d := Sensor.SensorData(id, Sensor.DefFechaHora(clock), temp, pres, hum);
      Relay.Classify(Sensor.PackedImage(d) + firma, verify).reading == Relay.Reading(id, Render(clock), temp, pres, hum)
  {
    var d := Sensor.SensorData(id, Sensor.DefFechaHora(clock), temp, pres, hum);
    PackedFrameDelivers(d, firma, verify);
    var stream := Sensor.PackedImage(d) + firma;
    assert Received(stream) == stream;
    ClockRoundTrip(clock);
  }

  /** The low 16 bits of a stored uint64: its first two little-endian bytes. */
  lemma LowBytes(v: nat)
    ensures LeValue(LeBytes(v, 8)[..2]) == v % 0x1_0000
  {
    var b := LeBytes(v, 8);
    var r0, q := v % 256, v / 256;
    var r1, q2 := q % 256, q / 256;
    assert b == [r0] + LeBytes(q, 7);
    assert LeBytes(q, 7) == [r1] + LeBytes(q2, 6);
    assert b[..2] == [r0, r1];
    assert LeValue([r1]) == r1;
    assert LeValue(b[..2]) == r0 + 256 * r1;
    assert v == 0x1_0000 * q2 + (256 * r1 + r0);
    Sensor.DivAdd(q2, 256 * r1 + r0, 0x1_0000);
  }

  /** A number of at least k + 1 digits prints with at least k + 1 digits. */
  lemma {:induction false} ShowLong(n: nat, k: nat)
    requires Pow10(k) <= n
    ensures |Show(n)| >= k + 1
  {
    if k > 0 {
      assert Pow10(k) == 10 * Pow10(k - 1);
      ShowLong(n / 10, k - 1);
    }
  }

  /** What the relay's decoder reads in the first 22 bytes of the padded image: the id, then padding and fecha_hora's low bytes. */
  lemma PaddedPayload(d: Sensor.SensorData, padding: seq<byte>)
    requires |padding| == 10
    ensures var datos := Sensor.PaddedImage(d, padding)[..Relay.PayloadSize];
      && LeValue(datos[0..2]) == FromInt16(d.id)
      && LeValue(datos[2..10]) == LeValue(padding[..6]) + Pow256(6) * (d.fechaHora % 0x1_0000)
  {
    var img := Sensor.PaddedImage(d, padding);
    var datos := img[..Relay.PayloadSize];
    var idBytes := LeBytes(FromInt16(d.id), 2);
    var fecha := LeBytes(d.fechaHora, 8);
    assert img[0..2] == idBytes;
    assert img[2..8] == padding[..6];
    assert img[8..10] == fecha[..2];
    assert datos[0..2] == idBytes;
    assert datos[2..10] == img[2..8] + img[8..10];
    LeValueOfBytes(FromInt16(d.id), 2);
    LeValueAppend(padding[..6], fecha[..2]);
    LowBytes(d.fechaHora);
  }

  /** A payload whose bytes 2-9 hold 2^48 or more parses with timestamp "0". */
  lemma WidePayloadDropped(datos: seq<byte>)
    requires |datos| == Relay.PayloadSize && LeValue(datos[2..10]) >= Pow256(6)
    ensures Relay.ParsearDatosSensor(datos).value.timestamp == "0"
  {
    var raw := LeValue(datos[2..10]);
    assert Pow256(6) == 0x1_0000_0000_0000;
    assert Pow10(14) == 100000000000000;
    ShowLong(raw, 14);
  }

  /**
   * As the sensor is written (`#pragma pack` commented out) the struct image
   * is 32 bytes, so the packet is 288 bytes. The relay reads the first 278:
   * it parses the image's first 22 bytes as the reading and checks the
   * image's last 10 bytes and the first 246 bytes of the signature as the
   * signature.
   */
  lemma PaddedFrameRead(d: Sensor.SensorData, padding: seq<byte>, firma: seq<byte>,
                        verify: (seq<byte>, seq<byte>, int) -> bool)
    requires |padding| == 10 && |firma| == Relay.SignatureSize
    ensures var img := Sensor.PaddedImage(d, padding);
      var stream := img + firma;
      && |stream| == 288
      && var r := Relay.Classify(Received(stream), verify);
      && !r.Incomplete?
      && Relay.ParsearDatosSensor(img[..Relay.PayloadSize]) == Ok(r.reading)
      && (r.Accepted? <==> verify(img[..Relay.PayloadSize], img[Relay.PayloadSize..] + firma[..246], r.reading.id))
  {
    var img := Sensor.PaddedImage(d, padding);
    var stream := img + firma;
    assert Received(stream)[..Relay.PayloadSize] == img[..Relay.PayloadSize];
    assert Received(stream)[Relay.PayloadSize..] == img[Relay.PayloadSize..] + firma[..246];
  }

  /**
   * The relay's parse of a padded image decodes bytes 2-9, six padding
   * bytes and the low two bytes of fecha_hora, as the timestamp (which
   * WidePayloadDropped then turns into "0" unless those two bytes are
   * zero). The id, at offset 0, survives.
   */
  lemma PaddedPayloadMisread(d: Sensor.SensorData, padding: seq<byte>)
    requires |padding| == 10
    ensures var r := Relay.ParsearDatosSensor(Sensor.PaddedImage(d, padding)[..Relay.PayloadSize]);
      && r.Ok?
      && r.value.id == d.id
      && r.value.timestamp == Relay.TimestampText(LeValue(padding[..6]) + Pow256(6) * (d.fechaHora % 0x1_0000))
  {
    var datos := Sensor.PaddedImage(d, padding)[..Relay.PayloadSize];
    PaddedPayload(d, padding);
    var r := Relay.ParsearDatosSensor(datos);
    assert r.value.id % 0x1_0000 == FromInt16(d.id);
  }

  /**
   * As the sensor is written, every packet whose fecha_hora has nonzero low
   * 16 bits reaches the relay with timestamp "0", whatever the padding.
   */
  lemma PaddedFrameMisread(d: Sensor.SensorData, padding: seq<byte>, firma: seq<byte>,
                           verify: (seq<byte>, seq<byte>, int) -> bool)
    requires |padding| == 10 && |firma| == Relay.SignatureSize && d.fechaHora % 0x1_0000 != 0
    ensures Relay.Classify(Received(Sensor.PaddedImage(d, padding) + firma), verify).reading.timestamp == "0"
  {
    PaddedFrameRead(d, padding, firma, verify);
    PaddedTimestampDropped(d, padding);
  }

  /** The relay's parse of a padded image whose fecha_hora has nonzero low 16 bits yields timestamp "0". */
  lemma PaddedTimestampDropped(d: Sensor.SensorData, padding: seq<byte>)
    requires |padding| == 10 && d.fechaHora % 0x1_0000 != 0
    ensures Relay.ParsearDatosSensor(Sensor.PaddedImage(d, padding)[..Relay.PayloadSize]).value.timestamp == "0"
  {
    var datos := Sensor.PaddedImage(d, padding)[..Relay.PayloadSize];
    PaddedPayload(d, padding);
    Sensor.MulMonotone(Pow256(6), 1, d.fechaHora % 0x1_0000);
    WidePayloadDropped(datos);
  }

  /**
   * A concrete sensor packet: a reading taken at 2024-05-17 12:30:45
   * (fecha_hora 20240517123045, low 16 bits 19429) reaches the relay, as the
   * sensor is written, with timestamp "0", whatever the padding bytes hold.
   */
  lemma PaddedClockLost(padding: seq<byte>, firma: seq<byte>, verify: (seq<byte>, seq<byte>, int) -> bool)
    requires |padding| == 10 && |firma| == Relay.SignatureSize
    ensures var clock := DateTime(2024, 5, 17, 12, 30, 45);
      var d := Sensor.SensorData(7, Sensor.DefFechaHora(clock), 0, 0, 0);
      Relay.Classify(Received(Sensor.PaddedImage(d, padding) + firma), verify).reading.timestamp == "0"
  {
    var clock := DateTime(2024, 5, 17, 12, 30, 45);
    var d := Sensor.SensorData(7, Sensor.DefFechaHora(clock), 0, 0, 0);
    assert d.fechaHora % 0x1_0000 == 19429 by {
      Sensor.DefFechaHoraValue(clock);
    }
    PaddedFrameMisread(d, padding, firma, verify);
  }

  /** The same reading, byte-packed, reaches the relay with its clock's text. */
  lemma PackedClockKept(firma: seq<byte>, verify: (seq<byte>, seq<byte>, int) -> bool)
    requires |firma| == Relay.SignatureSize
    ensures var clock := DateTime(2024, 5, 17, 12, 30, 45);
      var d := Sensor.SensorData(7, Sensor.DefFechaHora(clock), 0, 0, 0);
      var t := Relay.Classify(Sensor.PackedImage(d) + firma, verify).reading.timestamp;
      t == Render(clock) && IsoShaped(t)
  {
    var clock := DateTime(2024, 5, 17, 12, 30, 45);
    assert Valid(clock);
    PackedClockDelivers(7, clock, 0, 0, 0, firma, verify);
    RenderRoundTrip(clock);
  }

  /** The columns the final server stores for a reading the relay forwarded. */
  function ReadingValues(r: Relay.Reading): Db.Values
  {
    Db.Values(r.id, r.timestamp, r.temperatura, r.presion, r.humedad)
  }

  /**
   * The relay's line `dumps(envelope) + "\n"`, parsed back to the envelope,
   * is stored by the corrected handler as one new row holding the reading's
   * id, timestamp and words, given that the table exists.
   */
  lemma DeliveredLineStored(t: Db.Table, reading: Relay.Reading, signer: Relay.Signer,
                            dumps: Json -> seq<byte>, loads: seq<byte> -> Option<Json>)
    requires Db.Inv(t) && t.created
    requires var env := Relay.FirmarDatos(reading, signer); loads(dumps(env)) == Some(env)
    ensures var line := dumps(Relay.FirmarDatos(reading, signer));
      FinalServer.HandleLine(t, line, loads) == (Db.AppendRow(t, ReadingValues(reading)).0, None)
  {
    var env := Relay.FirmarDatos(reading, signer);
    var j := Relay.ReadingJson(reading);
    assert Db.Columns(j) == Ok(ReadingValues(reading));
    Db.InsertOutcome(t, j);
  }

  /** The same line, handled as written (the base64 signature passed as the reading), stores nothing and raises TypeError. */
  lemma DeliveredLineAsWritten(t: Db.Table, reading: Relay.Reading, signer: Relay.Signer,
                               dumps: Json -> seq<byte>, loads: seq<byte> -> Option<Json>, encode: Json -> string)
    requires var env := Relay.FirmarDatos(reading, signer); loads(dumps(env)) == Some(env)
    ensures var line := dumps(Relay.FirmarDatos(reading, signer));
      FinalServer.HandleLineAsWritten(t, line, loads, encode) == (t, Some(TypeError))
  {
    FinalServer.AsWrittenStoresNothing(t, dumps(Relay.FirmarDatos(reading, signer)), loads, encode);
  }

  /** A line with no newline in it, followed by one, frames as exactly that line with nothing left over. */
  lemma SingleLineFramed(line: seq<byte>)
    requires FinalServer.NL !in line
    ensures FinalServer.SplitLines(line + [FinalServer.NL]) == ([line], [])
  {
    FinalServer.Framing([line], []);
    assert FinalServer.JoinLines([line]) + [] == line + [FinalServer.NL] by {
      assert FinalServer.JoinLines([line]) == line + [FinalServer.NL] + FinalServer.JoinLines([]);
    }
  }

  /**
   * One dispatcher connection: the bytes the relay sends frame as exactly
   * the envelope line with nothing left over, provided the serialisation
   * holds no raw newline. Since `FinalServer.RecepcionDatos` frames the
   * concatenation of the chunks it reads, this holds however they arrive. The corrected handler
   * stores the reading; the handler as written raises TypeError on that
   * line and stores nothing.
   */
  lemma DeliveredConnection(t: Db.Table, reading: Relay.Reading, signer: Relay.Signer,
                            dumps: Json -> seq<byte>, loads: seq<byte> -> Option<Json>, encode: Json -> string)
    requires Db.Inv(t) && t.created
    requires var env := Relay.FirmarDatos(reading, signer); loads(dumps(env)) == Some(env) && FinalServer.NL !in dumps(env)
    ensures var line := dumps(Relay.FirmarDatos(reading, signer));
      && FinalServer.SplitLines(line + [10]) == ([line], [])
      && FinalServer.HandleAll(FinalServer.Corrected, t, [line], loads) == (Db.AppendRow(t, ReadingValues(reading)).0, None)
      && FinalServer.HandleAll(FinalServer.AsWritten(encode), t, [line], loads) == (t, Some(TypeError))
  {
    var line := dumps(Relay.FirmarDatos(reading, signer));
    SingleLineFramed(line);
    DeliveredLineStored(t, reading, signer, dumps, loads);
    DeliveredLineAsWritten(t, reading, signer, dumps, loads, encode);
    var none: seq<seq<byte>> := [];
    assert [line][..0] == none;
    assert FinalServer.HandleAll(FinalServer.Corrected, t, [line], loads) == FinalServer.HandleLine(t, line, loads);
    assert FinalServer.HandleAll(FinalServer.AsWritten(encode), t, [line], loads)
        == FinalServer.HandleLineAsWritten(t, line, loads, encode);
  }
}
