/**
 * The intermediate server (servidor_intermedio_py/main.py): it reads one
 * 278-byte frame per sensor connection, decodes the 22-byte `<hQfff` record,
 * checks the sensor's signature, queues the reading, and a dispatcher sends
 * queued readings, signed again, to the final server as newline-terminated
 * JSON, putting a reading that could not be sent back into the queue.
 */
module Relay {
  import opened Wrappers
  import opened Arith
  import opened Bytes
  import opened Decimal
  import opened Calendar
  import opened Json

  const PayloadSize: nat := 22
  const SignatureSize: nat := 256
  const FrameSize: nat := 278

  /** The five values of `struct.unpack('<hQfff', datos)`; floats as their bit patterns. */
  datatype Record = Record(id: int16, timestampRaw: uint64, temp: word32, pres: word32, hum: word32)

  /** `struct.pack('<hQfff', ...)`: the 22-byte little-endian image of a record. */
  function Pack(u: Record): (b: seq<byte>)
    ensures |b| == PayloadSize
  {
    LeBytes(FromInt16(u.id), 2) + LeBytes(u.timestampRaw, 8)
    + LeBytes(u.temp, 4) + LeBytes(u.pres, 4) + LeBytes(u.hum, 4)
  }

  /**
   * `struct.unpack('<hQfff', datos)`: accepts exactly 22 bytes, reads bytes
   * 0-1 as a signed 16-bit value and bytes 2-9 as an unsigned 64-bit value,
   * both little-endian; any other length raises `struct.error`.
   */
  function Unpack(datos: seq<byte>): (r: Result<Record, PyError>)
    ensures r.Ok? <==> |datos| == PayloadSize
    ensures r.Err? ==> r.error == StructError
    ensures r.Ok? ==> r.value.id % 0x1_0000 == LeValue(datos[0..2])
    ensures r.Ok? ==> r.value.timestampRaw == LeValue(datos[2..10])
  {
    if |datos| != PayloadSize then Err(StructError)
    else
      WordBounds(datos);
      Ok(Record(ToInt16(LeValue(datos[0..2])), LeValue(datos[2..10]),
                LeValue(datos[10..14]), LeValue(datos[14..18]), LeValue(datos[18..22])))
  }

  lemma WordBounds(datos: seq<byte>)
    requires |datos| == PayloadSize
    ensures LeValue(datos[0..2]) < 0x1_0000
    ensures LeValue(datos[2..10]) < 0x1_0000_0000_0000_0000
    ensures LeValue(datos[10..14]) < 0x1_0000_0000 && LeValue(datos[14..18]) < 0x1_0000_0000
    ensures LeValue(datos[18..22]) < 0x1_0000_0000
  {
    Pow256Values();
    LeValueBound(datos[0..2]);
    LeValueBound(datos[2..10]);
    LeValueBound(datos[10..14]);
    LeValueBound(datos[14..18]);
    LeValueBound(datos[18..22]);
  }

  lemma Pow256Values()
    ensures Pow256(2) == 0x1_0000 && Pow256(4) == 0x1_0000_0000
    ensures Pow256(8) == 0x1_0000_0000_0000_0000
  {
    assert Pow256(2) == 0x1_0000;
    assert Pow256(4) == 0x1_0000 * Pow256(2);
    assert Pow256(8) == 0x1_0000_0000 * Pow256(4);
  }

  /** Decoding the encoding of a record gives back the same id, timestamp and words. */
  lemma UnpackPack(u: Record)
    ensures Unpack(Pack(u)) == Ok(u)
  {
    var b := Pack(u);
    var p0, p1, p2 := LeBytes(FromInt16(u.id), 2), LeBytes(u.timestampRaw, 8), LeBytes(u.temp, 4);
    var p3, p4 := LeBytes(u.pres, 4), LeBytes(u.hum, 4);
    assert b[0..2] == p0 && b[2..10] == p1 && b[10..14] == p2 && b[14..18] == p3 && b[18..22] == p4;
    Pow256Values();
    LeValueOfBytes(FromInt16(u.id), 2);
    LeValueOfBytes(u.timestampRaw, 8);
    LeValueOfBytes(u.temp, 4);
    LeValueOfBytes(u.pres, 4);
    LeValueOfBytes(u.hum, 4);
  }

  /** Every 22-byte payload is the encoding of the record it decodes to. */
  lemma PackUnpack(datos: seq<byte>)
    requires |datos| == PayloadSize
    ensures Unpack(datos).Ok? && Pack(Unpack(datos).value) == datos
  {
    var u := Unpack(datos).value;
    WordBounds(datos);
    assert FromInt16(u.id) == LeValue(datos[0..2]);
    LeBytesOfValue(datos[0..2]);
    LeBytesOfValue(datos[2..10]);
    LeBytesOfValue(datos[10..14]);
    LeBytesOfValue(datos[14..18]);
    LeBytesOfValue(datos[18..22]);
    PayloadFields(datos);
  }

  /** A 22-byte payload is its five fields put back together. */
  lemma PayloadFields(datos: seq<byte>)
    requires |datos| == PayloadSize
    ensures datos == datos[0..2] + datos[2..10] + datos[10..14] + datos[14..18] + datos[18..22]
  {
    assert datos[0..2] + datos[2..10] == datos[0..10];
    assert datos[0..10] + datos[10..14] == datos[0..14];
    assert datos[0..14] + datos[14..18] == datos[0..18];
    assert datos[0..18] + datos[18..22] == datos;
  }

  /**
   * `str(fecha_hora)`: the decimal text of the raw timestamp is parsed with
   * "%Y%m%d%H%M%S"; a date-time renders as "YYYY-MM-DD HH:MM:SS" and a
   * failed parse leaves the integer 0, which renders as "0".
   */
  function TimestampText(raw: nat): (r: string)
    ensures r == "0" <==> ParseCompact(Show(raw)).None?
    ensures r != "0" ==> IsoShaped(r) && ParseIso(r) == ParseCompact(Show(raw))
  {
    match ParseCompact(Show(raw))
    case Some(t) =>
      RenderRoundTrip(t);
      Render(t)
    case None => "0"
  }

  /** A 14-digit timestamp whose fields form a valid date-time is rendered with exactly those fields. */
  lemma TimestampOfDate(t: DateTime)
    requires Valid(t) && t.year >= 1000
    ensures TimestampText(Value(CompactText(t))) == Render(t)
  {
    var text := CompactText(t);
    CompactRoundTrip(t);
    assert AllDigits(text);
    FieldTexts(t);
    CompactSplit(Pad(t.year, 4), Pad(t.month, 2), Pad(t.day, 2), Pad(t.hour, 2), Pad(t.minute, 2), Pad(t.second, 2));
    LeadingDigit(t.year);
    ShowValue(text);
  }

  lemma LeadingDigit(y: nat)
    requires 1000 <= y <= 9999
    ensures Pad(y, 4)[0] != '0'
  {
    assert Pow10(3) == 1000 && Pow10(4) == 10000;
    ShowLength(y, 3);
    ShowNoLeadingZero(y);
  }

  /** The dict built by parsear_datos_sensor; its key order is part of what is signed. */
  datatype Reading = Reading(id: int16, timestamp: string, temperatura: word32, presion: word32, humedad: word32)

  /** The keys of that dict, in insertion order. */
  const ReadingKeys: seq<string> := ["id", "timestamp", "temperatura", "presion", "humedad"]

  lemma ReadingKeysDistinct()
    ensures DistinctKeys(ReadingKeys)
  {
    assert "presion"[0] != "humedad"[0];
  }

  function ReadingJson(r: Reading): (j: Json)
    ensures j.JObject? && Keys(j.fields) == ReadingKeys
    ensures Subscript(j, "id") == Ok(JInt(r.id))
    ensures Subscript(j, "timestamp") == Ok(JStr(r.timestamp))
    ensures Subscript(j, "temperatura") == Ok(JFloat(r.temperatura))
    ensures Subscript(j, "presion") == Ok(JFloat(r.presion))
    ensures Subscript(j, "humedad") == Ok(JFloat(r.humedad))
  {
    var fields := [("id", JInt(r.id)), ("timestamp", JStr(r.timestamp)), ("temperatura", JFloat(r.temperatura)),
                   ("presion", JFloat(r.presion)), ("humedad", JFloat(r.humedad))];
    ReadingKeysDistinct();
    assert Keys(fields) == ReadingKeys;
    SubscriptAt(fields, 0); SubscriptAt(fields, 1); SubscriptAt(fields, 2);
    SubscriptAt(fields, 3); SubscriptAt(fields, 4);
    JObject(fields)
  }

  /** parsear_datos_sensor(datos): the decoded record with its timestamp rendered as text. */
  function ParsearDatosSensor(datos: seq<byte>): (r: Result<Reading, PyError>)
    ensures r.Ok? <==> |datos| == PayloadSize
    ensures r.Ok? ==> r.value.id % 0x1_0000 == LeValue(datos[0..2])
    ensures r.Ok? ==> r.value.timestamp == TimestampText(LeValue(datos[2..10]))
  {
    match Unpack(datos)
    case Err(e) => Err(e)
    case Ok(u) => Ok(Reading(u.id, TimestampText(u.timestampRaw), u.temp, u.pres, u.hum))
  }

  /** The payload of any record decodes to that record's id, rendered timestamp and words. */
  lemma ParsearPacked(u: Record)
    ensures ParsearDatosSensor(Pack(u)) == Ok(Reading(u.id, TimestampText(u.timestampRaw), u.temp, u.pres, u.hum))
  {
    UnpackPack(u);
  }

  /** The library calls firmar_datos makes: compact `json.dumps`, the RSA signature, base64. */
  datatype Signer = Signer(dumpsCompact: Json -> seq<byte>, sign: seq<byte> -> seq<byte>, b64: seq<byte> -> string)

  /**
   * firmar_datos(datos): the envelope {"datos": datos, "firma": b64(signature)}
   * where the signature covers the compact serialisation of the reading.
   */
  function FirmarDatos(datos: Reading, signer: Signer): (env: Json)
    ensures env.JObject? && Keys(env.fields) == ["datos", "firma"]
    ensures Subscript(env, "datos") == Ok(ReadingJson(datos))
    ensures Subscript(env, "firma") == Ok(JStr(signer.b64(signer.sign(signer.dumpsCompact(ReadingJson(datos))))))
  {
    var payload := ReadingJson(datos);
    var firma := JStr(signer.b64(signer.sign(signer.dumpsCompact(payload))));
    assert "datos"[0] != "firma"[0];
    Pair("datos", payload, "firma", firma);
    JObject([("datos", payload), ("firma", firma)])
  }

  /**
   * The receive loop of recepcion_tcp. The peer sends `stream` and then
   * closes; the k-th `recv(278 - len(paquete))` returns at least one and at
   * most the requested number of the bytes still unread, as many as
   * `grant(k)` says within those bounds, and an empty token once the stream
   * is exhausted, which ends the loop.
   */
  method ReceiveFrame(stream: seq<byte>, grant: nat -> nat) returns (paquete: seq<byte>, tokens: seq<seq<byte>>)
    ensures paquete == stream[..Min(FrameSize, |stream|)]
    ensures Flatten(tokens) == paquete
    ensures forall k | 0 <= k < |tokens| :: 1 <= |tokens[k]| <= FrameSize - |Flatten(tokens[..k])|
  {
    paquete := [];
    tokens := [];
    while |paquete| < FrameSize
      invariant |paquete| <= FrameSize && |paquete| <= |stream|
      invariant paquete == stream[..|paquete|]
      invariant Flatten(tokens) == paquete
      invariant forall k | 0 <= k < |tokens| :: 1 <= |tokens[k]| <= FrameSize - |Flatten(tokens[..k])|
      decreases FrameSize - |paquete|
    {
      var want := FrameSize - |paquete|;
      var unread := |stream| - |paquete|;
      var n := if unread == 0 then 0 else Min(Min(want, unread), if grant(|tokens|) == 0 then 1 else grant(|tokens|));
      var token := stream[|paquete|..|paquete| + n];
      if token == [] {
        break;
      }
      FlattenAppend(tokens, token);
      assert (tokens + [token])[..|tokens|] == tokens;
      assert forall k | 0 <= k < |tokens| :: (tokens + [token])[..k] == tokens[..k];
      tokens := tokens + [token];
      paquete := paquete + token;
    }
  }

  /** What became of one sensor connection. */
  datatype Reception =
    | Incomplete(received: nat)
    | Rejected(reading: Reading)
    | Accepted(reading: Reading)

  /**
   * The checks after the receive loop: a short frame is dropped; a full one
   * is split into the 22-byte payload and the 256-byte signature, parsed,
   * and kept only when `verify(datos, firma, id)` (the key file of the
   * decoded id and an RSA check) holds.
   */
  function Classify(paquete: seq<byte>, verify: (seq<byte>, seq<byte>, int) -> bool): (r: Reception)
    requires |paquete| <= FrameSize
    ensures r.Incomplete? <==> |paquete| < FrameSize
    ensures r.Incomplete? ==> r.received == |paquete|
    ensures !r.Incomplete? ==>
      && paquete[..PayloadSize] + paquete[PayloadSize..] == paquete
      && |paquete[PayloadSize..]| == SignatureSize
      && ParsearDatosSensor(paquete[..PayloadSize]) == Ok(r.reading)
      && (r.Accepted? <==> verify(paquete[..PayloadSize], paquete[PayloadSize..], r.reading.id))
  {
    if |paquete| < FrameSize then Incomplete(|paquete|)
    else
      var datos, firma := paquete[..PayloadSize], paquete[PayloadSize..];
      assert datos + firma == paquete;
      var parseado := ParsearDatosSensor(datos).value;
      if verify(datos, firma, parseado.id) then Accepted(parseado) else Rejected(parseado)
  }

  /** A frame made of a record's 22 bytes and a 256-byte signature carries that record. */
  lemma ClassifyRecordFrame(u: Record, firma: seq<byte>, verify: (seq<byte>, seq<byte>, int) -> bool)
    requires |firma| == SignatureSize
    ensures var r := Classify(Pack(u) + firma, verify);
      && !r.Incomplete?
      && r.reading == Reading(u.id, TimestampText(u.timestampRaw), u.temp, u.pres, u.hum)
      && (r.Accepted? <==> verify(Pack(u), firma, u.id))
  {
    var paquete := Pack(u) + firma;
    assert paquete[..PayloadSize] == Pack(u) && paquete[PayloadSize..] == firma;
    ParsearPacked(u);
  }

  /** How a dispatcher attempt went: create_connection, then sendall. */
  datatype Link = Link(connectOk: bool, sendOk: bool)

  datatype Dispatch =
    | Idle
    | Delivered(reading: Reading, bytes: seq<byte>)
    | Requeued(reading: Reading)

  /** The queue after one dispatcher step: the head leaves, and comes back at the end if sending failed. */
  function NextQueue<T>(q: seq<T>, ok: bool): seq<T>
  {
    if q == [] then [] else if ok then q[1..] else q[1..] + [q[0]]
  }

  /** A successful step removes exactly the head. */
  lemma NextQueueSuccess<T>(q: seq<T>)
    requires q != []
    ensures multiset(NextQueue(q, true)) + multiset{q[0]} == multiset(q)
    ensures |NextQueue(q, true)| == |q| - 1
  {
    assert q == [q[0]] + q[1..];
  }

  /** A failed step keeps every pending entry: same multiset, same length, head now last. */
  lemma NextQueueFailure<T>(q: seq<T>)
    requires q != []
    ensures multiset(NextQueue(q, false)) == multiset(q)
    ensures |NextQueue(q, false)| == |q|
    ensures NextQueue(q, false)[|q| - 1] == q[0]
  {
    assert q == [q[0]] + q[1..];
  }

  /** What happens to the queue over time: a verified reading arrives, or the dispatcher makes an attempt. */
  datatype Event<T> = Arrive(item: T) | Attempt(ok: bool)

  /** Replaying events from queue `q`: the readings delivered, in order, and the queue left. */
  function Run<T>(q: seq<T>, events: seq<Event<T>>): (seq<T>, seq<T>)
    decreases |events|
  {
    if events == [] then ([], q)
    else match events[0]
      case Arrive(x) => Run(q + [x], events[1..])
      case Attempt(ok) =>
        var rest := Run(NextQueue(q, ok), events[1..]);
        if q != [] && ok then ([q[0]] + rest.0, rest.1) else rest
  }

  function Arrivals<T>(events: seq<Event<T>>): seq<T>
  {
    if events == [] then []
    else match events[0]
      case Arrive(x) => [x] + Arrivals(events[1..])
      case Attempt(_) => Arrivals(events[1..])
  }

  /** No reading is lost or duplicated: delivered plus pending is what was queued plus what arrived. */
  lemma {:induction false} RunNoLoss<T>(q: seq<T>, events: seq<Event<T>>)
    ensures multiset(Run(q, events).0) + multiset(Run(q, events).1) == multiset(q) + multiset(Arrivals(events))
    decreases |events|
  {
    if events != [] {
      match events[0]
      case Arrive(x) =>
        RunNoLoss(q + [x], events[1..]);
        assert Run(q, events) == Run(q + [x], events[1..]);
        assert Arrivals(events) == [x] + Arrivals(events[1..]);
        assert multiset(q + [x]) == multiset(q) + multiset{x};
      case Attempt(ok) =>
        var next := NextQueue(q, ok);
        var rest := Run(next, events[1..]);
        RunNoLoss(next, events[1..]);
        assert Arrivals(events) == Arrivals(events[1..]);
        if q != [] && ok {
          assert Run(q, events) == ([q[0]] + rest.0, rest.1);
          NextQueueSuccess(q);
          assert next == NextQueue(q, true);
          assert multiset([q[0]] + rest.0) == multiset{q[0]} + multiset(rest.0);
          calc {
            multiset(Run(q, events).0) + multiset(Run(q, events).1);
            multiset{q[0]} + multiset(rest.0) + multiset(rest.1);
            multiset{q[0]} + (multiset(next) + multiset(Arrivals(events[1..])));
            (multiset(next) + multiset{q[0]}) + multiset(Arrivals(events));
            multiset(q) + multiset(Arrivals(events));
          }
        } else {
          assert Run(q, events) == rest;
          if q != [] {
            NextQueueFailure(q);
          }
        }
    }
  }

  /**
   * With every attempt succeeding and no arrivals, readings are delivered in
   * queue order, one per attempt while the queue lasts.
   */
  lemma {:induction false} RunAllSuccess<T>(q: seq<T>, events: seq<Event<T>>)
    requires forall i | 0 <= i < |events| :: events[i] == Attempt(true)
    ensures var m := Min(|events|, |q|); Run(q, events) == (q[..m], q[m..])
  {
    if events != [] {
      assert events[0] == Attempt(true);
      if q == [] {
        RunAllSuccess(q, events[1..]);
      } else {
        var m := Min(|events|, |q|);
        RunAllSuccess(q[1..], events[1..]);
        assert Min(|events| - 1, |q| - 1) == m - 1;
        assert q[1..][..m - 1] == q[1..m];
        assert q[1..][m - 1..] == q[m..];
        assert [q[0]] + q[1..m] == q[..m];
      }
    }
  }

  /**
   * A failure reorders delivery: after a failed attempt on `a`, the next
   * successful attempt delivers `b`, which was queued after it.
   */
  lemma RetryReorders<T>(a: T, b: T)
    ensures Run([a, b], [Attempt(false), Attempt(true)]) == ([b], [a])
  {
    var events: seq<Event<T>> := [Attempt(false), Attempt(true)];
    var last: seq<Event<T>> := [Attempt(true)];
    assert events[0] == Attempt(false) && events[1..] == last;
    assert last[0] == Attempt(true) && last[1..] == [];
    assert NextQueue([a, b], false) == [b, a];
    assert NextQueue([b, a], true) == [a];
    assert Run<T>([a], []) == ([], [a]);
    assert Run([b, a], last) == ([b] + Run([a], []).0, Run([a], []).1);
    assert Run([a, b], events) == Run([b, a], last);
    assert [b] + Run<T>([a], []).0 == [b];
  }

  class IntermediateServer {
    /** `cola_envios`, front first. */
    var cola: seq<Reading>

    constructor()
      ensures cola == []
    {
      cola := [];
    }

    /**
     * recepcion_tcp on a connection whose peer sends `stream`: receive up
     * to 278 bytes, then enqueue the parsed reading iff the frame is full
     * and its signature verifies.
     */
    method RecepcionTcp(stream: seq<byte>, grant: nat -> nat, verify: (seq<byte>, seq<byte>, int) -> bool)
      returns (outcome: Reception)
      modifies this
      ensures outcome == Classify(stream[..Min(FrameSize, |stream|)], verify)
      ensures cola == old(cola) + (if outcome.Accepted? then [outcome.reading] else [])
    {
      var paquete, _ := ReceiveFrame(stream, grant);
      if |paquete| < FrameSize {
        return Incomplete(|paquete|);
      }
      var datos := paquete[..PayloadSize];
      var firma := paquete[PayloadSize..];
      var parseado := ParsearDatosSensor(datos).value;
      if verify(datos, firma, parseado.id) {
        cola := cola + [parseado];
        outcome := Accepted(parseado);
      } else {
        outcome := Rejected(parseado);
      }
    }

    /**
     * One iteration of enviar_datos_cola: with an empty queue nothing
     * happens; otherwise the head is taken, signed and sent as
     * `json.dumps(envelope)` plus a newline, and on any failure put back at
     * the end of the queue.
     */
    method EnviarDatosCola(link: Link, signer: Signer, dumps: Json -> seq<byte>) returns (step: Dispatch)
      modifies this
      ensures cola == NextQueue(old(cola), link.connectOk && link.sendOk)
      ensures old(cola) == [] ==> step == Idle
      ensures old(cola) != [] && link.connectOk && link.sendOk ==>
        step == Delivered(old(cola)[0], dumps(FirmarDatos(old(cola)[0], signer)) + [10])
      ensures old(cola) != [] && !(link.connectOk && link.sendOk) ==> step == Requeued(old(cola)[0])
    {
      if cola == [] {
        return Idle;
      }
      var datos := cola[0];
      cola := cola[1..];
      if link.connectOk {
        var paqueteFirmado := FirmarDatos(datos, signer);
        var paqueteFinal := dumps(paqueteFirmado) + [10];
        if link.sendOk {
          return Delivered(datos, paqueteFinal);
        }
      }
      cola := cola + [datos];
      step := Requeued(datos);
    }
  }
}
