# redes-sm sensor pipeline, modelled in Dafny

This project models the data path of the redes-sm monitoring system. It covers four programs.

- **Sensor client** (`cliente_sensor_cpp/main.cpp`). It packs the local time into a 14-digit `uint64` (`defFechaHora`). It fills a `SensorData` struct and sends the struct's bytes followed by an RSA signature over one TCP connection (`sendSensorPacket`).
- **Intermediate server** (`servidor_intermedio_py/main.py`).
  - `recepcion_tcp` reads up to 278 bytes per connection. It splits them into a 22-byte `<hQfff` payload and a 256-byte signature, decodes the payload and renders the timestamp (`parsear_datos_sensor`). It queues the reading only when the signature verifies.
  - The dispatcher `enviar_datos_cola` takes the head of the queue and wraps it in a `{datos, firma}` envelope (`firmar_datos`). It sends the envelope as one JSON line. On failure it puts the reading back at the end of the queue.
- **Final server** (`servidor_final_py/main.py`, `servidor_final_py/db.py`).
  - `recepcion_datos` appends each received chunk to a buffer and cuts the buffer at each newline. Each line is meant to be stored in the `mediciones` table. As written, the first complete line raises and nothing is stored (see Findings). The model runs the connection under both the handler as written and the corrected one.
  - `api_mediciones` projects the table rows, newest timestamp first, into records.
- **Alert client** (`cliente_alertas_py/cliente_alertas.py`).
  - It polls the measurement list and checks each quantity against an inclusive range (`verificar_alertas`). It deduplicates by `(sensor_id, timestamp)` and keeps an append-only alert list.
  - It serves the last 20 alerts, the list sorted newest first, and the last fresh reading of each sensor.

The model follows the source's own form. Pure code becomes functions plus lemmas. The measurement table becomes the class `Db.MeasurementTable`, and the relay's queue becomes the class `Relay.IntermediateServer`. The alert client's shared list and set become `Alerts.AlertClient`. The receive loops, the memcpy, the dispatcher step and the dict-filling loop of `api_ultimas_mediciones` are methods. The receive loops, `ConsultaStep` and the dict-filling loop carry loop invariants and are proved against a specification function.

These are parameters, not models:
- sockets and the network;
- RSA signing and verification;
- JSON text, base64, `strptime` and the clocks.

A property proved for every value of such a parameter holds whatever the library does.

Modules:
- `Bytes`: little-endian integers and `int16`.
- `Decimal`: `str`, `%0wd`, `stoull`.
- `Calendar`: date-times, the two `strptime` formats and `str(datetime)`.
- `TextOrder`: text order and the stable descending sort.
- `Json`: Python values, exceptions and subscripts.
- `Sensor`, `Relay`, `Db`, `FinalServer`, `Alerts`: one per program or file.
- `Pipeline`: the programs end to end.

Four behaviours of the code differ from what one might expect, and the model follows the code:
- A reading whose send fails goes back to the **end** of `cola_envios` (`servidor_intermedio_py/main.py:99`), not to its front.
- The `mediciones` table has **no** uniqueness constraint (`servidor_final_py/db.py:10-19`).
- The C++ struct is not byte-packed, because `#pragma pack` is commented out (`cliente_sensor_cpp/main.cpp:34,42`). The relay still reads exactly 278 bytes of the longer packet.
- The final server does not check the relay's signature (`servidor_final_py/main.py:55-60`). The model stores a line whatever its `firma` holds.

## Model

| member | source | states |
|---|---|---|
| Sensor.Snprintf15 | cliente_sensor_cpp/main.cpp:48-49 | a 15-byte buffer keeps a prefix of the printed text of at most 14 characters |
| Sensor.DefFechaHora | cliente_sensor_cpp/main.cpp:45-53 | the packed timestamp is below 10^14 and so fits a `uint64` |
| Sensor.BufferBound | cliente_sensor_cpp/main.cpp:48-52 | whatever the fields print, `stoull` of the buffer reads digits only and a value below 10^14 |
| Sensor.DefFechaHoraValue | cliente_sensor_cpp/main.cpp:49-52 | with every field within its printed width, the value is Y·10^10 + Mo·10^8 + D·10^6 + H·10^4 + Mi·10^2 + S |
| Sensor.UnpackDefFechaHora | cliente_sensor_cpp/main.cpp:49-52 | division and remainder by powers of 100 recover the six clock fields from the packed value |
| Sensor.UnpackFields | cliente_sensor_cpp/main.cpp:49-51 | the decimal packing of six fields, each of the lower five below 100, unpacks to those fields |
| Sensor.DefFechaHoraDigits | cliente_sensor_cpp/main.cpp:48-51 | for years 1000 to 9999 the value has exactly 14 digits, which fit the buffer with its terminator |
| Sensor.GenerateRandomSensorData | cliente_sensor_cpp/main.cpp:86-99 | the struct carries the given id, a `fecha_hora` that unpacks to the clock, and the three given float words |
| Sensor.PackedImage | cliente_sensor_cpp/main.cpp:34-42 | the byte-packed struct image is 22 bytes |
| Sensor.PaddedImage | cliente_sensor_cpp/main.cpp:35-41 | the struct image under default 64-bit alignment is 32 bytes |
| Sensor.Memcpy | cliente_sensor_cpp/main.cpp:116-117 | `memcpy` overwrites exactly the target range with the source bytes and leaves the rest of the buffer as it was |
| Sensor.SendSensorPacket | cliente_sensor_cpp/main.cpp:102-149 | a failed signature returns false before any socket call; otherwise the packet is image then signature (length the sum), the socket calls are made in source order, and the result is true iff socket, connect and a positive send all succeed |
| Bytes.LeValueOfBytes | servidor_intermedio_py/main.py:50 | reading back an n-byte little-endian store of a value below 256^n gives the value |
| Bytes.LeBytesOfValue | servidor_intermedio_py/main.py:50 | storing the value read from bytes gives the same bytes |
| Bytes.ToInt16 | servidor_intermedio_py/main.py:50 | `struct` code `h` reads a 16-bit pattern as the int16 congruent to it modulo 2^16 |
| Bytes.FromInt16 | cliente_sensor_cpp/main.cpp:36 | the bit pattern of an `int16_t` reads back, as `h`, to the same value |
| Decimal.ValueShow | cliente_sensor_cpp/main.cpp:52 | reading back the decimal text of n gives n |
| Decimal.ShowValue | servidor_intermedio_py/main.py:51 | a digit string with no leading zero is `str` of its value |
| Decimal.ValuePad | cliente_sensor_cpp/main.cpp:49-51 | zero padding does not change the value read back |
| Decimal.PadLength | cliente_sensor_cpp/main.cpp:49-51 | `%0wd` of a value below 10^w is exactly w characters |
| Decimal.ShowLength | servidor_intermedio_py/main.py:51 | if 10^k <= n < 10^(k+1), then `str(n)` has k + 1 digits |
| Decimal.ShowLengthBounds | servidor_intermedio_py/main.py:51 | conversely, if a positive n's `str` has k + 1 digits, then 10^k <= n < 10^(k+1) |
| Calendar.DaysInMonth | servidor_intermedio_py/main.py:53 | months have 28 to 31 days, and 29 only for February of a leap year |
| Calendar.ParseCompact | servidor_intermedio_py/main.py:52-55 | an accepted 14-digit string is the packed text of a valid date-time |
| Calendar.CompactRoundTrip | servidor_intermedio_py/main.py:53 | the packed text of every valid date-time is 14 digits and parses back to that date-time |
| Calendar.ParseIso | cliente_alertas_py/cliente_alertas.py:307 | an accepted string is the rendering of a valid date-time |
| Calendar.RenderRoundTrip | cliente_alertas_py/cliente_alertas.py:307 | `str` of a valid date-time has the "YYYY-MM-DD HH:MM:SS" shape and parses back to it |
| Calendar.PadValue | servidor_intermedio_py/main.py:53 | reading a fixed-width digit field and printing it back at the same width is the identity |
| TextOrder.LeTransitive | servidor_final_py/db.py:42 | text order is transitive |
| TextOrder.LeAntisymmetric | servidor_final_py/db.py:42 | text order is antisymmetric |
| TextOrder.LeTotal | servidor_final_py/db.py:42 | any two texts are comparable |
| TextOrder.InsertDescSorted | cliente_alertas_py/cliente_alertas.py:319 | inserting into a descending sequence keeps it descending |
| TextOrder.InsertDescFilter | cliente_alertas_py/cliente_alertas.py:319 | insertion places an element after every element with an equal key |
| TextOrder.SortDescCorrect | cliente_alertas_py/cliente_alertas.py:319 | the descending sort is ordered, is a permutation, and keeps equal keys in input order |
| Json.Lookup | servidor_final_py/db.py:30-34 | a key is found iff present, and the value found is that of the last field with that key |
| Json.Subscript | servidor_final_py/db.py:30-34 | `value[key]` succeeds iff value is a dict holding key, and raises TypeError on a non-dict |
| Json.SubscriptAt | servidor_intermedio_py/main.py:56-62 | in a dict built with distinct keys, each key yields the value written with it |
| Relay.Pack | servidor_intermedio_py/main.py:50 | the `<hQfff` image of a record is 22 bytes |
| Relay.Unpack | servidor_intermedio_py/main.py:50 | decoding succeeds iff the payload is 22 bytes, raising `struct.error` otherwise; the id is bytes 0-1 as int16, the raw timestamp bytes 2-9 unsigned little-endian |
| Relay.UnpackPack | servidor_intermedio_py/main.py:50 | decoding the encoding of a record gives back its id, timestamp and three words |
| Relay.PackUnpack | servidor_intermedio_py/main.py:50 | every 22-byte payload is the encoding of the record it decodes to |
| Relay.TimestampText | servidor_intermedio_py/main.py:51-58 | the text is "0" iff the 14-digit parse of the decimal text of the raw value fails, and otherwise the 19-character rendering of the date-time it parses to |
| Relay.TimestampOfDate | servidor_intermedio_py/main.py:51-58 | a raw value whose digits are a valid date-time of year 1000 or later renders as exactly that date-time |
| Relay.ReadingJson | servidor_intermedio_py/main.py:56-62 | the dict has exactly the keys id, timestamp, temperatura, presion, humedad in that order, each holding the reading's field |
| Relay.ParsearDatosSensor | servidor_intermedio_py/main.py:49-62 | parsing succeeds iff the payload is 22 bytes (even when the 14-digit parse of the timestamp fails, which gives "0"); the id and rendered timestamp come from bytes 0-1 and 2-9 |
| Relay.ParsearPacked | servidor_intermedio_py/main.py:49-62 | the payload of any record parses to that record's id, rendered timestamp and words |
| Relay.FirmarDatos | servidor_intermedio_py/main.py:68-78 | the envelope has keys datos then firma; datos is the reading's dict; firma is the base64 of the signature over the compact serialisation of that dict |
| Relay.ReceiveFrame | servidor_intermedio_py/main.py:109-114 | the accumulated bytes are the first min(278, n) bytes of the stream; each read returns between 1 and 278 minus the bytes held; the reads join to the frame |
| Relay.Classify | servidor_intermedio_py/main.py:116-128 | a frame under 278 bytes is dropped as incomplete; a full one is payload + signature (22 + 256 bytes), parses to the reading, and is accepted iff the signature verifies for the decoded id |
| Relay.ClassifyRecordFrame | servidor_intermedio_py/main.py:120-128 | a frame made of a record's image and a 256-byte signature carries that record and is accepted iff its signature verifies |
| Relay.NextQueueSuccess | servidor_intermedio_py/main.py:86-96 | a successful send removes exactly the head |
| Relay.NextQueueFailure | servidor_intermedio_py/main.py:97-99 | a failed send keeps every pending reading, with the head moved to the back |
| Relay.RunNoLoss | servidor_intermedio_py/main.py:83-100 | over any run of arrivals and attempts, delivered plus pending readings are what was queued plus what arrived |
| Relay.RunAllSuccess | servidor_intermedio_py/main.py:83-100 | with every attempt succeeding and no arrivals, the first min(attempts, queued) readings are delivered in queue order and the rest stay queued |
| Relay.RetryReorders | servidor_intermedio_py/main.py:99 | after a failed attempt on a, the next success delivers b, queued after a |
| Relay.IntermediateServer.constructor | servidor_intermedio_py/main.py:80 | the queue starts empty |
| Relay.IntermediateServer.RecepcionTcp | servidor_intermedio_py/main.py:103-135 | the outcome is the classification of the first 278 bytes of the stream, and the queue grows by the reading iff it was accepted |
| Relay.IntermediateServer.EnviarDatosCola | servidor_intermedio_py/main.py:83-100 | an empty queue is left as it is; otherwise the head is sent as dumps(envelope) plus a newline and leaves the queue, or it is put back at the end when connecting or sending fails |
| Db.InitSpec | servidor_final_py/db.py:7-21 | init_db creates the table and keeps its rows |
| Db.InitIdempotent | servidor_final_py/db.py:7-21 | a second init_db changes nothing, and init_db keeps the table invariant |
| Db.ReadParams | servidor_final_py/db.py:29-35 | the parameter tuple is built iff the sensor is a dict holding all five keys, each value being what its subscript gives; a non-dict raises TypeError and a missing id raises KeyError |
| Db.Bind | servidor_final_py/db.py:26-35 | the parameters bind iff the id is an int, the timestamp a str and the three words floats, carrying those values; otherwise BindingError |
| Db.Columns | servidor_final_py/db.py:29-35 | the values of a stored row are those the five subscripts give; a non-dict raises TypeError and a missing id raises KeyError |
| Db.InsertOutcome | servidor_final_py/db.py:23-37 | an insert succeeds iff the parameters can be read and bound and the table exists; a subscript error comes first, then OperationalError for a missing table, then a binding error; a failed insert changes nothing; a successful one appends the row |
| Db.AppendRowKeepsInv | servidor_final_py/db.py:12 | an insert adds exactly one row with the given values after the unchanged old rows; its id exceeds every earlier id, and the invariant holds |
| Db.NoUniqueness | servidor_final_py/db.py:10-19 | inserting the same measurement twice yields two rows with the same sensor and timestamp under two increasing ids |
| Db.ObtenerSpec | servidor_final_py/db.py:39-45 | the read fails (OperationalError) iff there is no table; otherwise it returns a permutation of the rows in descending text order of timestamp |
| Db.MeasurementTable.constructor | servidor_final_py/db.py:5 | a fresh database file has no table |
| Db.MeasurementTable.InitDb | servidor_final_py/db.py:7-21 | the new state is init_db's, and the invariant holds |
| Db.MeasurementTable.InsertarMedicion | servidor_final_py/db.py:23-37 | the new state and result are the insert's, and the invariant holds |
| Db.MeasurementTable.ObtenerMediciones | servidor_final_py/db.py:39-45 | without changing the table, returns all rows, descending by timestamp, or OperationalError when there is no table |
| FinalServer.Cut | servidor_final_py/main.py:56 | the line is the bytes before the first newline and the new buffer is the bytes after it; the line holds no newline |
| FinalServer.CutUnique | servidor_final_py/main.py:56 | the cut is the only split of the buffer with a newline-free line |
| FinalServer.SplitLines | servidor_final_py/main.py:55-56 | the complete lines, each followed by a newline, then the newline-free tail, are the whole input |
| FinalServer.SplitJoin | servidor_final_py/main.py:55-56 | newline-free lines written back with newlines are recovered in order, whatever follows them |
| FinalServer.Framing | servidor_final_py/main.py:48-56 | lines so far are a prefix of all complete lines, and all of them when the buffer holds no newline |
| FinalServer.JoinCut | servidor_final_py/main.py:56 | one cut moves a line, with its newline, from the buffer to the lines, and keeps lines-then-buffer unchanged |
| FinalServer.HandleLine | servidor_final_py/main.py:57-60 | the corrected handler, which stores the reading under datos: a line is stored iff it parses, has a datos entry, and that entry inserts; a failing line leaves the table unchanged |
| FinalServer.Handle | servidor_final_py/main.py:57-60 | under either handler, a line that raises leaves the table unchanged |
| FinalServer.HandleLineAppends | servidor_final_py/main.py:57-60 | under either handler, handling a line keeps the table invariant, and a handled line appends exactly one row after the unchanged old rows |
| FinalServer.HandleAllAppends | servidor_final_py/main.py:55-66 | under either handler, a connection's lines only append, at most one row per line, exactly one per line when none fails |
| FinalServer.HandleAllSnoc | servidor_final_py/main.py:65-66 | under either handler, after an exception no further line is handled |
| FinalServer.HandleLineAsWritten | servidor_final_py/main.py:57-60 | the handler as written always ends in an exception |
| FinalServer.AsWrittenStoresNothing | servidor_final_py/main.py:59-60 | as written, a line leaves the table unchanged and raises ValueError if it is not JSON and TypeError otherwise |
| FinalServer.AsWrittenStopsAtFirst | servidor_final_py/main.py:55-66 | as written, a connection's lines leave the table unchanged and end at the first line, with ValueError if it is not JSON and TypeError otherwise; no line, no exception |
| FinalServer.HandleOne | servidor_final_py/main.py:57-60 | the table after one line and its exception are the given handler's: as written the envelope's base64 text is inserted, corrected the reading under datos |
| FinalServer.DrainLines | servidor_final_py/main.py:55-60 | under either handler, the inner loop keeps lines-then-buffer equal to what it started from and only newline-free lines, leaves no newline in the buffer unless a line failed, and the table is that of handling the lines in order, the last one failing if any did |
| FinalServer.ReceiveLoop | servidor_final_py/main.py:50-60 | under either handler, lines extracted, each with its newline, then the buffer, are exactly the chunks received so far, in order; the loop ends at an empty read or the first exception |
| FinalServer.RecepcionDatos | servidor_final_py/main.py:46-66 | without an exception the extracted lines and buffer are the framing of all bytes received up to the empty read; with one, the lines are a prefix of that framing whose last line failed and all earlier succeeded; the table is that of handling the lines in arrival order. As written, the table is unchanged, and the connection ends at the first complete line of what was received, which is the only line extracted and raises TypeError (ValueError if not JSON); with no complete line nothing is raised |
| FinalServer.FramingOf | servidor_final_py/main.py:48-56 | lines-then-buffer equal to the received bytes puts the lines first among all complete lines, and makes them all when the buffer has no newline |
| FinalServer.RowRecord | servidor_final_py/main.py:76-83 | a record has keys id, sensor_id, timestamp, temperatura, presion, humedad in that order, holding row positions 0 to 5 |
| FinalServer.ApiMediciones | servidor_final_py/main.py:72-86 | one record per row, same length and order, each describing its row |
| FinalServer.ApiMedicionesOfTable | servidor_final_py/main.py:72-86 | over the table read by obtener_mediciones: OperationalError iff there is no table; otherwise one record per table row, each row taken once, newest timestamp first |
| Alerts.VerificarAlertas | cliente_alertas_py/cliente_alertas.py:49-61 | at most three alerts, in the order temperature, pressure, humidity, each carrying the measurement's timestamp, sensor and value; a quantity alerts iff it lies outside its inclusive range |
| Alerts.NoAlertIffInRange | cliente_alertas_py/cliente_alertas.py:52-59 | no alert iff all three quantities lie within their bounds, the bounds included |
| Alerts.Consulta | cliente_alertas_py/cliente_alertas.py:79-85 | one pass keeps every known key and adds at most three alerts per measurement |
| Alerts.ConsultaIds | cliente_alertas_py/cliente_alertas.py:79-85 | a key becomes known iff some measurement with that key raises an alert |
| Alerts.ConsultaQuiet | cliente_alertas_py/cliente_alertas.py:81-83 | measurements that are known or within range add no alert and no key |
| Alerts.ConsultaIdempotent | cliente_alertas_py/cliente_alertas.py:79-85 | polling the same list again adds nothing |
| Alerts.ConsultaAlerts | cliente_alertas_py/cliente_alertas.py:79-85 | a pass's new alerts are exactly, in list order, all the alerts of each measurement that alerts, whose key was not known, and that no earlier alerting measurement with the same key precedes |
| Alerts.ConsultaSources | cliente_alertas_py/cliente_alertas.py:79-85 | every new alert comes from a listed measurement whose key was not known |
| Alerts.AlertClient.constructor | cliente_alertas_py/cliente_alertas.py:31-32 | no alerts and no keys at start |
| Alerts.AlertClient.ConsultaStep | cliente_alertas_py/cliente_alertas.py:76-88 | alertas_activas grows by the pass's new alerts after its unchanged old contents; alertas_ids becomes the pass's key set |
| Alerts.ApiAlertas | cliente_alertas_py/cliente_alertas.py:297 | the last min(20, n) alerts, a suffix of the list |
| Alerts.ApiAlertasWindow | cliente_alertas_py/cliente_alertas.py:297 | the window of a list with alerts appended depends only on the old window |
| Alerts.ApiTablaMediciones | cliente_alertas_py/cliente_alertas.py:319 | a permutation of the list, descending by timestamp text, stable among equal timestamps |
| Alerts.UpsertStep | cliente_alertas_py/cliente_alertas.py:310 | assigning `sensores[id] = d` keeps one entry per sensor and every other entry in place, and makes d the entry for its sensor |
| Alerts.Ultimas | cliente_alertas_py/cliente_alertas.py:303-312 | the only exception is ValueError |
| Alerts.UltimasError | cliente_alertas_py/cliente_alertas.py:307 | the request fails iff some timestamp does not parse |
| Alerts.UltimasLatest | cliente_alertas_py/cliente_alertas.py:303-312 | at most one entry per sensor, and each entry is the last measurement of its sensor within 30 seconds of now |
| Alerts.UltimasComplete | cliente_alertas_py/cliente_alertas.py:303-312 | every sensor with a measurement within 30 seconds of now has an entry |
| Alerts.MirrorsUpsert | cliente_alertas_py/cliente_alertas.py:310 | the dict assignment and the sequence update agree on the values in key insertion order |
| Alerts.MirrorsValues | cliente_alertas_py/cliente_alertas.py:312 | `list(sensores.values())` is the sequence of values in key order |
| Alerts.UltimasStep | cliente_alertas_py/cliente_alertas.py:306-310 | one more element either raises, is skipped as stale, or is written into the dict |
| Alerts.UltimasAdvance | cliente_alertas_py/cliente_alertas.py:306-310 | one loop step keeps the dict mirroring the result computed so far |
| Alerts.ApiUltimasMediciones | cliente_alertas_py/cliente_alertas.py:300-312 | the loop's result is the specified Ultimas for the 19-character parser |
| Pipeline.ClockRoundTrip | cliente_sensor_cpp/main.cpp:45-53 | the sensor's packed clock, rendered by the relay, is "YYYY-MM-DD HH:MM:SS" of that clock |
| Pipeline.Received | servidor_intermedio_py/main.py:109-114 | the relay holds at most 278 bytes of a connection |
| Pipeline.PackedFrameDelivers | cliente_sensor_cpp/main.cpp:114-117 | a byte-packed packet is 278 bytes, read whole, carries the struct's id, rendered timestamp and words, and is queued iff its signature verifies |
| Pipeline.PackedClockDelivers | cliente_sensor_cpp/main.cpp:92-94 | with a byte-packed struct, a reading taken at a valid clock reaches the relay with that clock's text |
| Pipeline.PaddedPayload | cliente_sensor_cpp/main.cpp:35-41 | in the padded image, bytes 0-1 are the id and bytes 2-9 are six padding bytes and the low two bytes of fecha_hora |
| Pipeline.WidePayloadDropped | servidor_intermedio_py/main.py:51-55 | a payload whose bytes 2-9 hold 2^48 or more parses with timestamp "0" |
| Pipeline.PaddedFrameRead | servidor_intermedio_py/main.py:116-124 | the 288-byte padded packet is taken as a full frame, parsed from its first 22 bytes and verified against 10 image bytes plus 246 signature bytes |
| Pipeline.PaddedPayloadMisread | cliente_sensor_cpp/main.cpp:35-41 | the relay decodes the padded image's id correctly and the wrong bytes as the timestamp |
| Pipeline.PaddedTimestampDropped | cliente_sensor_cpp/main.cpp:35-41 | a padded image whose fecha_hora has nonzero low 16 bits yields timestamp "0" |
| Pipeline.PaddedFrameMisread | cliente_sensor_cpp/main.cpp:34-42 | as written, such a packet reaches the relay with timestamp "0", whatever the padding |
| Pipeline.PaddedClockLost | cliente_sensor_cpp/main.cpp:34-42 | a reading at 2024-05-17 12:30:45 reaches the relay, as written, with timestamp "0" |
| Pipeline.PackedClockKept | cliente_sensor_cpp/main.cpp:34-42 | the same reading, byte-packed, reaches the relay as "2024-05-17 12:30:45" |
| Pipeline.DeliveredLineStored | servidor_final_py/main.py:57-60 | the relay's envelope line, handled by the corrected handler, appends one row with the reading's id, timestamp and words |
| Pipeline.DeliveredLineAsWritten | servidor_final_py/main.py:59-60 | the same line, handled as written, stores nothing and raises TypeError |
| Pipeline.SingleLineFramed | servidor_final_py/main.py:55-56 | a newline-free line and its newline frame as that line with an empty buffer |
| Pipeline.DeliveredConnection | servidor_intermedio_py/main.py:94-95 | the dispatcher's bytes frame as the one envelope line with nothing left over; the corrected handler stores the reading, while the handler as written raises TypeError on that line and stores nothing |

## Left out

- Sockets, `accept` loops, threads, timeouts and `time.sleep` back-off are I/O and timing. Each receive or send result is a parameter of the operation that uses it, and the queue is modelled sequentially.
- Connection errors raised by `recv`, such as a reset, are not modelled. In `recepcion_tcp` and `recepcion_datos` they would end the handler like any other exception.
- The sensor's `main` loop is I/O and a 5-second sleep (`cliente_sensor_cpp/main.cpp:152-171`). It sends one reading per iteration.
- `obtener_ip_servidor`, `consultar_api`'s HTTP request and the configuration file are I/O. A failed request gives the empty list, which `ConsultaStep` and `ApiUltimasMediciones` accept like any other list.
- RSA signing and verification (RSASSA-PKCS1-v1_5 with SHA-256, section 8.2 of RFC 8017), PEM key files, base64 (section 4 of RFC 4648) and JSON text (RFC 8259) are parameters of the operations that call them. Their results are not interpreted.
- `signData` is commented out (`cliente_sensor_cpp/main.cpp:56-84`) but is still called at line 109. Its result is the `sign` parameter of `Sensor.SendSensorPacket`.
- Floating point is not modelled. The relay and the final server carry the three floats as 32-bit words; IEEE-754 meaning, JSON float text and random generation are left out. The alert client compares values as `real`, so NaN comparisons are not modelled.
- Calendar.ParseCompact: it accepts only strings of exactly 14 digits. Python's `strptime` with "%Y%m%d%H%M%S" also accepts some 9- to 13-digit strings through single-digit fields. `defFechaHora` produces 14 digits for every year from 1000 on.
- Calendar.ParseIso: it accepts only the 19-character zero-padded form, which is what the relay and the final server emit. `strptime`'s other lenient inputs are left out.
- Sensor.DefFechaHora: the clock is a parameter in place of `localtime`. The value lemmas require `Sensor.FieldsFit`, which says every field fits its printed width. A year past 9999 is cut off by the 15-byte buffer, as `Sensor.Snprintf15` models, and no value lemma covers it.
- Relay.TimestampText: the decimal text of the raw value is parsed as exactly 14 digits (Calendar.ParseCompact). `strptime` also accepts some 9- to 13-digit texts: raw 202411111111 renders as "2024-11-11 11:01:01" in the source and as "0" in the model.
- Relay.ParsearDatosSensor: its timestamp is `Relay.TimestampText`'s, so it shares the 9- to 13-digit difference above.
- Alerts.VerificarAlertas: an alert is its timestamp, sensor, quantity and value. The message text built from them is not modelled.
- Alerts.Consulta: a measurement lacking a field, or with a non-numeric value, would raise in the source. The model's measurement record always has every field.
- Alerts.Ultimas: `datetime.now()` is the parameter `now`, and times are compared as seconds since year 1 (naive local time). A `d['timestamp']` that is not a string, or a missing key, is not modelled.
- Db.Columns, Db.Bind: the SQLite binding check is simplified. An `int` id, `str` timestamp and float words bind, and any other kind of value gives `BindingError`. SQLite itself would also bind other scalar kinds.
- Db.ObtenerSpec: SQLite leaves the order of rows with equal timestamps unspecified. The model returns them in insertion order, which is one of the allowed orders.
- FinalServer.HandleLine: the corrected handler does not model the print at `servidor_final_py/main.py:61`. That print subscripts `id` on the envelope, which has no such key, and so would raise KeyError after the row is stored.
- `servidor_final_py/main.py:5` imports `inicializar_db`, but `db.py` defines `init_db` (`servidor_final_py/db.py:7`). As written, the import fails when the program starts. The model starts from a table created by `Db.MeasurementTable.InitDb`.
- The OPC UA servers are not part of this model (`servidor_final_py/opcua_servidor.py`, `cliente_alertas_py/opcua_servidor.py`). They read `rows[-1]`, which after the descending sort is the oldest row.
- The Flask dashboard and its HTML and JavaScript (`cliente_alertas_py/cliente_alertas.py:96-293`) are user interface.
- Compiler-specific struct layouts are not modelled. `Sensor.PaddedImage` is the usual 64-bit layout: six padding bytes after `id`, so the 8-byte `fecha_hora` is at offset 8, and 4 bytes of tail padding. `Sensor.PackedImage` is the layout the commented-out pragma would give.

## Findings

| source | as written | input that shows it | evidently intended | confidence | as-written member | corrected member |
|---|---|---|---|---|---|---|
| cliente_sensor_cpp/main.cpp:34-42 | `#pragma pack(push, 1)` is commented out. `SensorData` gets padding after `id` and at the end, so the packet is 288 bytes. The relay reads 278 of them and decodes bytes 2-9 (six padding bytes and the low two bytes of `fecha_hora`) as the timestamp. Signature verification is expected to reject these packets as well: `verificar_firma` checks the first 22 of the 32 signed bytes against a signature shifted by 10 bytes. The model cannot show that rejection, because verification is a parameter | id 7 at 2024-05-17 12:30:45: `fecha_hora` 20240517123045 has low 16 bits 19429, so the relay renders the timestamp as "0" whatever the padding | the byte-packed 22-byte struct that `<hQfff` reads | not executed; assumes the usual 64-bit alignment | Pipeline.PaddedClockLost | Pipeline.PackedClockKept |
| servidor_final_py/main.py:59-60 | the parsed envelope is dumped, base64-encoded and passed as a `str` to `insertar_medicion`, whose `sensor['id']` raises TypeError on a string | any line the relay sends, `{"datos": {...}, "firma": "..."}`: no row is stored and the connection ends | store the reading under `datos` | not executed | FinalServer.AsWrittenStoresNothing | Pipeline.DeliveredLineStored |
