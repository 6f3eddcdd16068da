/**
 * The final server (servidor_final_py/main.py): recepcion_datos reads a
 * connection chunk by chunk into a growing buffer, cuts it at each newline
 * and stores the reading each line carries; api_mediciones turns table rows
 * into records.
 */
module FinalServer {
  import opened Wrappers
  import opened Bytes
  import opened Json
  import opened Db
  import TextOrder

  const NL: byte := 10

  /** `buffer.split(b'\n', 1)` on a buffer holding a newline: the bytes before the first one, and those after it. */
  function Cut(buffer: seq<byte>): (r: (seq<byte>, seq<byte>))
    requires NL in buffer
    ensures r.0 + [NL] + r.1 == buffer
    ensures NL !in r.0
  {
    if buffer[0] == NL then ([], buffer[1..])
    else
      var (line, rest) := Cut(buffer[1..]);
      assert [buffer[0]] + line + [NL] + rest == buffer;
      ([buffer[0]] + line, rest)
  }

  /** The cut is at the first newline: it is the only split with a newline-free line. */
  lemma {:induction false} CutUnique(line: seq<byte>, rest: seq<byte>)
    requires NL !in line
    ensures Cut(line + [NL] + rest) == (line, rest)
  {
    if line != [] {
      assert (line + [NL] + rest)[1..] == line[1..] + [NL] + rest;
      CutUnique(line[1..], rest);
      assert [line[0]] + line[1..] == line;
    }
  }

  /** Lines written back with a newline after each. */
  function JoinLines(lines: seq<seq<byte>>): seq<byte>
  {
    if lines == [] then [] else lines[0] + [NL] + JoinLines(lines[1..])
  }

  lemma {:induction false} JoinLinesAppend(lines: seq<seq<byte>>, line: seq<byte>)
    ensures JoinLines(lines + [line]) == JoinLines(lines) + line + [NL]
  {
    if lines != [] {
      assert (lines + [line])[1..] == lines[1..] + [line];
      JoinLinesAppend(lines[1..], line);
    }
  }

  /** All complete lines of a byte string, and the unterminated tail. */
  function SplitLines(s: seq<byte>): (r: (seq<seq<byte>>, seq<byte>))
    ensures JoinLines(r.0) + r.1 == s
    ensures NL !in r.1
    ensures forall k | 0 <= k < |r.0| :: NL !in r.0[k]
    decreases |s|
  {
    if NL !in s then ([], s)
    else
      var cut := Cut(s);
      var more := SplitLines(cut.1);
      PrependLine(cut.0, more.0, more.1);
      ([cut.0] + more.0, more.1)
  }

  /** Putting a newline-free line in front of newline-free lines written back before a tail. */
  lemma PrependLine(line: seq<byte>, lines: seq<seq<byte>>, tail: seq<byte>)
    requires NL !in line
    requires forall k | 0 <= k < |lines| :: NL !in lines[k]
    ensures JoinLines([line] + lines) + tail == line + [NL] + (JoinLines(lines) + tail)
    ensures forall k | 0 <= k < |[line] + lines| :: NL !in ([line] + lines)[k]
  {
    JoinCons(line, lines);
    assert forall k | 1 <= k < |[line] + lines| :: ([line] + lines)[k] == lines[k - 1];
  }

  lemma JoinCons(line: seq<byte>, lines: seq<seq<byte>>)
    ensures JoinLines([line] + lines) == line + [NL] + JoinLines(lines)
  {
    assert ([line] + lines)[0] == line && ([line] + lines)[1..] == lines;
  }

  /** A newline-free line, a newline, then anything: that line comes first. */
  lemma SplitCons(line: seq<byte>, after: seq<byte>)
    requires NL !in line
    ensures SplitLines(line + [NL] + after) == ([line] + SplitLines(after).0, SplitLines(after).1)
  {
    var s := line + [NL] + after;
    assert s[|line|] == NL;
    CutUnique(line, after);
  }

  /**
   * Splitting newline-free lines written back with newlines, followed by any
   * bytes, gives those lines first: lines are recovered in order and
   * nothing from one line leaks into another.
   */
  lemma {:induction false} SplitJoin(lines: seq<seq<byte>>, rest: seq<byte>)
    requires forall k | 0 <= k < |lines| :: NL !in lines[k]
    ensures SplitLines(JoinLines(lines) + rest) == (lines + SplitLines(rest).0, SplitLines(rest).1)
  {
    if lines != [] {
      var after := JoinLines(lines[1..]) + rest;
      assert JoinLines(lines) + rest == lines[0] + [NL] + after;
      SplitCons(lines[0], after);
      assert forall k | 0 <= k < |lines[1..]| :: lines[1..][k] == lines[k + 1];
      SplitJoin(lines[1..], rest);
      var more := SplitLines(rest).0;
      ConsAppend(lines, more);
      calc {
        SplitLines(JoinLines(lines) + rest);
        SplitLines(lines[0] + [NL] + after);
        ([lines[0]] + SplitLines(after).0, SplitLines(after).1);
        ([lines[0]] + (lines[1..] + more), SplitLines(rest).1);
        (lines + more, SplitLines(rest).1);
      }
    } else {
      assert JoinLines(lines) + rest == rest;
      assert lines + SplitLines(rest).0 == SplitLines(rest).0;
    }
  }

  lemma ConsAppend<T>(s: seq<T>, t: seq<T>)
    requires s != []
    ensures [s[0]] + (s[1..] + t) == s + t
  {
    assert s == [s[0]] + s[1..];
  }

  /**
   * Newline-free lines each followed by a newline, then a buffer: those lines
   * are the first complete lines of the whole, and all of them when the
   * buffer holds no newline.
   */
  lemma Framing(lines: seq<seq<byte>>, buffer: seq<byte>)
    requires forall k | 0 <= k < |lines| :: NL !in lines[k]
    ensures var split := SplitLines(JoinLines(lines) + buffer);
      && |lines| <= |split.0| && split.0[..|lines|] == lines
      && (NL !in buffer ==> split == (lines, buffer))
  {
    SplitJoin(lines, buffer);
    var split := SplitLines(JoinLines(lines) + buffer);
    assert split.0[..|lines|] == lines;
    if NL !in buffer {
      SplitNone(buffer);
      assert lines + [] == lines;
    }
  }

  /** A tail without newline holds no complete line. */
  lemma SplitNone(rest: seq<byte>)
    requires NL !in rest
    ensures SplitLines(rest) == ([], rest)
  {
  }

  /**
   * One line as the handler should treat it: `json.loads` (a `ValueError`
   * when the bytes are not JSON text), then the reading under "datos" is
   * stored. The first failure is the exception that ends the handler.
   */
  function HandleLine(t: Table, line: seq<byte>, loads: seq<byte> -> Option<Json>): (r: (Table, Option<PyError>))
    ensures r.1.Some? ==> r.0 == t
    ensures r.1.None? <==> loads(line).Some? && Subscript(loads(line).value, "datos").Ok?
                           && InsertSpec(t, Subscript(loads(line).value, "datos").value).1.Ok?
  {
    match loads(line)
    case None => (t, Some(ValueError))
    case Some(envelope) =>
      match Subscript(envelope, "datos")
      case Err(e) => (t, Some(e))
      case Ok(datos) =>
        InsertOutcome(t, datos);
        if InsertSpec(t, datos).1.Err? then (t, Some(InsertSpec(t, datos).1.error))
        else (InsertSpec(t, datos).0, None)
  }

  /**
   * The line handler a connection runs: the one written at
   * servidor_final_py/main.py:57-60, which passes the base64 text of the
   * dumped envelope to insertar_medicion (`encode` stands for
   * `base64.b64encode(json.dumps(...))`), or the corrected one, which passes
   * the reading under "datos".
   */
  datatype Handler = AsWritten(encode: Json -> string) | Corrected

  /** One line under handler `h`; a line that raises leaves the table as it was. */
  function Handle(h: Handler, t: Table, line: seq<byte>, loads: seq<byte> -> Option<Json>): (r: (Table, Option<PyError>))
    ensures r.1.Some? ==> r.0 == t
  {
    match h
    case AsWritten(encode) => HandleLineAsWritten(t, line, loads, encode)
    case Corrected => HandleLine(t, line, loads)
  }

  /** A handled line appends exactly the one row its reading makes, and keeps the table invariant. */
  lemma HandleLineAppends(h: Handler, t: Table, line: seq<byte>, loads: seq<byte> -> Option<Json>)
    requires Inv(t)
    ensures var r := Handle(h, t, line, loads);
      && Inv(r.0)
      && (r.1.None? ==> |r.0.rows| == |t.rows| + 1 && r.0.rows[..|t.rows|] == t.rows)
  {
    var r := Handle(h, t, line, loads);
    if h.Corrected? && r.1.None? {
      var datos := Subscript(loads(line).value, "datos").value;
      InsertOutcome(t, datos);
      AppendRowKeepsInv(t, Columns(datos).value);
    }
  }

  /**
   * The lines of one connection handled in order by `h`: the table after
   * them and the exception, if any, that stopped the handler; lines after a
   * failing one are never handled.
   */
  function HandleAll(h: Handler, t: Table, lines: seq<seq<byte>>, loads: seq<byte> -> Option<Json>): (r: (Table, Option<PyError>))
  {
    if lines == [] then (t, None)
    else
      var before := HandleAll(h, t, lines[..|lines| - 1], loads);
      if before.1.Some? then before else Handle(h, before.0, lines[|lines| - 1], loads)
  }

  /**
   * Handling lines only ever appends rows, at most one per line; when every
   * line succeeds, exactly one per line.
   */
  lemma {:induction false} HandleAllAppends(h: Handler, t: Table, lines: seq<seq<byte>>, loads: seq<byte> -> Option<Json>)
    requires Inv(t)
    ensures var r := HandleAll(h, t, lines, loads);
      && Inv(r.0)
      && |t.rows| <= |r.0.rows| <= |t.rows| + |lines|
      && r.0.rows[..|t.rows|] == t.rows
      && (r.1.None? ==> |r.0.rows| == |t.rows| + |lines|)
  {
    if lines != [] {
      var init := lines[..|lines| - 1];
      HandleAllAppends(h, t, init, loads);
      var before := HandleAll(h, t, init, loads);
      if before.1.None? {
        HandleLineAppends(h, before.0, lines[|lines| - 1], loads);
        var r := Handle(h, before.0, lines[|lines| - 1], loads);
        if r.1.None? {
          assert r.0.rows[..|t.rows|] == r.0.rows[..|before.0.rows|][..|t.rows|];
        }
      }
    }
  }

  /**
   * The handler as written: the parsed envelope is dumped and base64-encoded,
   * and that string is passed to insertar_medicion, whose `sensor['id']` on
   * a `str` raises TypeError.
   */
  function HandleLineAsWritten(t: Table, line: seq<byte>, loads: seq<byte> -> Option<Json>, encode: Json -> string)
    : (r: (Table, Option<PyError>))
    ensures r.1.Some?
  {
    match loads(line)
    case None => (t, Some(ValueError))
    case Some(sensorData) =>
      var codificado := JStr(encode(sensorData));
      var (t', res) := InsertSpec(t, codificado);
      if res.Err? then (t', Some(res.error))
      else assert false; (t', None)
  }

  /**
   * As written, no line is ever stored: a line that parses fails with
   * TypeError, so the connection ends at its first line with the table
   * unchanged, even for the relay's well-formed envelopes.
   */
  lemma AsWrittenStoresNothing(t: Table, line: seq<byte>, loads: seq<byte> -> Option<Json>, encode: Json -> string)
    ensures HandleLineAsWritten(t, line, loads, encode).0 == t
    ensures HandleLineAsWritten(t, line, loads, encode).1 == Some(if loads(line).None? then ValueError else TypeError)
  {
  }

  /**
   * As written, a connection ends at its first complete line: that line
   * raises (ValueError when it is not JSON, TypeError when it is) and the
   * table is unchanged; with no complete line nothing happens.
   */
  lemma {:induction false} AsWrittenStopsAtFirst(t: Table, lines: seq<seq<byte>>, loads: seq<byte> -> Option<Json>, encode: Json -> string)
    ensures HandleAll(AsWritten(encode), t, lines, loads)
         == (t, if lines == [] then None else Some(if loads(lines[0]).None? then ValueError else TypeError))
  {
    if lines != [] {
      var init := lines[..|lines| - 1];
      AsWrittenStopsAtFirst(t, init, loads, encode);
      if init == [] {
        AsWrittenStoresNothing(t, lines[0], loads, encode);
      } else {
        assert init[0] == lines[0];
      }
    }
  }

  /** Handling one more line: nothing after an exception, else that line's outcome. */
  lemma HandleAllSnoc(h: Handler, t: Table, lines: seq<seq<byte>>, line: seq<byte>, loads: seq<byte> -> Option<Json>)
    ensures HandleAll(h, t, lines + [line], loads)
         == if HandleAll(h, t, lines, loads).1.Some? then HandleAll(h, t, lines, loads)
            else Handle(h, HandleAll(h, t, lines, loads).0, line, loads)
  {
    assert (lines + [line])[..|lines|] == lines;
  }

  /** Cutting one line off the buffer moves it, with its newline, from the buffer to the lines. */
  lemma JoinCut(lines: seq<seq<byte>>, buffer: seq<byte>)
    requires NL in buffer
    ensures JoinLines(lines + [Cut(buffer).0]) + Cut(buffer).1 == JoinLines(lines) + buffer
  {
    var (line, rest) := Cut(buffer);
    JoinLinesAppend(lines, line);
    assert JoinLines(lines) + line + [NL] + rest == JoinLines(lines) + (line + [NL] + rest);
  }

  /**
   * The body of the inner loop for one line: parse, then store, as written
   * the base64 text of the envelope, corrected the reading under "datos".
   */
  method HandleOne(h: Handler, db: MeasurementTable, line: seq<byte>, loads: seq<byte> -> Option<Json>)
    returns (failure: Option<PyError>)
    requires db.Valid()
    modifies db
    ensures db.Valid()
    ensures (db.State(), failure) == Handle(h, old(db.State()), line, loads)
  {
    var parsed := loads(line);
    if parsed.None? {
      return Some(ValueError);
    }
    var stored;
    if h.AsWritten? {
      stored := db.InsertarMedicion(JStr(h.encode(parsed.value)));
    } else {
      var datos := Subscript(parsed.value, "datos");
      if datos.Err? {
        return Some(datos.error);
      }
      InsertOutcome(db.State(), datos.value);
      stored := db.InsertarMedicion(datos.value);
    }
    failure := if stored.Err? then Some(stored.error) else None;
  }

  /**
   * The inner loop of recepcion_datos: while the buffer holds a newline, cut
   * off the first line and handle it, stopping at the first exception.
   */
  method DrainLines(h: Handler, db: MeasurementTable, lines0: seq<seq<byte>>, buffer0: seq<byte>,
                    loads: seq<byte> -> Option<Json>, ghost start: Table)
    returns (lines: seq<seq<byte>>, buffer: seq<byte>, failure: Option<PyError>)
    requires db.Valid()
    requires forall k | 0 <= k < |lines0| :: NL !in lines0[k]
    requires HandleAll(h, start, lines0, loads) == (db.State(), None)
    modifies db
    ensures db.Valid()
    ensures JoinLines(lines) + buffer == JoinLines(lines0) + buffer0
    ensures forall k | 0 <= k < |lines| :: NL !in lines[k]
    ensures failure.None? ==> NL !in buffer
    ensures (db.State(), failure) == HandleAll(h, start, lines, loads)
    ensures failure.Some? ==> lines != [] && HandleAll(h, start, lines[..|lines| - 1], loads).1.None?
  {
    lines, buffer, failure := lines0, buffer0, None;
    while NL in buffer && failure.None?
      invariant JoinLines(lines) + buffer == JoinLines(lines0) + buffer0
      invariant forall k | 0 <= k < |lines| :: NL !in lines[k]
      invariant db.Valid()
      invariant (db.State(), failure) == HandleAll(h, start, lines, loads)
      invariant failure.Some? ==> lines != [] && HandleAll(h, start, lines[..|lines| - 1], loads).1.None?
      decreases |buffer|
    {
      var cut := Cut(buffer);
      DrainStep(h, start, lines, buffer, loads);
      lines := lines + [cut.0];
      buffer := cut.1;
      failure := HandleOne(h, db, cut.0, loads);
    }
  }

  /** What one turn of the inner loop does to the lines handled so far and the buffer. */
  lemma DrainStep(h: Handler, start: Table, lines: seq<seq<byte>>, buffer: seq<byte>, loads: seq<byte> -> Option<Json>)
    requires NL in buffer
    requires forall k | 0 <= k < |lines| :: NL !in lines[k]
    requires HandleAll(h, start, lines, loads).1.None?
    ensures var cut := Cut(buffer);
      var lines' := lines + [cut.0];
      && JoinLines(lines') + cut.1 == JoinLines(lines) + buffer
      && (forall k | 0 <= k < |lines'| :: NL !in lines'[k])
      && lines'[..|lines|] == lines
      && HandleAll(h, start, lines', loads) == Handle(h, HandleAll(h, start, lines, loads).0, cut.0, loads)
  {
    var cut := Cut(buffer);
    HandleAllSnoc(h, start, lines, cut.0, loads);
    JoinCut(lines, buffer);
    assert (lines + [cut.0])[..|lines|] == lines;
  }

  /** A received chunk lands at the end of the buffer, after everything read before it. */
  lemma ReceiveStep(chunks: seq<seq<byte>>, consumed: nat, handled: seq<byte>, buffer: seq<byte>)
    requires consumed < |chunks|
    requires handled + buffer == Flatten(chunks[..consumed])
    ensures handled + (buffer + chunks[consumed]) == Flatten(chunks[..consumed + 1])
  {
    FlattenStep(chunks, consumed);
    assert handled + (buffer + chunks[consumed]) == (handled + buffer) + chunks[consumed];
  }

  /**
   * The outer loop of recepcion_datos: append each chunk to the buffer and
   * drain the complete lines, until the peer closes or a line fails.
   */
  method ReceiveLoop(h: Handler, db: MeasurementTable, chunks: seq<seq<byte>>, loads: seq<byte> -> Option<Json>,
                     ghost start: Table)
    returns (lines: seq<seq<byte>>, buffer: seq<byte>, failure: Option<PyError>, consumed: nat)
    requires db.Valid() && db.State() == start
    modifies db
    ensures db.Valid()
    ensures consumed <= |chunks|
    ensures JoinLines(lines) + buffer == Flatten(chunks[..consumed])
    ensures forall k | 0 <= k < |lines| :: NL !in lines[k]
    ensures failure.None? ==> NL !in buffer && (consumed == |chunks| || chunks[consumed] == [])
    ensures (db.State(), failure) == HandleAll(h, start, lines, loads)
    ensures failure.Some? ==> lines != [] && HandleAll(h, start, lines[..|lines| - 1], loads).1.None?
  {
    lines, buffer, failure, consumed := [], [], None, 0;
    while failure.None?
      invariant consumed <= |chunks|
      invariant JoinLines(lines) + buffer == Flatten(chunks[..consumed])
      invariant forall k | 0 <= k < |lines| :: NL !in lines[k]
      invariant failure.None? ==> NL !in buffer
      invariant db.Valid()
      invariant (db.State(), failure) == HandleAll(h, start, lines, loads)
      invariant failure.Some? ==> lines != [] && HandleAll(h, start, lines[..|lines| - 1], loads).1.None?
      decreases |chunks| - consumed
    {
      if consumed == |chunks| || chunks[consumed] == [] {
        break;
      }
      ReceiveStep(chunks, consumed, JoinLines(lines), buffer);
      lines, buffer, failure := DrainLines(h, db, lines, buffer + chunks[consumed], loads, start);
      consumed := consumed + 1;
    }
  }

  /**
   * recepcion_datos on one connection. `chunks` are the successive results
   * of `conex.recv(1024)`; an empty chunk, or the end of `chunks`, is the
   * peer closing. Each chunk is appended to the buffer and every complete
   * line is cut off and handled, in arrival order; the first exception ends
   * the handler and whatever is still buffered is dropped. As written
   * (`h` is AsWritten) that happens at the first complete line, and no row
   * is ever stored.
   */
  method RecepcionDatos(h: Handler, db: MeasurementTable, chunks: seq<seq<byte>>, loads: seq<byte> -> Option<Json>)
    returns (lines: seq<seq<byte>>, buffer: seq<byte>, failure: Option<PyError>, consumed: nat)
    requires db.Valid()
    modifies db
    ensures db.Valid()
    ensures consumed <= |chunks|
    ensures JoinLines(lines) + buffer == Flatten(chunks[..consumed])
    ensures forall k | 0 <= k < |lines| :: NL !in lines[k]
    ensures failure.None? ==> consumed == |chunks| || chunks[consumed] == []
    ensures failure.None? ==> (lines, buffer) == SplitLines(Flatten(chunks[..consumed]))
    ensures failure.Some? ==>
      && lines != []
      && |lines| <= |SplitLines(Flatten(chunks[..consumed])).0|
      && lines == SplitLines(Flatten(chunks[..consumed])).0[..|lines|]
      && HandleAll(h, old(db.State()), lines[..|lines| - 1], loads).1.None?
    ensures (db.State(), failure) == HandleAll(h, old(db.State()), lines, loads)
    ensures h.AsWritten? ==>
      && db.State() == old(db.State())
      && (failure.None? ==> lines == [] && SplitLines(Flatten(chunks[..consumed])).0 == [])
      && (failure.Some? ==>
            && |lines| == 1
            && lines[0] == SplitLines(Flatten(chunks[..consumed])).0[0]
            && failure == Some(if loads(lines[0]).None? then ValueError else TypeError))
  {
    lines, buffer, failure, consumed := ReceiveLoop(h, db, chunks, loads, db.State());
    FramingOf(lines, buffer, Flatten(chunks[..consumed]));
    if h.AsWritten? {
      AsWrittenStopsAtFirst(old(db.State()), lines, loads, h.encode);
      if failure.Some? {
        AsWrittenStopsAtFirst(old(db.State()), lines[..|lines| - 1], loads, h.encode);
      }
    }
  }

  /** Lines handled so far and the buffer, against what the connection has delivered. */
  lemma FramingOf(lines: seq<seq<byte>>, buffer: seq<byte>, received: seq<byte>)
    requires JoinLines(lines) + buffer == received
    requires forall k | 0 <= k < |lines| :: NL !in lines[k]
    ensures |lines| <= |SplitLines(received).0| && lines == SplitLines(received).0[..|lines|]
    ensures NL !in buffer ==> (lines, buffer) == SplitLines(received)
  {
    Framing(lines, buffer);
  }

  /** The column names of the mediciones table, in column order. */
  const RowKeys: seq<string> := ["id", "sensor_id", "timestamp", "temperatura", "presion", "humedad"]

  lemma RowKeysDistinct()
    ensures DistinctKeys(RowKeys)
  {
    assert "sensor_id"[0] != "timestamp"[0] && "presion"[0] != "humedad"[0];
  }

  /** A record carries a row: each column's value under its column name. */
  predicate Describes(j: Json, r: Row)
  {
    && Subscript(j, "id") == Ok(JInt(r.id))
    && Subscript(j, "sensor_id") == Ok(JInt(r.sensorId))
    && Subscript(j, "timestamp") == Ok(JStr(r.timestamp))
    && Subscript(j, "temperatura") == Ok(JFloat(r.temperatura))
    && Subscript(j, "presion") == Ok(JFloat(r.presion))
    && Subscript(j, "humedad") == Ok(JFloat(r.humedad))
  }

  /** One element of api_mediciones: row positions 0 to 5 under their column names. */
  function RowRecord(r: Row): (j: Json)
    ensures j.JObject? && Keys(j.fields) == RowKeys
    ensures Describes(j, r)
  {
    var fields := [("id", JInt(r.id)), ("sensor_id", JInt(r.sensorId)), ("timestamp", JStr(r.timestamp)),
                   ("temperatura", JFloat(r.temperatura)), ("presion", JFloat(r.presion)), ("humedad", JFloat(r.humedad))];
    RowKeysDistinct();
    assert Keys(fields) == RowKeys;
    SubscriptAt(fields, 0); SubscriptAt(fields, 1); SubscriptAt(fields, 2);
    SubscriptAt(fields, 3); SubscriptAt(fields, 4); SubscriptAt(fields, 5);
    JObject(fields)
  }

  /** api_mediciones: one record per row, in the rows' order. */
  function ApiMediciones(rows: seq<Row>): (out: seq<Json>)
    ensures |out| == |rows|
    ensures forall i | 0 <= i < |rows| :: Describes(out[i], rows[i])
  {
    if rows == [] then [] else [RowRecord(rows[0])] + ApiMediciones(rows[1..])
  }

  /**
   * api_mediciones over the table obtener_mediciones reads: the request
   * fails with OperationalError iff there is no table; otherwise it holds one
   * record per row of the table, newest timestamp first.
   */
  lemma ApiMedicionesOfTable(t: Table)
    ensures ObtenerSpec(t).Err? <==> !t.created
    ensures ObtenerSpec(t).Err? ==> ObtenerSpec(t).error == OperationalError
    ensures ObtenerSpec(t).Ok? ==>
      var rows := ObtenerSpec(t).value;
      var out := ApiMediciones(rows);
      && |out| == |t.rows|
      && multiset(rows) == multiset(t.rows)
      && (forall i | 0 <= i < |out| :: rows[i] in t.rows && Describes(out[i], rows[i]))
      && TextOrder.SortedDesc(rows, RowTimestamp)
  {
    if t.created {
      var rows := ObtenerSpec(t).value;
      assert |rows| == |multiset(rows)| == |multiset(t.rows)| == |t.rows|;
      forall i | 0 <= i < |rows| ensures rows[i] in t.rows {
        assert rows[i] in multiset(rows);
      }
    }
  }
}
