/**
 * The final server's measurement table (servidor_final_py/db.py): the
 * `mediciones` table with its AUTOINCREMENT id, created by init_db, appended
 * to by insertar_medicion and read, newest timestamp first, by
 * obtener_mediciones. The SQLite file is modelled as the table's contents.
 */
module Db {
  import opened Wrappers
  import opened Bytes
  import opened Json
  import opened TextOrder

  /** One row: (id, sensor_id, timestamp, temperatura, presion, humedad). */
  datatype Row = Row(id: nat, sensorId: int, timestamp: string, temperatura: word32, presion: word32, humedad: word32)

  /** The five parameters bound by the INSERT. */
  datatype Values = Values(sensorId: int, timestamp: string, temperatura: word32, presion: word32, humedad: word32)

  /** Whether the table exists, its rows in insertion order, and the largest id ever handed out. */
  datatype Table = Table(created: bool, rows: seq<Row>, lastId: nat)

  function RowTimestamp(r: Row): string
  {
    r.timestamp
  }

  /** What the table keeps true: nothing before creation, ids increasing in insertion order and at most lastId. */
  predicate Inv(t: Table)
  {
    && (!t.created ==> t.rows == [] && t.lastId == 0)
    && (forall i, j | 0 <= i < j < |t.rows| :: t.rows[i].id < t.rows[j].id)
    && (forall i | 0 <= i < |t.rows| :: 1 <= t.rows[i].id <= t.lastId)
  }

  /** init_db: CREATE TABLE IF NOT EXISTS leaves an existing table as it is. */
  function InitSpec(t: Table): (r: Table)
    ensures r.created && r.rows == t.rows
  {
    t.(created := true)
  }

  /** A second init_db changes nothing. */
  lemma InitIdempotent(t: Table)
    ensures InitSpec(InitSpec(t)) == InitSpec(t)
    ensures Inv(t) ==> Inv(InitSpec(t))
  {
  }

  /** The five values of the parameter tuple, before SQLite sees them. */
  datatype Params = Params(id: Json, timestamp: Json, temperatura: Json, presion: Json, humedad: Json)

  /**
   * The parameter tuple of insertar_medicion, built by Python before
   * `execute` runs: `sensor['id']`, then 'timestamp', 'temperatura',
   * 'presion' and 'humedad', the first subscript that fails raising.
   */
  function ReadParams(sensor: Json): (r: Result<Params, PyError>)
    ensures r.Ok? <==> sensor.JObject? && forall k | k in ["id", "timestamp", "temperatura", "presion", "humedad"] :: k in Keys(sensor.fields)
    ensures r.Ok? ==>
      && Subscript(sensor, "id") == Ok(r.value.id)
      && Subscript(sensor, "timestamp") == Ok(r.value.timestamp)
      && Subscript(sensor, "temperatura") == Ok(r.value.temperatura)
      && Subscript(sensor, "presion") == Ok(r.value.presion)
      && Subscript(sensor, "humedad") == Ok(r.value.humedad)
    ensures !sensor.JObject? ==> r == Err(TypeError)
    ensures sensor.JObject? && "id" !in Keys(sensor.fields) ==> r == Err(KeyError("id"))
  {
    match Subscript(sensor, "id")
    case Err(e) => Err(e)
    case Ok(id) =>
      match Subscript(sensor, "timestamp")
      case Err(e) => Err(e)
      case Ok(ts) =>
        match Subscript(sensor, "temperatura")
        case Err(e) => Err(e)
        case Ok(temp) =>
          match Subscript(sensor, "presion")
          case Err(e) => Err(e)
          case Ok(pres) =>
            match Subscript(sensor, "humedad")
            case Err(e) => Err(e)
            case Ok(hum) => Ok(Params(id, ts, temp, pres, hum))
  }

  /**
   * Binding the parameters, which SQLite does after preparing the
   * statement: an int id, a str timestamp and float words bind.
   */
  function Bind(p: Params): (r: Result<Values, PyError>)
    ensures r.Ok? <==> p.id.JInt? && p.timestamp.JStr? && p.temperatura.JFloat? && p.presion.JFloat? && p.humedad.JFloat?
    ensures r.Ok? ==>
      && p.id == JInt(r.value.sensorId) && p.timestamp == JStr(r.value.timestamp)
      && p.temperatura == JFloat(r.value.temperatura) && p.presion == JFloat(r.value.presion)
      && p.humedad == JFloat(r.value.humedad)
    ensures r.Err? ==> r.error == BindingError
  {
    if p.id.JInt? && p.timestamp.JStr? && p.temperatura.JFloat? && p.presion.JFloat? && p.humedad.JFloat? then
      Ok(Values(p.id.i, p.timestamp.s, p.temperatura.bits, p.presion.bits, p.humedad.bits))
    else
      // Simplified: SQLite would also bind an int in a float column, None and bool (see "Left out" in the README).
      Err(BindingError)
  }

  /** The parameters read and bound: the values a stored row carries. */
  function Columns(sensor: Json): (r: Result<Values, PyError>)
    ensures r.Ok? ==>
      && Subscript(sensor, "id") == Ok(JInt(r.value.sensorId))
      && Subscript(sensor, "timestamp") == Ok(JStr(r.value.timestamp))
      && Subscript(sensor, "temperatura") == Ok(JFloat(r.value.temperatura))
      && Subscript(sensor, "presion") == Ok(JFloat(r.value.presion))
      && Subscript(sensor, "humedad") == Ok(JFloat(r.value.humedad))
    ensures !sensor.JObject? ==> r == Err(TypeError)
    ensures sensor.JObject? && "id" !in Keys(sensor.fields) ==> r == Err(KeyError("id"))
  {
    match ReadParams(sensor)
    case Err(e) => Err(e)
    case Ok(p) => Bind(p)
  }

  /** The INSERT proper: one row with the next id, after all existing rows. */
  function AppendRow(t: Table, v: Values): (Table, nat)
  {
    var id := t.lastId + 1;
    (t.(rows := t.rows + [Row(id, v.sensorId, v.timestamp, v.temperatura, v.presion, v.humedad)], lastId := id), id)
  }

  /**
   * insertar_medicion(sensor): the parameters are read first (a missing key
   * or a non-dict raises before SQLite is reached); preparing the INSERT
   * raises OperationalError when there is no table; then the parameters are
   * bound, and one row is appended with the next id.
   */
  function InsertSpec(t: Table, sensor: Json): (Table, Result<nat, PyError>)
  {
    match ReadParams(sensor)
    case Err(e) => (t, Err(e))
    case Ok(p) =>
      if !t.created then (t, Err(OperationalError))
      else
        match Bind(p)
        case Err(e) => (t, Err(e))
        case Ok(v) => (AppendRow(t, v).0, Ok(AppendRow(t, v).1))
  }

  /**
   * An insert succeeds iff the parameters can be read and the table exists;
   * a failed one changes nothing. A subscript error comes first, then a
   * missing table, then a binding error.
   */
  lemma InsertOutcome(t: Table, sensor: Json)
    ensures InsertSpec(t, sensor).1.Ok? <==> Columns(sensor).Ok? && t.created
    ensures ReadParams(sensor).Err? ==> InsertSpec(t, sensor).1 == Err(ReadParams(sensor).error)
    ensures ReadParams(sensor).Ok? && !t.created ==> InsertSpec(t, sensor).1 == Err(OperationalError)
    ensures ReadParams(sensor).Ok? && t.created && Columns(sensor).Err? ==> InsertSpec(t, sensor).1 == Err(BindingError)
    ensures InsertSpec(t, sensor).1.Err? ==> InsertSpec(t, sensor).0 == t
    ensures InsertSpec(t, sensor).1.Ok? ==>
      (InsertSpec(t, sensor).0, InsertSpec(t, sensor).1.value) == AppendRow(t, Columns(sensor).value)
  {
  }

  /**
   * Appending adds exactly one row, holding the given values, after all
   * existing rows, which are unchanged; its id is larger than every id
   * before it, and the table invariant still holds.
   */
  lemma AppendRowKeepsInv(t: Table, v: Values)
    requires Inv(t) && t.created
    ensures var (t', id) := AppendRow(t, v);
      && Inv(t')
      && t'.created
      && t'.rows == t.rows + [Row(id, v.sensorId, v.timestamp, v.temperatura, v.presion, v.humedad)]
      && (forall i | 0 <= i < |t.rows| :: t.rows[i].id < id)
  {
    var (t', id) := AppendRow(t, v);
    forall i, j | 0 <= i < j < |t'.rows| ensures t'.rows[i].id < t'.rows[j].id {
      assert t'.rows[i] == t.rows[i];
    }
  }

  /** Without a uniqueness constraint, inserting the same measurement twice stores it twice under two ids. */
  lemma NoUniqueness(t: Table, sensor: Json)
    requires Inv(t) && t.created && Columns(sensor).Ok?
    ensures var (t1, r1) := InsertSpec(t, sensor);
      var (t2, r2) := InsertSpec(t1, sensor);
      && r1.Ok? && r2.Ok? && r1.value < r2.value
      && |t2.rows| == |t.rows| + 2
      && t2.rows[|t.rows|].sensorId == t2.rows[|t.rows| + 1].sensorId
      && t2.rows[|t.rows|].timestamp == t2.rows[|t.rows| + 1].timestamp
  {
  }

  /**
   * `SELECT * ... ORDER BY timestamp DESC`: all rows, newest text timestamp
   * first. SQLite leaves the order among equal timestamps open; this
   * definition keeps insertion order there.
   */
  function ObtenerSpec(t: Table): (r: Result<seq<Row>, PyError>)
    ensures r.Err? <==> !t.created
    ensures r.Err? ==> r.error == OperationalError
    ensures r.Ok? ==> SortedDesc(r.value, RowTimestamp) && multiset(r.value) == multiset(t.rows)
  {
    if !t.created then Err(OperationalError)
    else
      SortDescCorrect(t.rows, RowTimestamp);
      Ok(SortDesc(t.rows, RowTimestamp))
  }

  class MeasurementTable {
    var created: bool
    var rows: seq<Row>
    var lastId: nat

    function State(): Table
      reads this
    {
      Table(created, rows, lastId)
    }

    predicate Valid()
      reads this
    {
      Inv(State())
    }

    /** No database file yet: no table. */
    constructor()
      ensures State() == Table(false, [], 0) && Valid()
    {
      created, rows, lastId := false, [], 0;
    }

    method InitDb()
      requires Valid()
      modifies this
      ensures State() == InitSpec(old(State())) && Valid()
    {
      created := true;
    }

    method InsertarMedicion(sensor: Json) returns (r: Result<nat, PyError>)
      requires Valid()
      modifies this
      ensures (State(), r) == InsertSpec(old(State()), sensor) && Valid()
    {
      var params := ReadParams(sensor);
      InsertOutcome(State(), sensor);
      if params.Err? {
        return Err(params.error);
      }
      if !created {
        return Err(OperationalError);
      }
      var columns := Bind(params.value);
      if columns.Err? {
        return Err(columns.error);
      }
      var next := AppendRow(State(), columns.value);
      AppendRowKeepsInv(State(), columns.value);
      rows, lastId := next.0.rows, next.0.lastId;
      assert State() == next.0;
      r := Ok(next.1);
    }

    /** Reads the table without changing it. */
    method ObtenerMediciones() returns (r: Result<seq<Row>, PyError>)
      ensures r.Err? <==> !created
      ensures r.Err? ==> r.error == OperationalError
      ensures r.Ok? ==> SortedDesc(r.value, RowTimestamp) && multiset(r.value) == multiset(rows)
    {
      r := ObtenerSpec(State());
    }
  }
}
