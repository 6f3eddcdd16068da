/**
 * The alert client (cliente_alertas_py/cliente_alertas.py): it polls the
 * final server's measurement list, raises an alert for every quantity outside
 * its configured inclusive range, remembers which (sensor_id, timestamp)
 * measurements have already alerted, and serves the last alerts, the
 * measurement table newest first and the latest fresh reading of each sensor.
 * Measured values are compared as ordered numbers (`real`).
 */
module Alerts {
  import opened Wrappers
  import opened Arith
  import opened Json
  import opened Calendar
  import opened TextOrder

  /** One element of the polled list: the fields the client reads. */
  datatype Medicion = Medicion(sensorId: int, timestamp: string, temperatura: real, presion: real, humedad: real)

  /** TEMP_MIN, TEMP_MAX, PRES_MIN, PRES_MAX, HUM_MIN and HUM_MAX from the configuration. */
  datatype Limits = Limits(tempMin: real, tempMax: real, presMin: real, presMax: real, humMin: real, humMax: real)

  datatype Quantity = Temperatura | Presion | Humedad

  /** An alert: the measurement's timestamp and sensor, the quantity and its value (the message text is built from these). */
  datatype Alert = Alert(timestamp: string, sensorId: int, quantity: Quantity, value: real)

  /** The order in which verificar_alertas checks the quantities. */
  function Rank(q: Quantity): nat
  {
    match q
    case Temperatura => 0
    case Presion => 1
    case Humedad => 2
  }

  function Measured(m: Medicion, q: Quantity): real
  {
    match q
    case Temperatura => m.temperatura
    case Presion => m.presion
    case Humedad => m.humedad
  }

  function Low(lim: Limits, q: Quantity): real
  {
    match q
    case Temperatura => lim.tempMin
    case Presion => lim.presMin
    case Humedad => lim.humMin
  }

  function High(lim: Limits, q: Quantity): real
  {
    match q
    case Temperatura => lim.tempMax
    case Presion => lim.presMax
    case Humedad => lim.humMax
  }

  /** Strictly below the minimum or strictly above the maximum: the bounds themselves are in range. */
  predicate OutOfRange(m: Medicion, lim: Limits, q: Quantity)
  {
    Measured(m, q) < Low(lim, q) || High(lim, q) < Measured(m, q)
  }

  /** One of the three range checks. */
  function Check(m: Medicion, lim: Limits, q: Quantity): seq<Alert>
  {
    if Low(lim, q) <= Measured(m, q) <= High(lim, q) then [] else [Alert(m.timestamp, m.sensorId, q, Measured(m, q))]
  }

  /**
   * verificar_alertas(medicion): at most one alert per quantity, in the
   * order temperature, pressure, humidity, each carrying the measurement's
   * timestamp, sensor and value; a quantity alerts iff it is out of range.
   */
  function VerificarAlertas(m: Medicion, lim: Limits): (r: seq<Alert>)
    ensures |r| <= 3
    ensures forall i | 0 <= i < |r| ::
      r[i] == Alert(m.timestamp, m.sensorId, r[i].quantity, Measured(m, r[i].quantity))
    ensures forall i, j | 0 <= i < j < |r| :: Rank(r[i].quantity) < Rank(r[j].quantity)
    ensures forall q :: (exists i | 0 <= i < |r| :: r[i].quantity == q) <==> OutOfRange(m, lim, q)
  {
    ChecksShape(m, lim);
    ChecksCover(m, lim);
    Check(m, lim, Temperatura) + Check(m, lim, Presion) + Check(m, lim, Humedad)
  }

  lemma ChecksShape(m: Medicion, lim: Limits)
    ensures var r := Check(m, lim, Temperatura) + Check(m, lim, Presion) + Check(m, lim, Humedad);
      && |r| <= 3
      && (forall i | 0 <= i < |r| :: r[i] == Alert(m.timestamp, m.sensorId, r[i].quantity, Measured(m, r[i].quantity)))
      && (forall i, j | 0 <= i < j < |r| :: Rank(r[i].quantity) < Rank(r[j].quantity))
  {
  }

  lemma ChecksCover(m: Medicion, lim: Limits)
    ensures var r := Check(m, lim, Temperatura) + Check(m, lim, Presion) + Check(m, lim, Humedad);
      forall q :: (exists i | 0 <= i < |r| :: r[i].quantity == q) <==> OutOfRange(m, lim, q)
  {
    var t, p := Check(m, lim, Temperatura), Check(m, lim, Presion);
    var r := t + p + Check(m, lim, Humedad);
    forall q ensures (exists i | 0 <= i < |r| :: r[i].quantity == q) <==> OutOfRange(m, lim, q) {
      if OutOfRange(m, lim, q) {
        var i := match q case Temperatura => 0 case Presion => |t| case Humedad => |t| + |p|;
        assert r[i].quantity == q;
      }
    }
  }

  /** A measurement raises no alert iff every quantity is within its range. */
  lemma NoAlertIffInRange(m: Medicion, lim: Limits)
    ensures VerificarAlertas(m, lim) == [] <==>
      && Low(lim, Temperatura) <= m.temperatura <= High(lim, Temperatura)
      && Low(lim, Presion) <= m.presion <= High(lim, Presion)
      && Low(lim, Humedad) <= m.humedad <= High(lim, Humedad)
  {
    var r := VerificarAlertas(m, lim);
    if r != [] {
      assert OutOfRange(m, lim, r[0].quantity);
    } else {
      assert !OutOfRange(m, lim, Temperatura) && !OutOfRange(m, lim, Presion) && !OutOfRange(m, lim, Humedad);
    }
  }

  /** The deduplication key `(medicion["sensor_id"], medicion["timestamp"])`. */
  type Key = (int, string)

  function KeyOf(m: Medicion): Key
  {
    (m.sensorId, m.timestamp)
  }

  /**
   * One pass of the cliente_consulta loop over the polled list, from the
   * known keys `ids`: the new alerts, in input order, and the keys known
   * afterwards. A measurement whose key is known is skipped; otherwise its
   * alerts are collected and, if there are any, its key becomes known.
   */
  function Consulta(ids: set<Key>, datos: seq<Medicion>, lim: Limits): (r: (seq<Alert>, set<Key>))
    ensures ids <= r.1
    ensures |r.0| <= 3 * |datos|
  {
    if datos == [] then ([], ids)
    else
      var (nuevas, seen) := Consulta(ids, datos[..|datos| - 1], lim);
      var m := datos[|datos| - 1];
      if KeyOf(m) in seen then (nuevas, seen)
      else
        var resultado := VerificarAlertas(m, lim);
        if resultado != [] then (nuevas + resultado, seen + {KeyOf(m)}) else (nuevas, seen)
  }

  /** The keys of the measurements in `datos` that raise at least one alert. */
  function AlertingKeys(datos: seq<Medicion>, lim: Limits): set<Key>
  {
    set m | m in datos && VerificarAlertas(m, lim) != [] :: KeyOf(m)
  }

  /** A key becomes known iff some measurement with that key raises an alert. */
  lemma {:induction false} ConsultaIds(ids: set<Key>, datos: seq<Medicion>, lim: Limits)
    ensures Consulta(ids, datos, lim).1 == ids + AlertingKeys(datos, lim)
  {
    if datos != [] {
      var init := datos[..|datos| - 1];
      var m := datos[|datos| - 1];
      assert datos == init + [m];
      ConsultaIds(ids, init, lim);
      AlertingKeysSnoc(init, m, lim);
    }
  }

  lemma AlertingKeysSnoc(init: seq<Medicion>, m: Medicion, lim: Limits)
    ensures AlertingKeys(init + [m], lim) == AlertingKeys(init, lim) + (if VerificarAlertas(m, lim) != [] then {KeyOf(m)} else {})
  {
    var datos := init + [m];
    assert forall x :: x in datos <==> x in init || x == m;
  }

  /**
   * The measurement at index j contributes alerts to a pass: it raises at
   * least one, its key was not known, and no earlier measurement in the list
   * with the same key raised any.
   */
  predicate FirstAlerting(ids: set<Key>, datos: seq<Medicion>, lim: Limits, j: int)
    requires 0 <= j < |datos|
  {
    && VerificarAlertas(datos[j], lim) != []
    && KeyOf(datos[j]) !in ids
    && forall k | 0 <= k < j :: VerificarAlertas(datos[k], lim) == [] || KeyOf(datos[k]) != KeyOf(datos[j])
  }

  /** The alerts each measurement of a pass contributes, by index. */
  function Contributions(ids: set<Key>, datos: seq<Medicion>, lim: Limits): (parts: seq<seq<Alert>>)
    ensures |parts| == |datos|
  {
    seq(|datos|, j requires 0 <= j < |datos| => if FirstAlerting(ids, datos, lim, j) then VerificarAlertas(datos[j], lim) else [])
  }

  /** The alerts of several measurements, one after the other. */
  function Concat(parts: seq<seq<Alert>>): seq<Alert>
  {
    if parts == [] then [] else Concat(parts[..|parts| - 1]) + parts[|parts| - 1]
  }

  /**
   * A pass yields exactly the alerts of the measurements that contribute,
   * each one's alerts whole and in list order.
   */
  lemma {:induction false} ConsultaAlerts(ids: set<Key>, datos: seq<Medicion>, lim: Limits)
    ensures Consulta(ids, datos, lim).0 == Concat(Contributions(ids, datos, lim))
  {
    if datos != [] {
      var init := datos[..|datos| - 1];
      var last := |datos| - 1;
      var m := datos[last];
      ConsultaAlerts(ids, init, lim);
      ConsultaIds(ids, init, lim);
      var parts := Contributions(ids, datos, lim);
      assert parts[..last] == Contributions(ids, init, lim) by {
        forall j | 0 <= j < last ensures FirstAlerting(ids, datos, lim, j) == FirstAlerting(ids, init, lim, j) {
          assert forall k | 0 <= k < j :: datos[k] == init[k];
        }
      }
      if VerificarAlertas(m, lim) != [] && KeyOf(m) !in ids {
        if KeyOf(m) in AlertingKeys(init, lim) {
          var x :| x in init && VerificarAlertas(x, lim) != [] && KeyOf(x) == KeyOf(m);
          var k :| 0 <= k < |init| && init[k] == x;
          assert datos[k] == x;
          assert !FirstAlerting(ids, datos, lim, last);
        } else {
          forall k | 0 <= k < last ensures VerificarAlertas(datos[k], lim) == [] || KeyOf(datos[k]) != KeyOf(m) {
            assert datos[k] == init[k] && init[k] in init;
          }
          assert FirstAlerting(ids, datos, lim, last);
        }
      }
    }
  }

  /** Measurements that are all known already or all in range add no alert and no key. */
  lemma {:induction false} ConsultaQuiet(ids: set<Key>, datos: seq<Medicion>, lim: Limits)
    requires forall m | m in datos :: KeyOf(m) in ids || VerificarAlertas(m, lim) == []
    ensures Consulta(ids, datos, lim) == ([], ids)
  {
    if datos != [] {
      var init := datos[..|datos| - 1];
      assert forall m | m in init :: m in datos;
      ConsultaQuiet(ids, init, lim);
    }
  }

  /** Polling the same list a second time raises nothing new. */
  lemma ConsultaIdempotent(ids: set<Key>, datos: seq<Medicion>, lim: Limits)
    ensures var seen := Consulta(ids, datos, lim).1;
      Consulta(seen, datos, lim) == ([], seen)
  {
    var seen := Consulta(ids, datos, lim).1;
    ConsultaIds(ids, datos, lim);
    forall m | m in datos ensures KeyOf(m) in seen || VerificarAlertas(m, lim) == [] {
      if VerificarAlertas(m, lim) != [] {
        assert KeyOf(m) in AlertingKeys(datos, lim);
      }
    }
    ConsultaQuiet(seen, datos, lim);
  }

  /** Every new alert comes from a measurement in the list whose key was not known before. */
  lemma {:induction false} ConsultaSources(ids: set<Key>, datos: seq<Medicion>, lim: Limits)
    ensures var nuevas := Consulta(ids, datos, lim).0;
      forall i | 0 <= i < |nuevas| ::
        exists m | m in datos :: KeyOf(m) !in ids && nuevas[i] in VerificarAlertas(m, lim)
  {
    if datos != [] {
      var init := datos[..|datos| - 1];
      var m := datos[|datos| - 1];
      ConsultaSources(ids, init, lim);
      var (nuevas, seen) := Consulta(ids, init, lim);
      var all := Consulta(ids, datos, lim).0;
      forall i | 0 <= i < |all|
        ensures exists m' | m' in datos :: KeyOf(m') !in ids && all[i] in VerificarAlertas(m', lim)
      {
        if i < |nuevas| {
          assert all[i] == nuevas[i];
          assert nuevas[i] == Consulta(ids, init, lim).0[i];
          var m' :| m' in init && KeyOf(m') !in ids && nuevas[i] in VerificarAlertas(m', lim);
          assert m' in datos;
        } else {
          assert KeyOf(m) !in seen;
          assert all[i] in VerificarAlertas(m, lim);
        }
      }
    }
  }

  /** The client's shared state: alertas_activas and alertas_ids. */
  class AlertClient {
    var alertasActivas: seq<Alert>
    var alertasIds: set<Key>

    constructor()
      ensures alertasActivas == [] && alertasIds == {}
    {
      alertasActivas, alertasIds := [], {};
    }

    /**
     * One iteration of cliente_consulta on the polled list `datos` (an
     * empty list when the request fails): the new alerts are appended to
     * alertas_activas, whose old contents stay as a prefix, and the keys of
     * the alerting measurements are added to alertas_ids.
     */
    method ConsultaStep(datos: seq<Medicion>, lim: Limits)
      modifies this
      ensures alertasActivas == old(alertasActivas) + Consulta(old(alertasIds), datos, lim).0
      ensures alertasIds == Consulta(old(alertasIds), datos, lim).1
    {
      var nuevas: seq<Alert> := [];
      var i := 0;
      while i < |datos|
        invariant 0 <= i <= |datos|
        invariant (nuevas, alertasIds) == Consulta(old(alertasIds), datos[..i], lim)
        invariant alertasActivas == old(alertasActivas)
      {
        var medicion := datos[i];
        var clave := KeyOf(medicion);
        assert datos[..i + 1][..i] == datos[..i];
        if clave !in alertasIds {
          var resultado := VerificarAlertas(medicion, lim);
          if resultado != [] {
            nuevas := nuevas + resultado;
            alertasIds := alertasIds + {clave};
          }
        }
        i := i + 1;
      }
      assert datos[..i] == datos;
      if nuevas != [] {
        alertasActivas := alertasActivas + nuevas;
      }
    }
  }

  /** api_alertas: `alertas_activas[-20:]`, the last min(20, n) alerts, a suffix of the list. */
  function ApiAlertas(activas: seq<Alert>): (r: seq<Alert>)
    ensures |r| == Min(20, |activas|)
    ensures activas == activas[..|activas| - |r|] + r
  {
    if |activas| <= 20 then activas else activas[|activas| - 20..]
  }

  /** Only the last 20 alerts matter: trimming the list before appending gives the same window. */
  lemma ApiAlertasWindow(a: seq<Alert>, b: seq<Alert>)
    ensures ApiAlertas(a + b) == ApiAlertas(ApiAlertas(a) + b)
  {
    var w := ApiAlertas(a);
    var ab := a + b;
    var wb := w + b;
    assert ab == a[..|a| - |w|] + wb;
    var r1 := ApiAlertas(ab);
    var r2 := ApiAlertas(wb);
    assert |r1| == |r2|;
    assert r1 == ab[|ab| - |r1|..];
    assert r2 == wb[|wb| - |r2|..];
    assert ab[|ab| - |r1|..] == wb[|wb| - |r2|..];
  }

  function MedTimestamp(m: Medicion): string
  {
    m.timestamp
  }

  /**
   * api_tabla_mediciones: `sorted(datos, key=timestamp, reverse=True)`, a
   * permutation of the list, newest text timestamp first, with measurements
   * of equal timestamp in their original order.
   */
  function ApiTablaMediciones(datos: seq<Medicion>): (r: seq<Medicion>)
    ensures SortedDesc(r, MedTimestamp)
    ensures multiset(r) == multiset(datos)
    ensures forall k :: Filter(r, MedTimestamp, k) == Filter(datos, MedTimestamp, k)
  {
    SortDescCorrect(datos, MedTimestamp);
    SortDesc(datos, MedTimestamp)
  }

  /**
   * A measurement is shown when its timestamp parses and `now - ts` is at
   * most 30 seconds (a timestamp in the future also qualifies). `strptime`
   * is the date parser; the client's is ParseIso, and the properties below
   * hold for any parser that yields only valid date-times.
   */
  predicate Fresh(d: Medicion, now: real, strptime: string -> Option<DateTime>)
  {
    match strptime(d.timestamp)
    case None => false
    case Some(ts) => Valid(ts) && now - Seconds(ts) as real <= 30.0
  }

  predicate DistinctIds(acc: seq<Medicion>)
  {
    forall i, j | 0 <= i < j < |acc| :: acc[i].sensorId != acc[j].sensorId
  }

  /**
   * `sensores[d['sensor_id']] = d` on a dict kept as its values in key
   * insertion order: an existing key keeps its position and takes the new
   * value, a new key goes last.
   */
  function Upsert(acc: seq<Medicion>, d: Medicion): seq<Medicion>
  {
    if acc == [] then [d]
    else if acc[0].sensorId == d.sensorId then [d] + acc[1..]
    else [acc[0]] + Upsert(acc[1..], d)
  }

  lemma {:induction false} UpsertFound(acc: seq<Medicion>, d: Medicion, k: nat)
    requires k < |acc| && acc[k].sensorId == d.sensorId && DistinctIds(acc)
    ensures Upsert(acc, d) == acc[k := d]
  {
    if k > 0 {
      assert acc[0].sensorId != acc[k].sensorId;
      UpsertFound(acc[1..], d, k - 1);
      assert acc[k := d] == [acc[0]] + acc[1..][k - 1 := d];
    }
  }

  lemma {:induction false} UpsertNew(acc: seq<Medicion>, d: Medicion)
    requires forall i | 0 <= i < |acc| :: acc[i].sensorId != d.sensorId
    ensures Upsert(acc, d) == acc + [d]
  {
    if acc != [] {
      UpsertNew(acc[1..], d);
      assert acc + [d] == [acc[0]] + (acc[1..] + [d]);
    }
  }

  /** One dict assignment: the entry for d's sensor becomes d, every other entry stays where it was. */
  lemma UpsertStep(acc: seq<Medicion>, d: Medicion)
    requires DistinctIds(acc)
    ensures var r := Upsert(acc, d);
      && DistinctIds(r)
      && |acc| <= |r| <= |acc| + 1
      && (forall i | 0 <= i < |acc| :: r[i].sensorId == acc[i].sensorId)
      && (forall i | 0 <= i < |r| :: r[i] == d || (i < |acc| && r[i] == acc[i] && acc[i].sensorId != d.sensorId))
      && (exists i | 0 <= i < |r| :: r[i] == d)
  {
    if k :| 0 <= k < |acc| && acc[k].sensorId == d.sensorId {
      UpsertFound(acc, d, k);
      assert Upsert(acc, d)[k] == d;
    } else {
      UpsertNew(acc, d);
      assert Upsert(acc, d)[|acc|] == d;
    }
  }

  /**
   * The dict after the loop of api_ultimas_mediciones over `datos`, as its
   * values in order; ValueError when a timestamp does not parse.
   */
  function Ultimas(datos: seq<Medicion>, now: real, strptime: string -> Option<DateTime>): (r: Result<seq<Medicion>, PyError>)
    ensures r.Err? ==> r.error == ValueError
  {
    if datos == [] then Ok([])
    else
      var d := datos[|datos| - 1];
      match Ultimas(datos[..|datos| - 1], now, strptime)
      case Err(e) => Err(e)
      case Ok(acc) =>
        if strptime(d.timestamp).None? then Err(ValueError)
        else if Fresh(d, now, strptime) then Ok(Upsert(acc, d))
        else Ok(acc)
  }

  /** The request fails iff some timestamp is not a date-time. */
  lemma {:induction false} UltimasError(datos: seq<Medicion>, now: real, strptime: string -> Option<DateTime>)
    ensures Ultimas(datos, now, strptime).Err? <==> exists j | 0 <= j < |datos| :: strptime(datos[j].timestamp).None?
  {
    if datos != [] {
      var init := datos[..|datos| - 1];
      UltimasError(init, now, strptime);
      if exists j | 0 <= j < |init| :: strptime(init[j].timestamp).None? {
        var j :| 0 <= j < |init| && strptime(init[j].timestamp).None?;
        assert datos[j] == init[j];
      }
    }
  }

  /** Position j holds a fresh measurement after which its sensor has no fresh one. */
  predicate LastFresh(datos: seq<Medicion>, j: nat, now: real, strptime: string -> Option<DateTime>)
  {
    && j < |datos| && Fresh(datos[j], now, strptime)
    && forall j' | j < j' < |datos| && datos[j'].sensorId == datos[j].sensorId :: !Fresh(datos[j'], now, strptime)
  }

  /** Appending a measurement that is not a fresh one of the same sensor keeps a last-fresh position. */
  lemma LastFreshExtend(init: seq<Medicion>, d: Medicion, j: nat, now: real, strptime: string -> Option<DateTime>)
    requires LastFresh(init, j, now, strptime)
    requires d.sensorId != init[j].sensorId || !Fresh(d, now, strptime)
    ensures LastFresh(init + [d], j, now, strptime)
  {
    var datos := init + [d];
    forall j' | j < j' < |datos| && datos[j'].sensorId == datos[j].sensorId
      ensures !Fresh(datos[j'], now, strptime)
    {
      if j' < |init| {
        assert datos[j'] == init[j'];
      }
    }
  }

  /** Every entry of r is a last fresh measurement of datos. */
  predicate Justified(datos: seq<Medicion>, r: seq<Medicion>, now: real, strptime: string -> Option<DateTime>)
  {
    forall i | 0 <= i < |r| :: LastFreshIn(datos, r[i], now, strptime)
  }

  /** x is a last fresh measurement of its sensor in datos. */
  predicate LastFreshIn(datos: seq<Medicion>, x: Medicion, now: real, strptime: string -> Option<DateTime>)
  {
    exists j | 0 <= j < |datos| :: datos[j] == x && LastFresh(datos, j, now, strptime)
  }

  /** A measurement that is not fresh leaves every entry justified. */
  lemma JustifiedKeep(init: seq<Medicion>, d: Medicion, acc: seq<Medicion>, now: real, strptime: string -> Option<DateTime>)
    requires Justified(init, acc, now, strptime) && !Fresh(d, now, strptime)
    ensures Justified(init + [d], acc, now, strptime)
  {
    var datos := init + [d];
    forall i | 0 <= i < |acc| ensures LastFreshIn(datos, acc[i], now, strptime) {
      var j :| 0 <= j < |init| && init[j] == acc[i] && LastFresh(init, j, now, strptime);
      LastFreshExtend(init, d, j, now, strptime);
      assert datos[j] == init[j];
    }
  }

  /** A fresh measurement, written into the dict, leaves every entry justified. */
  lemma JustifiedUpsert(init: seq<Medicion>, d: Medicion, acc: seq<Medicion>, now: real, strptime: string -> Option<DateTime>)
    requires Justified(init, acc, now, strptime) && DistinctIds(acc) && Fresh(d, now, strptime)
    ensures Justified(init + [d], Upsert(acc, d), now, strptime)
  {
    var datos, r := init + [d], Upsert(acc, d);
    UpsertStep(acc, d);
    forall i | 0 <= i < |r| ensures LastFreshIn(datos, r[i], now, strptime) {
      if r[i] == d {
        assert datos[|init|] == d;
        assert LastFresh(datos, |init|, now, strptime);
      } else {
        var j :| 0 <= j < |init| && init[j] == acc[i] && LastFresh(init, j, now, strptime);
        LastFreshExtend(init, d, j, now, strptime);
        assert datos[j] == init[j];
      }
    }
  }

  /**
   * api_ultimas_mediciones when every timestamp parses: at most one entry
   * per sensor, and each entry is the last fresh measurement of its sensor.
   */
  lemma {:induction false} UltimasLatest(datos: seq<Medicion>, now: real, strptime: string -> Option<DateTime>)
    requires Ultimas(datos, now, strptime).Ok?
    ensures var r := Ultimas(datos, now, strptime).value;
      && DistinctIds(r)
      && |r| <= |datos|
      && Justified(datos, r, now, strptime)
  {
    if datos != [] {
      var init := datos[..|datos| - 1];
      var d := datos[|datos| - 1];
      assert datos == init + [d];
      UltimasLatest(init, now, strptime);
      var acc := Ultimas(init, now, strptime).value;
      if Fresh(d, now, strptime) {
        UpsertStep(acc, d);
        JustifiedUpsert(init, d, acc, now, strptime);
      } else {
        JustifiedKeep(init, d, acc, now, strptime);
      }
    }
  }

  /** Every sensor with a fresh measurement in datos has an entry in r. */
  predicate Covered(datos: seq<Medicion>, r: seq<Medicion>, now: real, strptime: string -> Option<DateTime>)
  {
    forall j | 0 <= j < |datos| && Fresh(datos[j], now, strptime) :: exists i | 0 <= i < |r| :: r[i].sensorId == datos[j].sensorId
  }

  /** A measurement that is not fresh needs no entry. */
  lemma CoveredKeep(init: seq<Medicion>, d: Medicion, acc: seq<Medicion>, now: real, strptime: string -> Option<DateTime>)
    requires Covered(init, acc, now, strptime) && !Fresh(d, now, strptime)
    ensures Covered(init + [d], acc, now, strptime)
  {
    var datos := init + [d];
    forall j | 0 <= j < |datos| && Fresh(datos[j], now, strptime)
      ensures exists i | 0 <= i < |acc| :: acc[i].sensorId == datos[j].sensorId
    {
      assert datos[j] == init[j];
    }
  }

  /** Writing a fresh measurement into the dict keeps every sensor's entry and adds d's. */
  lemma CoveredUpsert(init: seq<Medicion>, d: Medicion, acc: seq<Medicion>, now: real, strptime: string -> Option<DateTime>)
    requires Covered(init, acc, now, strptime) && DistinctIds(acc)
    ensures Covered(init + [d], Upsert(acc, d), now, strptime)
  {
    var datos, r := init + [d], Upsert(acc, d);
    UpsertStep(acc, d);
    forall j | 0 <= j < |datos| && Fresh(datos[j], now, strptime)
      ensures exists i | 0 <= i < |r| :: r[i].sensorId == datos[j].sensorId
    {
      if j < |init| {
        assert datos[j] == init[j];
        var i :| 0 <= i < |acc| && acc[i].sensorId == init[j].sensorId;
        assert r[i].sensorId == datos[j].sensorId;
      } else {
        var i :| 0 <= i < |r| && r[i] == d;
      }
    }
  }

  /** api_ultimas_mediciones when every timestamp parses: every sensor with a fresh measurement has an entry. */
  lemma {:induction false} UltimasComplete(datos: seq<Medicion>, now: real, strptime: string -> Option<DateTime>)
    requires Ultimas(datos, now, strptime).Ok?
    ensures Covered(datos, Ultimas(datos, now, strptime).value, now, strptime)
  {
    if datos != [] {
      var init := datos[..|datos| - 1];
      var d := datos[|datos| - 1];
      assert datos == init + [d];
      UltimasComplete(init, now, strptime);
      UltimasLatest(init, now, strptime);
      var acc := Ultimas(init, now, strptime).value;
      if Fresh(d, now, strptime) {
        CoveredUpsert(init, d, acc, now, strptime);
      } else {
        CoveredKeep(init, d, acc, now, strptime);
      }
    }
  }

  /** The dict `sensores` with key order `orden` holds exactly the values acc, in that order. */
  predicate Mirrors(orden: seq<int>, sensores: map<int, Medicion>, acc: seq<Medicion>)
  {
    && DistinctIds(acc)
    && |orden| == |acc|
    && (forall k | 0 <= k < |orden| :: orden[k] == acc[k].sensorId && orden[k] in sensores && sensores[orden[k]] == acc[k])
    && (forall s | s in sensores :: s in orden)
  }

  lemma MirrorsUpsert(orden: seq<int>, sensores: map<int, Medicion>, acc: seq<Medicion>, d: Medicion)
    requires Mirrors(orden, sensores, acc)
    ensures Mirrors(if d.sensorId in sensores then orden else orden + [d.sensorId], sensores[d.sensorId := d], Upsert(acc, d))
  {
    if d.sensorId in sensores {
      MirrorsFound(orden, sensores, acc, d);
    } else {
      MirrorsNew(orden, sensores, acc, d);
    }
  }

  /** Assigning to a key already in the dict replaces its value in place. */
  lemma MirrorsFound(orden: seq<int>, sensores: map<int, Medicion>, acc: seq<Medicion>, d: Medicion)
    requires Mirrors(orden, sensores, acc) && d.sensorId in sensores
    ensures Mirrors(orden, sensores[d.sensorId := d], Upsert(acc, d))
  {
    var k :| 0 <= k < |orden| && orden[k] == d.sensorId;
    UpsertFound(acc, d, k);
    UpsertStep(acc, d);
  }

  /** Assigning to a new key adds it, with its value, at the end. */
  lemma MirrorsNew(orden: seq<int>, sensores: map<int, Medicion>, acc: seq<Medicion>, d: Medicion)
    requires Mirrors(orden, sensores, acc) && d.sensorId !in sensores
    ensures Mirrors(orden + [d.sensorId], sensores[d.sensorId := d], Upsert(acc, d))
  {
    UpsertNew(acc, d);
    UpsertStep(acc, d);
    var orden', acc' := orden + [d.sensorId], acc + [d];
    forall k | 0 <= k < |orden'| ensures orden'[k] == acc'[k].sensorId {
      if k < |orden| { assert orden'[k] == orden[k] && acc'[k] == acc[k]; }
    }
  }

  /** The dict's values in key order are acc. */
  lemma MirrorsValues(orden: seq<int>, sensores: map<int, Medicion>, acc: seq<Medicion>)
    requires Mirrors(orden, sensores, acc)
    ensures seq(|orden|, k requires 0 <= k < |orden| => sensores[orden[k]]) == acc
  {
  }

  /** Ultimas one element further along the list. */
  lemma UltimasStep(datos: seq<Medicion>, i: nat, now: real, strptime: string -> Option<DateTime>)
    requires i < |datos|
    ensures Ultimas(datos[..i + 1], now, strptime)
         == match Ultimas(datos[..i], now, strptime)
            case Err(e) => Err(e)
            case Ok(acc) =>
              if strptime(datos[i].timestamp).None? then Err(ValueError)
              else if Fresh(datos[i], now, strptime) then Ok(Upsert(acc, datos[i]))
              else Ok(acc)
  {
    assert datos[..i + 1][..i] == datos[..i];
  }

  /** What the loop of api_ultimas_mediciones does with element i, for any parser. */
  lemma UltimasAdvance(datos: seq<Medicion>, i: nat, now: real, strptime: string -> Option<DateTime>,
                       acc: seq<Medicion>, orden: seq<int>, sensores: map<int, Medicion>)
    requires i < |datos| && Ultimas(datos[..i], now, strptime) == Ok(acc) && Mirrors(orden, sensores, acc)
    ensures var d := datos[i];
      && (strptime(d.timestamp).None? ==> Ultimas(datos, now, strptime) == Err(ValueError))
      && (strptime(d.timestamp).Some? && !Fresh(d, now, strptime) ==> Ultimas(datos[..i + 1], now, strptime) == Ok(acc))
      && (Fresh(d, now, strptime) ==>
            && Ultimas(datos[..i + 1], now, strptime) == Ok(Upsert(acc, d))
            && Mirrors(if d.sensorId in sensores then orden else orden + [d.sensorId],
                       sensores[d.sensorId := d], Upsert(acc, d)))
  {
    var d := datos[i];
    UltimasStep(datos, i, now, strptime);
    if strptime(d.timestamp).None? {
      UltimasError(datos, now, strptime);
    }
    if Fresh(d, now, strptime) {
      MirrorsUpsert(orden, sensores, acc, d);
    }
  }

  /**
   * api_ultimas_mediciones: the loop fills the dict `sensores` (its keys in
   * insertion order in `orden`), stopping with ValueError at the first
   * timestamp that does not parse; the result is the dict's values.
   */
  method ApiUltimasMediciones(datos: seq<Medicion>, now: real) returns (r: Result<seq<Medicion>, PyError>)
    ensures r == Ultimas(datos, now, ParseIso)
  {
    var sensores: map<int, Medicion> := map[];
    var orden: seq<int> := [];
    ghost var acc: seq<Medicion> := [];
    var i := 0;
    while i < |datos|
      invariant 0 <= i <= |datos|
      invariant Ultimas(datos[..i], now, ParseIso) == Ok(acc)
      invariant Mirrors(orden, sensores, acc)
    {
      var d := datos[i];
      UltimasAdvance(datos, i, now, ParseIso, acc, orden, sensores);
      var ts := ParseIso(d.timestamp);
      if ts.None? {
        return Err(ValueError);
      }
      if now - Seconds(ts.value) as real <= 30.0 {
        if d.sensorId !in sensores {
          orden := orden + [d.sensorId];
        }
        sensores := sensores[d.sensorId := d];
        acc := Upsert(acc, d);
      }
      i := i + 1;
    }
    assert datos[..i] == datos;
    MirrorsValues(orden, sensores, acc);
    r := Ok(seq(|orden|, k requires 0 <= k < |orden| => sensores[orden[k]]));
  }
}
