/**
 * The Python values that cross process boundaries as JSON (dicts, lists,
 * strings, numbers), and the exceptions the modelled code can raise on them.
 * JSON text itself is produced and read by library calls that are passed in
 * as functions where they matter.
 */
module Json {
  import opened Wrappers
  import opened Bytes

  /** A float is carried as its IEEE-754 single-precision bit pattern. */
  datatype Json =
    | JNull
    | JBool(b: bool)
    | JInt(i: int)
    | JFloat(bits: word32)
    | JStr(s: string)
    | JArray(items: seq<Json>)
    | JObject(fields: seq<(string, Json)>)

  datatype PyError =
    | KeyError(key: string)       // dict subscript with a missing key
    | TypeError                   // subscript of a value that is not a dict
    | ValueError                  // json.loads / strptime failures
    | StructError                 // struct.unpack on a buffer of the wrong size
    | OperationalError            // sqlite3: no such table
    | BindingError                // sqlite3: a parameter of a kind the table model does not store

  function Keys(fields: seq<(string, Json)>): (ks: seq<string>)
    ensures |ks| == |fields|
    ensures forall i | 0 <= i < |fields| :: ks[i] == fields[i].0
  {
    if fields == [] then [] else Keys(fields[..|fields| - 1]) + [fields[|fields| - 1].0]
  }

  /** The value stored under key: json.loads keeps the last of repeated keys. */
  function Lookup(fields: seq<(string, Json)>, key: string): (r: Option<Json>)
    ensures r.Some? <==> key in Keys(fields)
    ensures r.Some? ==> exists i | 0 <= i < |fields| ::
      fields[i] == (key, r.value) && forall j | i < j < |fields| :: fields[j].0 != key
  {
    if fields == [] then None
    else
      var last := fields[|fields| - 1];
      if last.0 == key then Some(last.1)
      else
        Lookup(fields[..|fields| - 1], key)
  }

  /** Python's `value[key]` with a string key. */
  function Subscript(value: Json, key: string): (r: Result<Json, PyError>)
    ensures r.Ok? <==> value.JObject? && key in Keys(value.fields)
    ensures r.Err? && !value.JObject? ==> r.error == TypeError
  {
    match value
    case JObject(fields) =>
      (match Lookup(fields, key)
       case Some(v) => Ok(v)
       case None => Err(KeyError(key)))
    case _ => Err(TypeError)
  }

  /** In an object whose keys are distinct, subscripting a key yields the value written with it. */
  lemma {:induction false} SubscriptDistinct(fields: seq<(string, Json)>, i: nat)
    requires i < |fields|
    requires forall j | 0 <= j < |fields| && j != i :: fields[j].0 != fields[i].0
    ensures Subscript(JObject(fields), fields[i].0) == Ok(fields[i].1)
  {
    var init := fields[..|fields| - 1];
    if i < |fields| - 1 {
      SubscriptDistinct(init, i);
    }
  }

  predicate DistinctKeys(ks: seq<string>)
  {
    forall i, j | 0 <= i < j < |ks| :: ks[i] != ks[j]
  }

  /** The same, for an object whose key list is known to be free of repeats. */
  lemma {:induction false} SubscriptAt(fields: seq<(string, Json)>, i: nat)
    requires DistinctKeys(Keys(fields)) && i < |fields|
    ensures Subscript(JObject(fields), fields[i].0) == Ok(fields[i].1)
  {
    var n := |fields|;
    if i < n - 1 {
      var init := fields[..n - 1];
      assert DistinctKeys(Keys(init)) by {
        assert forall k | 0 <= k < n - 1 :: Keys(init)[k] == Keys(fields)[k];
      }
      SubscriptAt(init, i);
      assert fields[n - 1].0 != fields[i].0 by {
        assert Keys(fields)[i] != Keys(fields)[n - 1];
      }
    }
  }

  /** A two-entry object with distinct keys: its key order and both subscripts. */
  lemma Pair(k1: string, v1: Json, k2: string, v2: Json)
    requires k1 != k2
    ensures Keys([(k1, v1), (k2, v2)]) == [k1, k2]
    ensures Subscript(JObject([(k1, v1), (k2, v2)]), k1) == Ok(v1)
    ensures Subscript(JObject([(k1, v1), (k2, v2)]), k2) == Ok(v2)
  {
    SubscriptDistinct([(k1, v1), (k2, v2)], 0);
    SubscriptDistinct([(k1, v1), (k2, v2)], 1);
  }
}
