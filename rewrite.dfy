/** The body rewriter `modify_response`: for the MQTT route endpoint the address in the
    first element of the JSON array is replaced by the local MQTT host. The JSON text
    codec (`json.loads` after a UTF-8 decode, `json.dumps` then a UTF-8 encode) is a
    parameter of the model. */
module Rewrite {
  import opened Ascii
  import opened PyDict

  newtype byte = x: int | 0 <= x < 256

  type Bytes = seq<byte>

  /** A decoded JSON value; an object is its members in order (a Python dict). */
  datatype Json =
    | JNull
    | JBool(b: bool)
    | JNum(n: real)
    | JStr(s: string)
    | JArr(items: seq<Json>)
    | JObj(members: seq<(string, Json)>)

  /** What `json.loads(content.decode('utf-8'))` does with a body: the decode raises
      `UnicodeDecodeError`, the parser raises `JSONDecodeError`, the parser raises another
      exception (`ValueError` for an integer literal over the digit limit,
      `RecursionError` for nesting too deep), or a value. */
  datatype Loaded = NotUtf8 | NotJson | LoadRaised | Value(data: Json)

  datatype JsonCodec = JsonCodec(load: Bytes -> Loaded, dump: Json -> Bytes)

  /** The exceptions that leave `modify_response` (none is caught there): the UTF-8
      decode failure, a parser exception other than `JSONDecodeError`, and `TypeError`. */
  datatype RewriteError = UnicodeDecodeError | LoadError | TypeError

  datatype Result<+T, +E> = Ok(value: T) | Err(error: E)

  /** The one request path whose response body is rewritten. */
  const RoutePath: string := "/iot-mqttManager/routeService"

  /** The outcome of Python's `key in x` for a decoded JSON value `x`. */
  datatype Membership = Found | NotFound | Raises

  function PyIn(key: string, x: Json): (m: Membership)
    ensures m == Raises <==> x.JNull? || x.JBool? || x.JNum?
    ensures x.JObj? ==> (m == Found <==> Lookup(x.members, key).Some?)
    ensures x.JStr? ==> (m == Found <==> exists i :: OccursAt(x.s, key, i))
    ensures x.JArr? ==> (m == Found <==> exists i :: 0 <= i < |x.items| && x.items[i] == JStr(key))
  {
    match x
    case JObj(members) =>
      LookupFound(members, key);
      if key in Keys(members) then Found else NotFound
    case JStr(s) =>
      ContainsSubAt(s, key);
      if ContainsSub(s, key) then Found else NotFound
    case JArr(items) => if JStr(key) in items then Found else NotFound
    case _ => Raises
  }

  /** The guard `isinstance(data, list) and len(data) > 0 and "ip" in data[0]` holds and
      the `data[0]["ip"]` after it is a dict access. */
  predicate HasRoute(data: Json)
  {
    data.JArr? && |data.items| > 0 && data.items[0].JObj? && Lookup(data.items[0].members, "ip").Some?
  }

  /** The guard reaches `"ip" in data[0]` and that expression, or the subscript after it,
      raises `TypeError`: a number, `true`/`false` or `null` first element, or a string
      or list first element that contains `"ip"`. */
  predicate RaisesTypeError(data: Json)
  {
    data.JArr? && |data.items| > 0 &&
    var first := data.items[0];
    first.JNull? || first.JBool? || first.JNum? ||
    (first.JStr? && ContainsSub(first.s, "ip")) ||
    (first.JArr? && JStr("ip") in first.items)
  }

  /** `data[0]["ip"] = MQTT_HOST` on a list whose first element has the key. */
  function RewriteFirstIp(items: seq<Json>, mqttHost: string): (r: seq<Json>)
    requires |items| > 0 && items[0].JObj?
    requires Lookup(items[0].members, "ip").Some?
    ensures |r| == |items| && r[1..] == items[1..]
    ensures r[0].JObj? && Lookup(r[0].members, "ip") == Some(JStr(mqttHost))
    ensures Keys(r[0].members) == Keys(items[0].members)
    ensures forall k :: k != "ip" ==> Lookup(r[0].members, k) == Lookup(items[0].members, k)
    ensures UniqueKeys(items[0].members) ==> UniqueKeys(r[0].members)
  {
    var members := items[0].members;
    LookupFound(members, "ip");
    AssignKeys(members, "ip", JStr(mqttHost));
    assert UniqueKeys(members) ==> UniqueKeys(Assign(members, "ip", JStr(mqttHost))) by {
      if UniqueKeys(members) {
        AssignUnique(members, "ip", JStr(mqttHost));
      }
    }
    [JObj(Assign(members, "ip", JStr(mqttHost)))] + items[1..]
  }

  /** `modify_response(content)`. */
  function ModifyResponse(codec: JsonCodec, mqttHost: string, content: Bytes): (r: Result<Bytes, RewriteError>)
    ensures codec.load(content) == NotUtf8 ==> r == Err(UnicodeDecodeError)
    ensures codec.load(content) == NotJson ==> r == Ok(content)
    ensures codec.load(content) == LoadRaised ==> r == Err(LoadError)
    ensures codec.load(content).Value? && HasRoute(codec.load(content).data) ==>
      r == Ok(codec.dump(JArr(RewriteFirstIp(codec.load(content).data.items, mqttHost))))
    ensures codec.load(content).Value? && RaisesTypeError(codec.load(content).data) ==>
      r == Err(TypeError)
    ensures (codec.load(content).Value? && !HasRoute(codec.load(content).data)
             && !RaisesTypeError(codec.load(content).data))
      ==> r == Ok(codec.dump(codec.load(content).data))
  {
    match codec.load(content)
    case NotUtf8 => Err(UnicodeDecodeError)
    case NotJson => Ok(content)
    case LoadRaised => Err(LoadError)
    case Value(data) =>
      if data.JArr? && |data.items| > 0 then
        match PyIn("ip", data.items[0])
        case Raises => Err(TypeError)
        case NotFound => Ok(codec.dump(data))
        case Found =>
          if data.items[0].JObj? then Ok(codec.dump(JArr(RewriteFirstIp(data.items, mqttHost))))
          else Err(TypeError)
      else Ok(codec.dump(data))
  }

  /** The only errors are the three uncaught exceptions, each exactly on its inputs. */
  lemma ModifyResponseErrors(codec: JsonCodec, mqttHost: string, content: Bytes)
    ensures ModifyResponse(codec, mqttHost, content).Err? <==>
      codec.load(content) == NotUtf8 || codec.load(content) == LoadRaised
      || (codec.load(content).Value? && RaisesTypeError(codec.load(content).data))
  {
  }

  /** The two guard predicates in terms of Python's `"ip" in data[0]`: the rewrite happens
      exactly when the test finds the key in a dict; `TypeError` is raised exactly when the
      test raises or finds `"ip"` in a string or list; the two never hold together. */
  lemma {:induction false} GuardOutcomes(data: Json)
    ensures HasRoute(data) <==>
      data.JArr? && |data.items| > 0 && PyIn("ip", data.items[0]) == Found && data.items[0].JObj?
    ensures RaisesTypeError(data) <==>
      data.JArr? && |data.items| > 0 &&
      (PyIn("ip", data.items[0]) == Raises || (PyIn("ip", data.items[0]) == Found && !data.items[0].JObj?))
    ensures !(HasRoute(data) && RaisesTypeError(data))
  {
    if data.JArr? && |data.items| > 0 && data.items[0].JStr? {
      ContainsSubAt(data.items[0].s, "ip");
    }
  }
}
