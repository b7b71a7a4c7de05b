# Fotile bridge: a verified model of the request path

`fotile_bridge.py` is a small HTTP proxy for a Fotile range hood. It sits between the
hood and the vendor's cloud. It forwards every `POST` from the device to the backend.
Its outbound `Host` header pretends to be `api.fotile.com`. It returns the backend's
status and body unchanged, with one exception: for `/iot-mqttManager/routeService` it
rewrites the `"ip"` field of the JSON answer, so that the hood connects to a local MQTT
broker. The reply's headers are the backend's, filtered and renamed, with a recomputed
`Content-Length`.

This project models that path in Dafny and proves what it guarantees:

- `ascii.dfy` (`Ascii`): Python's `str.lower()`, `str.title()`, `str(n)` and `sub in s`,
  over ASCII.
- `pydict.dfy` (`PyDict`): a Python `dict` as its entries in insertion order.
  `d[k] = v` keeps the position of an existing key and appends a new one. `del d[k]`
  removes one entry.
- `headers.dfy` (`Headers`): `standardize_header_name`, and the three loops that build
  the outbound headers. These are the copy loop with its forced `Host`, the `user-agent`
  deletion loop and the `pop` loop. The module also holds the response-header loop with
  its recomputed `Content-Length`.
- `rewrite.dfy` (`Rewrite`): `modify_response` over an abstract JSON value. It covers
  Python's `in` for every kind of first element and the exceptions that escape.
- `proxy.dfy` (`Proxy`): `do_POST` as one method. The backend call is a
  function parameter.

The loops of `do_POST` are methods with loop invariants. Each method is proved equal to
a specification function (`Copied`, `WithoutNames`, `EmittedHeaders`), and lemmas state
what those functions guarantee. `standardize_header_name` and `modify_response` are
functions.

The JSON text codec is the parameter `JsonCodec`. Its `load` stands for
`json.loads(content.decode('utf-8'))`: it reports a UTF-8 failure, a `JSONDecodeError`,
another parser exception (a `ValueError` for an integer literal over the digit limit, a
`RecursionError` for nesting too deep) or a value. Its `dump` stands for
`json.dumps(data).encode('utf-8')`. `TARGET_HOST` and `MQTT_HOST` are the fields of
`Config`. When the environment sets neither, they are `101.37.40.179` and `127.0.0.1`.

The model follows the code, including these points a reader may not expect:

- The outbound `Host` is the hard-coded `api.fotile.com`, not the target host.
- The URL is always `http://` + `TARGET_HOST` + path. There is no https, no upstream IP
  override, no TLS policy and no timeout setting.
- `Connection: close` is only the starting entry of the dict. An inbound header named
  exactly `Connection` replaces its value (`CopiedLastWins`, `CopiedUntouched`).
- The `"ip"` field is overwritten even when it already holds `MQTT_HOST`.
- On the route path, valid JSON of any other shape is returned as `json.dumps`
  re-serialises it, which need not match the original bytes. Only a `JSONDecodeError`
  returns the original bytes.
- A body that is not UTF-8 raises `UnicodeDecodeError`, which is not caught there. A
  number, boolean or `null` first element raises `TypeError` at `"ip" in data[0]`. So
  does a string first element containing `ip`, or a list first element containing
  `"ip"`, at the subscript that follows. A parser exception other than `JSONDecodeError`
  is not caught either. Each of these becomes a `500` reply.
- `log_response_details` runs inside the `try` on every path. It parses a non-empty body
  with `json.loads` and catches only `UnicodeDecodeError` and `JSONDecodeError`. So a
  body whose parse raises another exception gets a `500` reply on any path
  (`ResponseLogRaises`).
- `send_header` encodes every header line as Latin-1. An upstream header that is kept
  and whose name or value has a character beyond Latin-1 raises `UnicodeEncodeError`
  at line 114, and the reply becomes a `500` (`Latin1Headers`, `EmittedLatin1`).
- The `KeyError` and `IndexError` handlers can never fire. The guard checks
  `len(data) > 0` and the presence of the key before the access.
- `title()` capitalises a letter after any non-letter (digits too), not only after
  hyphens. All five entries of the name table equal `title()` of their key, so the
  table never changes the outcome (`StandardNamesAreTitles`, `StandardizeIsTitle`).

## Model

| member | source | states |
|---|---|---|
| `Headers.StandardizeHeaderName` | fotile_bridge.py:13-21 | `standards.get(name.lower(), name.title())`: the canonical name has the length of the name; `StandardizeIsTitle` and `StandardizeProperties` say what it is |
| `Ascii.Lower` | fotile_bridge.py:21 | `str.lower()` over ASCII keeps the length and which characters are letters, and leaves no upper-case letter |
| `Ascii.Title` | fotile_bridge.py:21 | `str.title()` over ASCII keeps the length; the three lemmas below relate it to `lower()` |
| `Headers.StandardNamesAreTitles` | fotile_bridge.py:14-20 | every canonical name in the table is the title-cased form of its lower-case key |
| `Headers.StandardizeIsTitle` | fotile_bridge.py:13-21 | `standardize_header_name(name)` equals `name.title()` for every name, whether the table applies or not |
| `Headers.StandardizeProperties` | fotile_bridge.py:21 | the canonical name depends only on `name.lower()`, has the same lower-case form as the name, and standardising it again changes nothing |
| `Ascii.TitleOfLower` | fotile_bridge.py:21 | `title()` of the lower-cased name equals `title()` of the name |
| `Ascii.LowerOfTitle` | fotile_bridge.py:21 | title-casing does not change the lower-case form |
| `Ascii.TitleIdempotent` | fotile_bridge.py:21 | title-casing twice equals title-casing once |
| `PyDict.Lookup` | fotile_bridge.py:21 | `dict.get(k)`: the value of the entry with key `k`; `LookupFound` states when it finds one |
| `PyDict.LookupFound` | fotile_bridge.py:21 | `dict.get` finds nothing exactly when the key is absent, and what it finds is an entry of the dict |
| `PyDict.Assign` | fotile_bridge.py:70-72 | after `d[k] = v`, `k` looks up `v` and every other key looks up what it did before; the first key keeps its place |
| `PyDict.AssignKeys` | fotile_bridge.py:70-72 | assignment keeps the key order; a new key is appended at the end |
| `PyDict.AssignUnique` | fotile_bridge.py:70-72 | assignment keeps the keys distinct |
| `PyDict.AssignEntries` | fotile_bridge.py:70-72 | every entry after the assignment was there before or is the assigned one |
| `Headers.Copied` | fotile_bridge.py:61-72 | the copied dict has distinct keys and starts with `Connection`; every key whose lower-case form is `host` has the value `api.fotile.com` |
| `Headers.CopiedLastWins` | fotile_bridge.py:68-72 | an inbound name gets the value of its last exact occurrence, or `api.fotile.com` if it is a spelling of `host` |
| `Headers.CopiedUntouched` | fotile_bridge.py:61 | a name no inbound header carries exactly is absent, except `Connection`, which stays `close` |
| `Headers.CopyInbound` | fotile_bridge.py:61-72 | the copy loop yields exactly `Copied(inbound)` |
| `PyDict.Keys` | fotile_bridge.py:73 | `list(headers.keys())` has one key per entry, in order (`KeysAt`) |
| `PyDict.Remove` | fotile_bridge.py:75 | `del d[k]` for a key that is present removes its entry, one entry fewer; the deletion loop only deletes keys it read from the dict, so the `KeyError` of an absent key never arises |
| `PyDict.RemoveSplit` | fotile_bridge.py:75 | `del d[k]` removes exactly the entry of `k` and keeps the others in order |
| `Headers.DropStep` | fotile_bridge.py:73-75 | one round of the deletion loop moves one more key from "to inspect" to "filtered" |
| `Headers.DropUserAgent` | fotile_bridge.py:73-75 | the deletion loop leaves exactly the entries whose lower-case name is not `user-agent`, in order |
| `Headers.WithoutNames` | fotile_bridge.py:73-75 | the entries whose lower-case name is not among the given names, in order; never longer than the input |
| `Headers.WithoutNamesMembers` | fotile_bridge.py:86-88 | an entry survives the removal exactly when it was present and its lower-case name is not removed |
| `Headers.WithoutNamesUnique` | fotile_bridge.py:73-75 | removal keeps the keys distinct |
| `Headers.WithoutNamesLookup` | fotile_bridge.py:86-88 | after the removal a removed name looks up nothing and every other name looks up what it did before |
| `Headers.WithoutNamesAppend` | fotile_bridge.py:112-113 | filtering a concatenation is concatenating the filtered parts |
| `Headers.WithoutNoNames` | fotile_bridge.py:86-88 | removing no names changes nothing |
| `Headers.WithoutNamesTwice` | fotile_bridge.py:86-88 | removing names in two rounds equals removing all of them at once |
| `Headers.PopUnwanted` | fotile_bridge.py:86-88 | the `pop` loop leaves exactly the entries whose lower-case name is not `user-agent`, `accept` or `accept-encoding` |
| `Headers.OutboundHeaders` | fotile_bridge.py:61-88 | the copy, deletion and `pop` loops composed; `OutboundInvariants` and `OutboundLookup` state its properties |
| `Headers.OutboundInvariants` | fotile_bridge.py:61-88 | the outbound headers have distinct names, none whose lower-case form is `user-agent`, `accept` or `accept-encoding`, and every spelling of `host` carries `api.fotile.com` |
| `Headers.OutboundLookup` | fotile_bridge.py:68-88 | after both removal loops an unwanted name looks up nothing; every other name looks up what the copy loop gave it |
| `Headers.Standardized` | fotile_bridge.py:114 | each copied response header keeps its value and its lower-case name, and its name becomes `title()` of the upstream name |
| `Headers.EmittedHeaders` | fotile_bridge.py:111-116 | the filtered, standardised upstream headers and then the `Content-Length`; `EmittedContentLength` states its properties |
| `Headers.EmitHeaders` | fotile_bridge.py:111-116 | the emitted header lines are the upstream headers in order, minus the case-insensitive blocklist, with standardised names, followed by one `Content-Length` |
| `Headers.EmittedContentLength` | fotile_bridge.py:111-116 | the last emitted header is `Content-Length` with the decimal body length, read back as that length; no earlier header is a transfer-encoding, server or content-length header in any case |
| `Ascii.NatToDecimal` | fotile_bridge.py:116 | `str(n)` is a non-empty string of digits with no leading zero |
| `Ascii.DecimalRoundTrip` | fotile_bridge.py:116 | reading the digits of `str(n)` gives back `n` |
| `Ascii.ContainsSubAt` | fotile_bridge.py:134 | Python's substring test holds exactly when the substring occurs at some index |
| `Rewrite.PyIn` | fotile_bridge.py:134 | `"ip" in x` raises for a number, boolean or null; for an object it tests the keys, for a string the substrings, for a list the elements |
| `Rewrite.RewriteFirstIp` | fotile_bridge.py:136 | the first element's `"ip"` becomes `MQTT_HOST`; its other members, the key order, the later elements and the length are unchanged |
| `Rewrite.HasRoute` | fotile_bridge.py:134-136 | the guard holds and the first element is a dict holding `"ip"` |
| `Rewrite.RaisesTypeError` | fotile_bridge.py:134-136 | the guard reaches `"ip" in data[0]`, and that test or the subscript after it raises `TypeError` |
| `Rewrite.GuardOutcomes` | fotile_bridge.py:134-136 | the rewrite happens exactly when `"ip" in data[0]` finds the key of a dict; `TypeError` is raised exactly when the test raises or finds `"ip"` in a string or list; never both |
| `Rewrite.ModifyResponse` | fotile_bridge.py:131-139 | `JSONDecodeError`: the original bytes; not UTF-8: `UnicodeDecodeError`; another parser exception: that error; an `"ip"` route: the re-serialised rewrite; a raising first element: `TypeError`; any other JSON: the re-serialised unchanged value |
| `Rewrite.ModifyResponseErrors` | fotile_bridge.py:131-139 | `modify_response` fails exactly on a non-UTF-8 body, a parser exception other than `JSONDecodeError`, or a raising first element |
| `Ascii.TitleLatin1` | fotile_bridge.py:114 | a title-cased name is encodable as Latin-1 exactly when the name is |
| `Headers.Latin1Headers` | fotile_bridge.py:112-116 | every emitted name and value encodes as Latin-1, as `send_header` requires |
| `Headers.EmittedLatin1` | fotile_bridge.py:111-116 | the emitted lines all encode as Latin-1 exactly when every kept upstream header has a Latin-1 name and value; the `Content-Length` line always does |
| `Proxy.ContentToSend` | fotile_bridge.py:98-101 | any path other than the exact route path gets the upstream body unchanged; the route path gets `modify_response`'s outcome |
| `Proxy.ResponseLogRaises` | fotile_bridge.py:41-55 | `log_response_details` raises exactly when the body is non-empty and `json.loads` raises something other than the two exceptions it catches |
| `Proxy.DoPost` | fotile_bridge.py:61-121 | the URL is `http://` + target host + path; the body is forwarded as is; the outbound headers are the result of the three header loops; a send failure, a rewrite exception, an exception in the response logging or a header line that does not encode as Latin-1 gives a 500, in that order; otherwise the reply has the upstream status, the emitted headers and the body to send; for any other path that body is the upstream bytes and the headers end in their length |

## Left out

- Logging output: `log_request_details` only prints, and its decode failure is caught.
  Of `log_response_details` the model keeps only the exceptions its `json.loads` lets
  escape (`ResponseLogRaises`). A failing print is not modelled.
- `json.dumps` is taken to succeed on a value `json.loads` produced, both in
  `modify_response` and with `indent=2` in the logging. A nesting depth that parses but
  is too deep for the encoder is not modelled.
- `run_server`, the socket buffer option and `serve_forever`: process bootstrap.
- Environment reads of `TARGET_HOST` and `SUPERVISOR_IP`: they are the fields of `Config`.
- Reading `Content-Length` and the body from the socket: the inbound body is an input.
  Python's `int()` parsing of that header happens outside the `try` and is not modelled.
- The HTTP client: `build_request`, its default headers, the `Host` and `Content-Length`
  it adds and its case-insensitive merge of header dicts. So is `send` and its redirect
  setting. `DoPost` applies the `pop` loop to the dict it passes in. The answer, or the
  exception the client raises, is the value of the `send` parameter.
- The upstream header list is taken as what the client's `headers.items()` yields. That
  call lower-cases the names and joins repeated headers; it is library code.
- The JSON grammar, `json.dumps` formatting and UTF-8 coding: the abstract `JsonCodec`.
  JSON numbers are one `real`, so `1` and `1.0` are not told apart.
- Non-ASCII characters in `lower()` and `title()`: only ASCII letters are cased here.
- The wire format of `send_response`, `send_header`, `end_headers`, `send_error` and the
  body write: the reply is a value. When a header line fails to encode, the lines
  buffered before it and the status line already queued are not modelled; the reply is
  the `500` alone. A failing socket write is not modelled. The text of
  `str(e)` in `Proxy error: ...` is kept only for client failures. A rewrite failure
  records which exception was raised.
- Methods other than `POST`: the standard handler answers them without this code.
