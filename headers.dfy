/** Header handling of the proxy: the canonical spelling of response header names,
    the outbound header dict built from the device's request, and the header lines
    written back to the device. */
module Headers {
  import opened Ascii
  import opened PyDict

  type Header = (string, string)

  /** The value the outbound `Host` header is forced to (hard-coded, independent of the target host). */
  const FotileHost: string := "api.fotile.com"

  /** The dict the outbound headers start from. */
  const InitialHeaders: seq<Header> := [("Connection", "close")]

  /** Names popped from the built request, matched case-insensitively. */
  const Unwanted: seq<string> := ["user-agent", "accept", "accept-encoding"]

  /** Upstream response headers never copied to the device, matched case-insensitively. */
  const BlockedResponse: seq<string> := ["transfer-encoding", "server", "content-length"]

  /** The lookup table of `standardize_header_name`. */
  const StandardNames: seq<(string, string)> := [
    ("date", "Date"),
    ("content-length", "Content-Length"),
    ("set-cookie", "Set-Cookie"),
    ("content-type", "Content-Type"),
    ("x-frame-options", "X-Frame-Options")
  ]

  /** `standards.get(name.lower(), name.title())` */
  function StandardizeHeaderName(name: string): (r: string)
    ensures |r| == |name|
  {
    match Lookup(StandardNames, Lower(name))
    case Some(canonical) =>
      assert |Lower(name)| == |canonical| by {
        LookupFound(StandardNames, Lower(name));
        assert (Lower(name), canonical) in StandardNames;
      }
      canonical
    case None => Title(name)
  }

  /** Every entry of the table is the title-cased form of its key. */
  lemma StandardNamesAreTitles()
    ensures forall e :: e in StandardNames ==> e.1 == Title(e.0)
  {
    assert Title("date") == "Date";
    assert Title("content-length") == "Content-Length";
    assert Title("set-cookie") == "Set-Cookie";
    assert Title("content-type") == "Content-Type";
    assert Title("x-frame-options") == "X-Frame-Options";
  }

  /** So the table never changes the outcome: the canonical name is always `name.title()`. */
  lemma StandardizeIsTitle(name: string)
    ensures StandardizeHeaderName(name) == Title(name)
  {
    match Lookup(StandardNames, Lower(name))
    case Some(canonical) =>
      StandardNamesAreTitles();
      LookupFound(StandardNames, Lower(name));
      assert (Lower(name), canonical) in StandardNames;
      TitleOfLower(name);
    case None =>
  }

  /** The canonical name depends only on the lower-case form of the name, keeps that
      lower-case form, and standardising twice changes nothing. */
  lemma StandardizeProperties(a: string, b: string)
    ensures Lower(a) == Lower(b) ==> StandardizeHeaderName(a) == StandardizeHeaderName(b)
    ensures Lower(StandardizeHeaderName(a)) == Lower(a)
    ensures StandardizeHeaderName(StandardizeHeaderName(a)) == StandardizeHeaderName(a)
  {
    StandardizeIsTitle(a);
    StandardizeIsTitle(b);
    StandardizeIsTitle(Title(a));
    TitleOfLower(a);
    TitleOfLower(b);
    LowerOfTitle(a);
    TitleIdempotent(a);
  }

  // ---------------------------------------------------------------------------
  // Outbound headers

  /** The value copied for one inbound header: any spelling of `Host` is forced. */
  function OutboundValue(h: Header): string
  {
    if Lower(h.0) == "host" then FotileHost else h.1
  }

  /** The headers dict after the copy loop has processed `inbound` in order. */
  function Copied(inbound: seq<Header>): (d: seq<Header>)
    ensures UniqueKeys(d)
    ensures |d| >= 1 && d[0].0 == "Connection"
    ensures forall e :: e in d && Lower(e.0) == "host" ==> e.1 == FotileHost
    decreases |inbound|
  {
    if inbound == [] then InitialHeaders
    else
      var last := inbound[|inbound| - 1];
      var before := Copied(inbound[..|inbound| - 1]);
      AssignUnique(before, last.0, OutboundValue(last));
      AssignEntries(before, last.0, OutboundValue(last));
      Assign(before, last.0, OutboundValue(last))
  }

  /** For a name that occurs among the inbound headers, the dict holds the value of its
      last occurrence (forced for `Host`). */
  lemma {:induction false} CopiedLastWins(inbound: seq<Header>, j: nat)
    requires j < |inbound|
    requires forall j' :: j < j' < |inbound| ==> inbound[j'].0 != inbound[j].0
    ensures Lookup(Copied(inbound), inbound[j].0) == Some(OutboundValue(inbound[j]))
    decreases |inbound|
  {
    var n := |inbound| - 1;
    var prefix := inbound[..n];
    var k := inbound[j].0;
    assert Copied(inbound) == Assign(Copied(prefix), inbound[n].0, OutboundValue(inbound[n]));
    if j < n {
      assert inbound[n].0 != k;
      assert prefix[j] == inbound[j];
      forall j' | j < j' < |prefix| ensures prefix[j'].0 != prefix[j].0 {
        assert prefix[j'] == inbound[j'];
      }
      CopiedLastWins(prefix, j);
      assert Lookup(Copied(inbound), k) == Lookup(Copied(prefix), k);
    }
  }

  /** A name that no inbound header carries exactly keeps its initial state:
      `Connection` is still `close`, any other name is absent. */
  lemma {:induction false} CopiedUntouched(inbound: seq<Header>, k: string)
    requires forall j :: 0 <= j < |inbound| ==> inbound[j].0 != k
    ensures Lookup(Copied(inbound), k) == if k == "Connection" then Some("close") else None
    decreases |inbound|
  {
    if inbound != [] {
      var n := |inbound| - 1;
      CopiedUntouched(inbound[..n], k);
    } else {
      assert Keys(InitialHeaders) == ["Connection"];
    }
  }

  /** The copy loop over `self.headers.items()`. */
  method CopyInbound(inbound: seq<Header>) returns (headers: seq<Header>)
    ensures headers == Copied(inbound)
  {
    headers := InitialHeaders;
    for i := 0 to |inbound|
      invariant headers == Copied(inbound[..i])
    {
      var (key, value) := inbound[i];
      if Lower(key) == "host" {
        headers := Assign(headers, key, FotileHost);
      } else {
        headers := Assign(headers, key, value);
      }
      assert inbound[..i + 1][..i] == inbound[..i];
    }
    assert inbound[..|inbound|] == inbound;
  }

  /** The entries of `d` whose lower-cased name is not one of `names`, in order. */
  function WithoutNames(d: seq<Header>, names: seq<string>): (r: seq<Header>)
    ensures |r| <= |d|
  {
    if d == [] then []
    else if Lower(d[0].0) in names then WithoutNames(d[1..], names)
    else [d[0]] + WithoutNames(d[1..], names)
  }

  lemma {:induction false} WithoutNamesMembers(d: seq<Header>, names: seq<string>)
    ensures forall e :: e in WithoutNames(d, names) <==> e in d && Lower(e.0) !in names
  {
    if d != [] {
      WithoutNamesMembers(d[1..], names);
    }
  }

  lemma {:induction false} WithoutNamesUnique(d: seq<Header>, names: seq<string>)
    requires UniqueKeys(d)
    ensures UniqueKeys(WithoutNames(d, names))
  {
    if d != [] {
      var rest := WithoutNames(d[1..], names);
      WithoutNamesUnique(d[1..], names);
      if Lower(d[0].0) !in names {
        WithoutNamesMembers(d[1..], names);
        var r := [d[0]] + rest;
        forall i, j | 0 <= i < j < |r| ensures r[i].0 != r[j].0 {
          if i == 0 {
            assert r[j] == rest[j - 1] && rest[j - 1] in rest;
            var m :| 0 <= m < |d[1..]| && d[1..][m] == r[j];
            assert d[m + 1] == r[j];
          } else {
            assert r[i] == rest[i - 1] && r[j] == rest[j - 1];
          }
        }
      }
    }
  }

  /** Looking a name up after the removal: gone if it is one of `names`, as before otherwise. */
  lemma {:induction false} WithoutNamesLookup(d: seq<Header>, names: seq<string>, k: string)
    ensures Lookup(WithoutNames(d, names), k) == if Lower(k) in names then None else Lookup(d, k)
  {
    if d != [] {
      WithoutNamesLookup(d[1..], names, k);
    }
  }

  lemma {:induction false} WithoutNamesAppend(a: seq<Header>, b: seq<Header>, names: seq<string>)
    ensures WithoutNames(a + b, names) == WithoutNames(a, names) + WithoutNames(b, names)
  {
    if a != [] {
      assert (a + b)[0] == a[0];
      assert (a + b)[1..] == a[1..] + b;
      WithoutNamesAppend(a[1..], b, names);
    } else {
      assert a + b == b;
    }
  }

  lemma {:induction false} WithoutNoNames(d: seq<Header>)
    ensures WithoutNames(d, []) == d
  {
    if d != [] {
      WithoutNoNames(d[1..]);
    }
  }

  lemma {:induction false} WithoutNamesTwice(d: seq<Header>, a: seq<string>, b: seq<string>)
    ensures WithoutNames(WithoutNames(d, a), b) == WithoutNames(d, a + b)
  {
    if d != [] {
      WithoutNamesTwice(d[1..], a, b);
    }
  }

  /** One round of the deletion loop: with the first `i` keys processed, deleting key `i`
      if it matches leaves the first `i + 1` keys processed. */
  lemma DropStep(headers0: seq<Header>, i: nat, names: seq<string>)
    requires UniqueKeys(headers0)
    requires i < |headers0|
    ensures Lower(headers0[i].0) in names ==>
      Remove(WithoutNames(headers0[..i], names) + headers0[i..], headers0[i].0)
      == WithoutNames(headers0[..i + 1], names) + headers0[i + 1..]
    ensures Lower(headers0[i].0) !in names ==>
      WithoutNames(headers0[..i], names) + headers0[i..]
      == WithoutNames(headers0[..i + 1], names) + headers0[i + 1..]
  {
    var done := WithoutNames(headers0[..i], names);
    assert headers0[i..] == [headers0[i]] + headers0[i + 1..];
    assert headers0[..i + 1] == headers0[..i] + [headers0[i]];
    WithoutNamesAppend(headers0[..i], [headers0[i]], names);
    if Lower(headers0[i].0) in names {
      assert WithoutNames([headers0[i]], names) == [];
      assert done + headers0[i..] == done + [headers0[i]] + headers0[i + 1..];
      WithoutNamesMembers(headers0[..i], names);
      forall x | x in done ensures x.0 != headers0[i].0 {
        var m :| 0 <= m < i && headers0[..i][m] == x;
        assert headers0[m] == x;
      }
      RemoveSplit(done, headers0[i], headers0[i + 1..]);
    } else {
      assert WithoutNames([headers0[i]], names) == [headers0[i]];
    }
  }

  /** The name the deletion loop removes. */
  const UserAgent: seq<string> := ["user-agent"]

  /** The deletion loop over a snapshot of the keys: every key whose lower-case form is
      `user-agent` is deleted. */
  method DropUserAgent(headers0: seq<Header>) returns (headers: seq<Header>)
    requires UniqueKeys(headers0)
    ensures headers == WithoutNames(headers0, UserAgent)
  {
    var keys := Keys(headers0);
    headers := headers0;
    assert headers0[..0] == [];
    for i := 0 to |keys|
      invariant headers == WithoutNames(headers0[..i], UserAgent) + headers0[i..]
    {
      DropStep(headers0, i, UserAgent);
      KeysAt(headers0, i);
      if Lower(keys[i]) == "user-agent" {
        headers := Remove(headers, keys[i]);
      }
    }
    assert headers0[..|keys|] == headers0;
  }

  /** The `pop` loop over the unwanted names. */
  method PopUnwanted(headers0: seq<Header>) returns (headers: seq<Header>)
    ensures headers == WithoutNames(headers0, Unwanted)
  {
    headers := headers0;
    WithoutNoNames(headers0);
    for i := 0 to |Unwanted|
      invariant headers == WithoutNames(headers0, Unwanted[..i])
    {
      WithoutNamesTwice(headers0, Unwanted[..i], [Unwanted[i]]);
      assert Unwanted[..i] + [Unwanted[i]] == Unwanted[..i + 1];
      headers := WithoutNames(headers, [Unwanted[i]]);
    }
    assert Unwanted[..|Unwanted|] == Unwanted;
  }

  /** The outbound headers after the copy loop, the deletion loop and the `pop` loop. */
  function OutboundHeaders(inbound: seq<Header>): seq<Header>
  {
    WithoutNames(WithoutNames(Copied(inbound), UserAgent), Unwanted)
  }

  /** The outbound headers form a dict in which no name is unwanted in any spelling and
      every spelling of `Host` carries `api.fotile.com`. */
  lemma OutboundInvariants(inbound: seq<Header>)
    ensures UniqueKeys(OutboundHeaders(inbound))
    ensures forall e :: e in OutboundHeaders(inbound) ==> Lower(e.0) !in Unwanted
    ensures forall e :: e in OutboundHeaders(inbound) && Lower(e.0) == "host" ==> e.1 == FotileHost
  {
    var copied := Copied(inbound);
    WithoutNamesMembers(copied, UserAgent);
    WithoutNamesMembers(WithoutNames(copied, UserAgent), Unwanted);
    WithoutNamesUnique(copied, UserAgent);
    WithoutNamesUnique(WithoutNames(copied, UserAgent), Unwanted);
  }

  /** The outbound headers entry by entry: an unwanted name looks up nothing; every other
      name looks up what the copy loop gave it, which `CopiedLastWins` and
      `CopiedUntouched` describe. */
  lemma OutboundLookup(inbound: seq<Header>, k: string)
    ensures Lower(k) in Unwanted ==> Lookup(OutboundHeaders(inbound), k) == None
    ensures Lower(k) !in Unwanted ==> Lookup(OutboundHeaders(inbound), k) == Lookup(Copied(inbound), k)
  {
    var once := WithoutNames(Copied(inbound), UserAgent);
    WithoutNamesLookup(once, Unwanted, k);
    WithoutNamesLookup(Copied(inbound), UserAgent, k);
  }

  // ---------------------------------------------------------------------------
  // Response headers

  /** Each header with its name standardised, values and order kept. */
  function Standardized(hs: seq<Header>): (r: seq<Header>)
    ensures |r| == |hs|
    ensures forall i :: 0 <= i < |hs| ==>
      r[i].1 == hs[i].1 && r[i].0 == Title(hs[i].0) && Lower(r[i].0) == Lower(hs[i].0)
  {
    forall i | 0 <= i < |hs| ensures Lower(StandardizeHeaderName(hs[i].0)) == Lower(hs[i].0)
      && StandardizeHeaderName(hs[i].0) == Title(hs[i].0)
    {
      StandardizeProperties(hs[i].0, hs[i].0);
      StandardizeIsTitle(hs[i].0);
    }
    seq(|hs|, i requires 0 <= i < |hs| => (StandardizeHeaderName(hs[i].0), hs[i].1))
  }

  /** The header lines sent to the device for an upstream header list and a body of
      `bodyLength` bytes. */
  function EmittedHeaders(upstream: seq<Header>, bodyLength: nat): seq<Header>
  {
    Standardized(WithoutNames(upstream, BlockedResponse)) + [("Content-Length", NatToDecimal(bodyLength))]
  }

  /** The filtering loop of `send_header` calls, then the recomputed `Content-Length`. */
  method EmitHeaders(upstream: seq<Header>, bodyLength: nat) returns (sent: seq<Header>)
    ensures sent == EmittedHeaders(upstream, bodyLength)
  {
    sent := [];
    for i := 0 to |upstream|
      invariant sent == Standardized(WithoutNames(upstream[..i], BlockedResponse))
    {
      var (key, value) := upstream[i];
      assert upstream[..i + 1] == upstream[..i] + [upstream[i]];
      WithoutNamesAppend(upstream[..i], [upstream[i]], BlockedResponse);
      if Lower(key) !in BlockedResponse {
        sent := sent + [(StandardizeHeaderName(key), value)];
      }
    }
    assert upstream[..|upstream|] == upstream;
    sent := sent + [("Content-Length", NatToDecimal(bodyLength))];
  }

  /** Every header line can be written: `send_header` encodes each name and value as
      Latin-1 and raises `UnicodeEncodeError` otherwise. */
  predicate Latin1Headers(hs: seq<Header>)
  {
    forall i :: 0 <= i < |hs| ==> IsLatin1(hs[i].0) && IsLatin1(hs[i].1)
  }

  /** The emitted header lines can all be written exactly when every upstream header that
      is not blocklisted has a Latin-1 name and value; the `Content-Length` line always can. */
  lemma EmittedLatin1(upstream: seq<Header>, bodyLength: nat)
    ensures Latin1Headers(EmittedHeaders(upstream, bodyLength)) <==>
      forall e :: e in WithoutNames(upstream, BlockedResponse) ==> IsLatin1(e.0) && IsLatin1(e.1)
  {
    var kept := WithoutNames(upstream, BlockedResponse);
    var hs := EmittedHeaders(upstream, bodyLength);
    var digits := NatToDecimal(bodyLength);
    assert IsLatin1(digits) by {
      forall i | 0 <= i < |digits| ensures digits[i] as int < 256 {
        assert IsDigit(digits[i]);
      }
    }
    assert IsLatin1("Content-Length");
    assert hs[|hs| - 1] == ("Content-Length", digits);
    forall i | 0 <= i < |kept|
      ensures (IsLatin1(hs[i].0) && IsLatin1(hs[i].1)) <==> (IsLatin1(kept[i].0) && IsLatin1(kept[i].1))
    {
      TitleLatin1(kept[i].0);
    }
    if forall e :: e in kept ==> IsLatin1(e.0) && IsLatin1(e.1) {
      forall i | 0 <= i < |hs| ensures IsLatin1(hs[i].0) && IsLatin1(hs[i].1) {
        if i < |kept| {
          assert kept[i] in kept;
        }
      }
    }
    if Latin1Headers(hs) {
      forall e | e in kept ensures IsLatin1(e.0) && IsLatin1(e.1) {
        var i :| 0 <= i < |kept| && kept[i] == e;
        assert IsLatin1(hs[i].0) && IsLatin1(hs[i].1);
      }
    }
  }

  /** Exactly one emitted header is a `Content-Length`, the last, and it states the body length. */
  lemma EmittedContentLength(upstream: seq<Header>, bodyLength: nat)
    ensures var hs := EmittedHeaders(upstream, bodyLength);
      && hs[|hs| - 1] == ("Content-Length", NatToDecimal(bodyLength))
      && DecimalValue(hs[|hs| - 1].1) == bodyLength
      && forall i :: 0 <= i < |hs| - 1 ==> Lower(hs[i].0) !in BlockedResponse
  {
    var kept := WithoutNames(upstream, BlockedResponse);
    var hs := EmittedHeaders(upstream, bodyLength);
    DecimalRoundTrip(bodyLength);
    WithoutNamesMembers(upstream, BlockedResponse);
    forall i | 0 <= i < |hs| - 1 ensures Lower(hs[i].0) !in BlockedResponse {
      assert kept[i] in kept;
    }
  }
}
