/**
 Header maps and the two filters both proxy routes apply to them: removing
 the hop-by-hop request headers before a request is forwarded, and dropping
 the transport-level response headers before a response is relayed.
 */
module Headers {
  import opened Text

  /** A header set as Node hands it over: one string value per name. */
  type HeaderMap = map<string, string>

  /** `h` maps `name` to `value`. */
  predicate Has(h: HeaderMap, name: string, value: string) {
    name in h && h[name] == value
  }

  /** Headers that describe one transport connection and must not be forwarded. */
  const HOP_BY_HOP: seq<string> := [
    "connection", "keep-alive", "proxy-authenticate", "proxy-authorization",
    "te", "trailers", "transfer-encoding", "upgrade"
  ]

  /** `h` without the hop-by-hop names, every other entry kept as it is. */
  function WithoutHopByHop(h: HeaderMap): (r: HeaderMap)
    ensures forall k :: k in r <==> k in h && k !in HOP_BY_HOP
  {
    map k | k in h && k !in HOP_BY_HOP :: h[k]
  }

  /** Upstream response headers that are never relayed to the client. */
  const FORBIDDEN_RESPONSE: seq<string> := [
    "content-encoding", "transfer-encoding", "connection", "strict-transport-security"
  ]

  /** The `delete headers[header]` loop over the hop-by-hop names: exactly
      those eight names are gone and every other entry is untouched. */
  method StripHopByHop(h: HeaderMap) returns (r: HeaderMap)
    ensures forall name :: name in HOP_BY_HOP ==> name !in r
    ensures forall k :: k in r <==> k in h && k !in HOP_BY_HOP
    ensures forall k :: k in r ==> r[k] == h[k]
    ensures r == WithoutHopByHop(h)
  {
    r := h;
    for i := 0 to |HOP_BY_HOP|
      invariant forall k :: k in r <==> k in h && k !in HOP_BY_HOP[..i]
      invariant forall k :: k in r ==> r[k] == h[k]
    {
      r := r - {HOP_BY_HOP[i]};
    }
    assert HOP_BY_HOP[..|HOP_BY_HOP|] == HOP_BY_HOP;
  }

  /** A response header is relayed when its lower-cased name is none of the four forbidden names. */
  predicate Relayed(name: string) {
    Lower(name) !in FORBIDDEN_RESPONSE
  }

  /** The header names occurring in `entries`. */
  function Names(entries: seq<(string, string)>): set<string> {
    set e | e in entries :: e.0
  }

  /** The headers the response loop writes: entries whose name is relayed,
      taken in order, so a later entry with the same name overwrites an
      earlier one. Every relayed name of the upstream response is present
      and no forbidden one is. */
  function RelayedHeaders(entries: seq<(string, string)>): (r: HeaderMap)
    ensures forall k :: k in r ==> Relayed(k)
    ensures forall i :: 0 <= i < |entries| && Relayed(entries[i].0) ==> entries[i].0 in r
  {
    if entries == [] then map[]
    else
      var (key, value) := entries[|entries| - 1];
      var before := RelayedHeaders(entries[..|entries| - 1]);
      if Relayed(key) then before[key := value] else before
  }

  /** No header name is invented: every relayed name came from the upstream response. */
  lemma {:induction false} RelayedNamesOccur(entries: seq<(string, string)>)
    ensures forall k :: k in RelayedHeaders(entries) ==> k in Names(entries)
  {
    if entries != [] {
      var init := entries[..|entries| - 1];
      RelayedNamesOccur(init);
      forall e | e in init ensures e in entries { }
    }
  }

  /** Values are relayed unchanged: a relayed name carries the value of its last entry. */
  lemma {:induction false} RelayedLastWins(entries: seq<(string, string)>, i: nat)
    requires i < |entries| && Relayed(entries[i].0)
    requires forall j :: i < j < |entries| ==> entries[j].0 != entries[i].0
    ensures entries[i].0 in RelayedHeaders(entries)
    ensures RelayedHeaders(entries)[entries[i].0] == entries[i].1
  {
    var n := |entries| - 1;
    if i < n {
      var init := entries[..n];
      assert init[i] == entries[i];
      RelayedLastWins(init, i);
    }
  }

  /** The response-header loop: fills a fresh map entry by entry, skipping the forbidden names. */
  method FilterResponseHeaders(entries: seq<(string, string)>) returns (out: HeaderMap)
    ensures out == RelayedHeaders(entries)
  {
    out := map[];
    for i := 0 to |entries|
      invariant out == RelayedHeaders(entries[..i])
    {
      var (key, value) := entries[i];
      assert entries[..i + 1][..i] == entries[..i];
      if Relayed(key) {
        out := out[key := value];
      }
    }
    assert entries[..|entries|] == entries;
  }

  /** Whatever the upstream sends, none of the forbidden names reaches the
      client, in any spelling of upper and lower case. */
  lemma ForbiddenNeverRelayed(entries: seq<(string, string)>, k: string)
    requires Lower(k) in FORBIDDEN_RESPONSE
    ensures k !in RelayedHeaders(entries)
  {
  }

  /** As written, the response filter drops only the four names above, so
      the remaining hop-by-hop names of an upstream response are relayed. */
  lemma HopByHopResponseRelayed(entries: seq<(string, string)>, i: nat)
    requires i < |entries| && Lower(entries[i].0) in HOP_BY_HOP && Lower(entries[i].0) !in FORBIDDEN_RESPONSE
    ensures entries[i].0 in RelayedHeaders(entries)
  {
  }

  /** An upstream `keep-alive: timeout=5` reaches the client unchanged. */
  lemma KeepAliveRelayed()
    ensures Has(RelayedHeaders([("keep-alive", "timeout=5")]), "keep-alive", "timeout=5")
  {
    var entries := [("keep-alive", "timeout=5")];
    assert Lower("keep-alive") == "keep-alive";
    assert Relayed("keep-alive");
    RelayedLastWins(entries, 0);
  }

  /** A response header that is end-to-end in the sense of section 6.1 of
      RFC 7230: none of the four dropped names and none of the eight
      hop-by-hop names, in any letter case. */
  predicate EndToEnd(name: string) {
    Relayed(name) && Lower(name) !in HOP_BY_HOP
  }

  /** The response filter with the hop-by-hop names dropped as well: no
      hop-by-hop or forbidden name in any letter case reaches the client,
      every end-to-end name of the upstream response does, and each relayed
      value is the one the filter as written relays. */
  function EndToEndHeaders(entries: seq<(string, string)>): (r: HeaderMap)
    ensures forall k :: k in r ==> EndToEnd(k)
    ensures forall i :: 0 <= i < |entries| && EndToEnd(entries[i].0) ==> entries[i].0 in r
    ensures forall k :: k in r ==> Has(RelayedHeaders(entries), k, r[k])
  {
    var relayed := RelayedHeaders(entries);
    map k | k in relayed && Lower(k) !in HOP_BY_HOP :: relayed[k]
  }

  /** With the correction, no hop-by-hop name reaches the client in any letter case. */
  lemma EndToEndDropsHopByHop(entries: seq<(string, string)>, k: string)
    requires Lower(k) in HOP_BY_HOP
    ensures k !in EndToEndHeaders(entries)
  {
  }

  /** With the correction, an end-to-end name still carries the value of its last upstream entry. */
  lemma EndToEndLastWins(entries: seq<(string, string)>, i: nat)
    requires i < |entries| && EndToEnd(entries[i].0)
    requires forall j :: i < j < |entries| ==> entries[j].0 != entries[i].0
    ensures Has(EndToEndHeaders(entries), entries[i].0, entries[i].1)
  {
    RelayedLastWins(entries, i);
  }

  /** As written, two `set-cookie` entries of one upstream response (the
      only name `Headers.entries()` yields more than once) reach the client
      as one: the second cookie replaces the first. */
  lemma SecondCookieReplacesFirst()
    ensures var r := RelayedHeaders([("set-cookie", "a=1"), ("set-cookie", "b=2")]);
      Has(r, "set-cookie", "b=2") && forall k :: k in r ==> k == "set-cookie"
  {
    var entries := [("set-cookie", "a=1"), ("set-cookie", "b=2")];
    assert Lower("set-cookie") == "set-cookie";
    RelayedLastWins(entries, 1);
    RelayedNamesOccur(entries);
    assert forall e :: e in entries ==> e.0 == "set-cookie";
  }

  /** Every value of every relayed name, in upstream order: the response
      filter with repeated names (such as several cookies) kept apart. */
  function RelayedValues(entries: seq<(string, string)>): (r: map<string, seq<string>>)
    ensures forall k :: k in r ==> Relayed(k)
    ensures forall i :: 0 <= i < |entries| && Relayed(entries[i].0) ==> entries[i].0 in r && entries[i].1 in r[entries[i].0]
  {
    if entries == [] then map[]
    else
      var init := entries[..|entries| - 1];
      var (key, value) := entries[|entries| - 1];
      var before := RelayedValues(init);
      assert forall i :: 0 <= i < |init| ==> init[i] == entries[i];
      if Relayed(key) then before[key := (if key in before then before[key] else []) + [value]] else before
  }

  /** With values kept apart, both cookies reach the client, in order. */
  lemma BothCookiesRelayed()
    ensures RelayedValues([("set-cookie", "a=1"), ("set-cookie", "b=2")]) == map["set-cookie" := ["a=1", "b=2"]]
  {
    var entries := [("set-cookie", "a=1"), ("set-cookie", "b=2")];
    assert Lower("set-cookie") == "set-cookie";
    assert Relayed("set-cookie");
    var first := [("set-cookie", "a=1")];
    assert first[..0] == [];
    assert RelayedValues(first[..0]) == map[];
    assert RelayedValues(first) == map["set-cookie" := [] + ["a=1"]];
    assert entries[..|entries| - 1] == first;
    assert entries[|entries| - 1] == ("set-cookie", "b=2");
    var before := RelayedValues(first);
    assert "set-cookie" in before && before["set-cookie"] == ["a=1"];
    assert RelayedValues(entries) == before["set-cookie" := ["a=1"] + ["b=2"]];
    assert ["a=1"] + ["b=2"] == ["a=1", "b=2"];
  }

  /** The corrected filter agrees with the filter as written on the last
      value of every name, so only repeated names are affected. */
  lemma {:induction false} RelayedValuesLastIsRelayed(entries: seq<(string, string)>)
    ensures forall k :: k in RelayedValues(entries) <==> k in RelayedHeaders(entries)
    ensures forall k :: k in RelayedValues(entries) ==>
      |RelayedValues(entries)[k]| > 0 && RelayedValues(entries)[k][|RelayedValues(entries)[k]| - 1] == RelayedHeaders(entries)[k]
  {
    if entries != [] {
      RelayedValuesLastIsRelayed(entries[..|entries| - 1]);
    }
  }
}
