/**
 The two forwarding routes of the proxy. The primary route (`app.all('*')`)
 forwards to the Generative Language API with one caller key selected from a
 comma-separated list; the status route (`app.all('/status')`) mirrors the AI
 Studio status page with no credential logic. Each route is a specification
 function giving the outbound header map, and a method that builds the same
 map the way the handler does: for the primary route a copy loop, the
 credential re-insert, five field assignments and the hop-by-hop delete loop;
 for the status route a spread copy, three field assignments and the same
 delete loop.
 */
module Proxy {
  import opened Text
  import opened Headers
  import opened Credentials

  const TARGET_API_URL := "https://generativelanguage.googleapis.com"
  /** `new URL(TARGET_API_URL).hostname` */
  const TARGET_HOSTNAME := "generativelanguage.googleapis.com"
  /** `new URL(TARGET_API_URL).origin` */
  const TARGET_ORIGIN := "https://generativelanguage.googleapis.com"

  const STATUS_HOST := "aistudio.google.com"
  const STATUS_ORIGIN := "https://aistudio.google.com"

  /** The outbound Bearer header is written with a capital `A`. */
  const OUTBOUND_AUTHORIZATION := "Authorization"
  const BEARER_SCHEME := "Bearer "

  /** Names the primary route overwrites after copying. */
  const PRIMARY_OVERRIDES: seq<string> := ["host", "origin", "referer", "x-forwarded-for", "x-forwarded-proto"]
  /** Names the status route overwrites after copying. */
  const STATUS_OVERRIDES: seq<string> := ["host", "origin", "referer"]

  /** The inbound header names the primary route never copies, compared lower-cased. */
  predicate IsCredentialName(name: string) {
    Lower(name) == GOOG_API_KEY || Lower(name) == AUTHORIZATION
  }

  /** `req.headers[name] || fallback`: the inbound value when it is present
      and non-empty, the fallback otherwise. */
  function Fallback(h: HeaderMap, name: string, fallback: string): (r: string)
    ensures Present(h, name) ==> Has(h, name, r)
    ensures !Present(h, name) ==> r == fallback
    ensures r == "" ==> fallback == ""
  {
    if Present(h, name) then h[name] else fallback
  }

  /** The handler's `selectedKey`: one of the keys parsed from the source
      `ExtractCredential` chose, empty exactly when there is none. */
  function SelectedKey(h: HeaderMap, pick: nat): (key: string)
    requires PickInRange(ExtractCredential(h), pick)
    ensures key == "" <==> ExtractCredential(h).source == NoSource || ParseKeys(ExtractCredential(h).raw) == []
    ensures key != "" ==> key in ParseKeys(ExtractCredential(h).raw)
  {
    SelectKey(ExtractCredential(h), pick)
  }

  /** The credential header re-inserted after the copy: under the header
      matching the key's source, and only when a key was selected. */
  function WithCredential(m: HeaderMap, source: KeySource, key: string): (r: HeaderMap)
    ensures forall k :: k in m ==> k in r
    ensures forall k :: k in m && k != GOOG_API_KEY && k != OUTBOUND_AUTHORIZATION ==> r[k] == m[k]
    ensures forall k :: k in r && k !in m ==>
      key != "" && source != NoSource && k == (if source == GoogApiKey then GOOG_API_KEY else OUTBOUND_AUTHORIZATION)
    ensures key != "" && source == GoogApiKey ==> Has(r, GOOG_API_KEY, key)
    ensures key != "" && source == BearerToken ==> Has(r, OUTBOUND_AUTHORIZATION, BEARER_SCHEME + key)
  {
    if key == "" then m
    else match source
      case GoogApiKey => m[GOOG_API_KEY := key]
      case BearerToken => m[OUTBOUND_AUTHORIZATION := BEARER_SCHEME + key]
      case NoSource => m
  }

  /** The names the primary route writes itself are not hop-by-hop names. */
  lemma WrittenNamesNotHopByHop()
    ensures "host" !in HOP_BY_HOP && "origin" !in HOP_BY_HOP && "referer" !in HOP_BY_HOP
    ensures "x-forwarded-for" !in HOP_BY_HOP && "x-forwarded-proto" !in HOP_BY_HOP
    ensures GOOG_API_KEY !in HOP_BY_HOP && OUTBOUND_AUTHORIZATION !in HOP_BY_HOP
  {
  }

  /** The two credential names the primary route writes are credential names
      and the five names it overwrites are not. */
  lemma CredentialNameFacts()
    ensures IsCredentialName(GOOG_API_KEY) && IsCredentialName(OUTBOUND_AUTHORIZATION)
    ensures forall k :: k in PRIMARY_OVERRIDES ==> !IsCredentialName(k)
  {
    assert Lower(GOOG_API_KEY) == GOOG_API_KEY;
    assert Lower(OUTBOUND_AUTHORIZATION) == AUTHORIZATION;
  }

  /** Everything inbound except the two credential headers (the copy loop). */
  function WithoutCredentials(h: HeaderMap): (r: HeaderMap)
    ensures forall k :: k in r <==> k in h && !IsCredentialName(k)
    ensures forall k :: k in r ==> r[k] == h[k]
  {
    map k | k in h && !IsCredentialName(k) :: h[k]
  }

  /** The field assignments that point the request at the target API. */
  function Retarget(m: HeaderMap, h: HeaderMap, peer: string, protocol: string): (r: HeaderMap)
    ensures forall k :: k in r <==> k in m || k in PRIMARY_OVERRIDES
  {
    m["host" := TARGET_HOSTNAME]["origin" := TARGET_ORIGIN]["referer" := TARGET_API_URL]
     ["x-forwarded-for" := Fallback(h, "x-forwarded-for", peer)]
     ["x-forwarded-proto" := Fallback(h, "x-forwarded-proto", protocol)]
  }

  /** After retargeting and removing the hop-by-hop names, `host`, `origin`
      and `referer` name the target API. */
  lemma RetargetWritesTarget(m: HeaderMap, h: HeaderMap, peer: string, protocol: string)
    ensures var out := WithoutHopByHop(Retarget(m, h, peer, protocol));
      Has(out, "host", TARGET_HOSTNAME) && Has(out, "origin", TARGET_ORIGIN) && Has(out, "referer", TARGET_API_URL)
  {
    WrittenNamesNotHopByHop();
    var r := Retarget(m, h, peer, protocol);
    assert Has(r, "host", TARGET_HOSTNAME) && Has(r, "origin", TARGET_ORIGIN) && Has(r, "referer", TARGET_API_URL);
  }

  /** After retargeting and removing the hop-by-hop names, the forwarding
      headers carry the inbound value or its fallback. */
  lemma RetargetWritesForwarding(m: HeaderMap, h: HeaderMap, peer: string, protocol: string)
    ensures var out := WithoutHopByHop(Retarget(m, h, peer, protocol));
      && Has(out, "x-forwarded-for", Fallback(h, "x-forwarded-for", peer))
      && Has(out, "x-forwarded-proto", Fallback(h, "x-forwarded-proto", protocol))
  {
    WrittenNamesNotHopByHop();
    var r := Retarget(m, h, peer, protocol);
    assert Has(r, "x-forwarded-for", Fallback(h, "x-forwarded-for", peer));
    assert Has(r, "x-forwarded-proto", Fallback(h, "x-forwarded-proto", protocol));
  }

  /** After retargeting and removing the hop-by-hop names, no hop-by-hop
      name is left, every other entry of `m` is kept and nothing else is added. */
  lemma RetargetKeeps(m: HeaderMap, h: HeaderMap, peer: string, protocol: string)
    ensures var out := WithoutHopByHop(Retarget(m, h, peer, protocol));
      && (forall n :: n in HOP_BY_HOP ==> n !in out)
      && (forall k :: k in m && k !in HOP_BY_HOP && k !in PRIMARY_OVERRIDES ==> k in out && out[k] == m[k])
      && (forall k :: k in out ==> k in PRIMARY_OVERRIDES || (k in m && k !in HOP_BY_HOP))
  {
  }

  /** Outbound headers of the primary route, for inbound headers `h`, the
      peer address `peer`, the request protocol `protocol` and the random
      index `pick`: the inbound headers without the credential headers, the
      selected key re-inserted, the target and forwarding headers written,
      and the hop-by-hop names removed. */
  function PrimaryHeaders(h: HeaderMap, peer: string, protocol: string, pick: nat): (r: HeaderMap)
    requires PickInRange(ExtractCredential(h), pick)
    ensures forall n :: n in HOP_BY_HOP ==> n !in r
  {
    var withKey := WithCredential(WithoutCredentials(h), ExtractCredential(h).source, SelectedKey(h, pick));
    WithoutHopByHop(Retarget(withKey, h, peer, protocol))
  }

  /** Before retargeting, the only credential header is the re-inserted key. */
  lemma WithCredentialSlot(h: HeaderMap, source: KeySource, key: string)
    ensures var m := WithCredential(WithoutCredentials(h), source, key);
      forall k :: k in m && IsCredentialName(k) ==>
        key != "" && ((source == GoogApiKey && k == GOOG_API_KEY && m[k] == key)
                      || (source == BearerToken && k == OUTBOUND_AUTHORIZATION && m[k] == BEARER_SCHEME + key))
    ensures var m := WithCredential(WithoutCredentials(h), source, key);
      && (key != "" && source == GoogApiKey ==> Has(m, GOOG_API_KEY, key))
      && (key != "" && source == BearerToken ==> Has(m, OUTBOUND_AUTHORIZATION, BEARER_SCHEME + key))
  {
    CredentialNameFacts();
  }

  /** Before retargeting, every other inbound header is kept as it is and
      nothing but a credential header is added. */
  lemma WithCredentialKeeps(h: HeaderMap, source: KeySource, key: string)
    ensures var m := WithCredential(WithoutCredentials(h), source, key);
      && (forall k :: k in h && !IsCredentialName(k) ==> k in m && m[k] == h[k])
      && (forall k :: k in m ==> IsCredentialName(k) || k in h)
  {
    CredentialNameFacts();
  }

  /** No inbound header whose lower-cased name is `x-goog-api-key` or
      `authorization` survives, whether or not it supplied the key: the only
      credential header present is the selected key under the name matching
      its source, and it is present whenever a key was selected. */
  lemma PrimaryCredentialSlot(h: HeaderMap, peer: string, protocol: string, pick: nat)
    requires PickInRange(ExtractCredential(h), pick)
    ensures var out, source, key := PrimaryHeaders(h, peer, protocol, pick), ExtractCredential(h).source, SelectedKey(h, pick);
      forall k :: k in out && IsCredentialName(k) ==>
        key != "" && ((source == GoogApiKey && k == GOOG_API_KEY && out[k] == key)
                      || (source == BearerToken && k == OUTBOUND_AUTHORIZATION && out[k] == BEARER_SCHEME + key))
    ensures var out, source, key := PrimaryHeaders(h, peer, protocol, pick), ExtractCredential(h).source, SelectedKey(h, pick);
      key != "" && source == GoogApiKey ==> Has(out, GOOG_API_KEY, key)
    ensures var out, source, key := PrimaryHeaders(h, peer, protocol, pick), ExtractCredential(h).source, SelectedKey(h, pick);
      key != "" && source == BearerToken ==> Has(out, OUTBOUND_AUTHORIZATION, BEARER_SCHEME + key)
  {
    CredentialNameFacts();
    WrittenNamesNotHopByHop();
    var source, key := ExtractCredential(h).source, SelectedKey(h, pick);
    var withKey := WithCredential(WithoutCredentials(h), source, key);
    WithCredentialSlot(h, source, key);
    RetargetKeeps(withKey, h, peer, protocol);
  }

  /** `host`, `origin` and `referer` name the target API, and the forwarding
      headers keep a non-empty inbound value or fall back to the peer address
      and the request protocol. */
  lemma PrimaryRetargets(h: HeaderMap, peer: string, protocol: string, pick: nat)
    requires PickInRange(ExtractCredential(h), pick)
    ensures var out := PrimaryHeaders(h, peer, protocol, pick);
      && Has(out, "host", TARGET_HOSTNAME) && Has(out, "origin", TARGET_ORIGIN) && Has(out, "referer", TARGET_API_URL)
      && Has(out, "x-forwarded-for", if Present(h, "x-forwarded-for") then h["x-forwarded-for"] else peer)
      && Has(out, "x-forwarded-proto", if Present(h, "x-forwarded-proto") then h["x-forwarded-proto"] else protocol)
  {
    var withKey := WithCredential(WithoutCredentials(h), ExtractCredential(h).source, SelectedKey(h, pick));
    RetargetWritesTarget(withKey, h, peer, protocol);
    RetargetWritesForwarding(withKey, h, peer, protocol);
  }

  /** None of the hop-by-hop names is sent upstream; every other inbound
      header is copied unchanged, and nothing else is added. */
  lemma PrimaryPassesTheRest(h: HeaderMap, peer: string, protocol: string, pick: nat)
    requires PickInRange(ExtractCredential(h), pick)
    ensures var out := PrimaryHeaders(h, peer, protocol, pick);
      && (forall n :: n in HOP_BY_HOP ==> n !in out)
      && (forall k :: k in h && !IsCredentialName(k) && k !in HOP_BY_HOP && k !in PRIMARY_OVERRIDES ==> k in out && out[k] == h[k])
      && (forall k :: k in out ==> k in PRIMARY_OVERRIDES || IsCredentialName(k) || (k in h && k !in HOP_BY_HOP))
  {
    CredentialNameFacts();
    var source, key := ExtractCredential(h).source, SelectedKey(h, pick);
    var withKey := WithCredential(WithoutCredentials(h), source, key);
    WithCredentialKeeps(h, source, key);
    RetargetKeeps(withKey, h, peer, protocol);
  }

  /** The copy loop of the primary route: every inbound entry whose
      lower-cased name is not a credential header, with its value. */
  method CopyWithoutCredentials(h: HeaderMap) returns (out: HeaderMap)
    ensures out == WithoutCredentials(h)
  {
    out := map[];
    var todo := h.Keys;
    while todo != {}
      invariant todo <= h.Keys
      invariant forall k :: k in out <==> k in h && k !in todo && !IsCredentialName(k)
      invariant forall k :: k in out ==> out[k] == h[k]
      decreases todo
    {
      var key :| key in todo;
      if !IsCredentialName(key) {
        out := out[key := h[key]];
      }
      todo := todo - {key};
    }
  }

  /** Lower-case `authorization` (how Node delivers the inbound name) is a credential name too. */
  lemma InboundAuthorizationIsCredential()
    ensures IsCredentialName(AUTHORIZATION)
  {
    assert Lower(AUTHORIZATION) == AUTHORIZATION;
  }

  /** A key list `a,b,c` in `x-goog-api-key` is forwarded as exactly the key
      at the chosen index, under the same name, and no authorization header
      of either spelling goes upstream. */
  lemma GoogKeyListForwardsOneKey(h: HeaderMap, keys: seq<string>, pick: nat, peer: string, protocol: string)
    requires WellFormedKeys(keys) && pick < |keys|
    requires GOOG_API_KEY in h && h[GOOG_API_KEY] == Join(keys, ",")
    ensures PickInRange(ExtractCredential(h), pick)
      && var out := PrimaryHeaders(h, peer, protocol, pick);
         Has(out, GOOG_API_KEY, keys[pick]) && OUTBOUND_AUTHORIZATION !in out && AUTHORIZATION !in out
  {
    ParseJoin(keys, "");
    assert "," + "" == ",";
    JoinStartsWithFirst(keys, ",");
    assert ExtractCredential(h).raw == Join(keys, ",");
    EveryKeySelectable(ExtractCredential(h), pick);
    CredentialNameFacts();
    InboundAuthorizationIsCredential();
    PrimaryCredentialSlot(h, peer, protocol, pick);
  }

  /** A Bearer list such as `Bearer x, y` (scheme in any case, any white space
      after the commas) is forwarded as `Authorization: Bearer <key>` for the
      chosen key alone, and no `x-goog-api-key` or lower-case
      `authorization` goes upstream. */
  lemma BearerKeyListForwardsOneKey(h: HeaderMap, scheme: string, keys: seq<string>, pad: string, pick: nat,
                                    peer: string, protocol: string)
    requires Lower(scheme) == BEARER_PREFIX
    requires WellFormedKeys(keys) && AllSpace(pad) && pick < |keys|
    requires !Present(h, GOOG_API_KEY)
    requires AUTHORIZATION in h && h[AUTHORIZATION] == scheme + Join(keys, "," + pad)
    ensures PickInRange(ExtractCredential(h), pick)
      && var out := PrimaryHeaders(h, peer, protocol, pick);
         Has(out, OUTBOUND_AUTHORIZATION, BEARER_SCHEME + keys[pick]) && GOOG_API_KEY !in out && AUTHORIZATION !in out
  {
    BearerRoundTrip(h, scheme, Join(keys, "," + pad));
    ParseJoin(keys, pad);
    EveryKeySelectable(ExtractCredential(h), pick);
    CredentialNameFacts();
    InboundAuthorizationIsCredential();
    PrimaryCredentialSlot(h, peer, protocol, pick);
  }

  /** Without usable key material (no source, or a list made only of commas
      and white space) no credential header of any spelling goes upstream.
      In particular a blank `x-goog-api-key` still takes precedence and
      shadows a valid Bearer header. */
  lemma NoKeyNoCredential(h: HeaderMap, pick: nat, peer: string, protocol: string)
    requires forall i :: 0 <= i < |ExtractCredential(h).raw| ==>
      ExtractCredential(h).raw[i] == ',' || IsSpace(ExtractCredential(h).raw[i])
    ensures PickInRange(ExtractCredential(h), pick)
      && var out := PrimaryHeaders(h, peer, protocol, pick);
         forall k :: k in out ==> !IsCredentialName(k)
  {
    BlankKeysParseEmpty(ExtractCredential(h).raw);
    PrimaryCredentialSlot(h, peer, protocol, pick);
  }

  /** Whatever the letter case of the inbound names, the outbound map holds
      the five target and forwarding headers, and only headers whose names
      were inbound, were written by the route, or are the selected credential. */
  lemma PrimaryHeaderNames(h: HeaderMap, peer: string, protocol: string, pick: nat)
    requires PickInRange(ExtractCredential(h), pick)
    ensures var out := PrimaryHeaders(h, peer, protocol, pick);
      && (forall n :: n in PRIMARY_OVERRIDES ==> n in out)
      && (forall k :: k in out ==> k in h || k in PRIMARY_OVERRIDES || k == GOOG_API_KEY || k == OUTBOUND_AUTHORIZATION)
  {
    PrimaryRetargets(h, peer, protocol, pick);
    PrimaryPassesTheRest(h, peer, protocol, pick);
    PrimaryCredentialSlot(h, peer, protocol, pick);
  }

  /** The `app.all('*')` header build as the handler performs it. */
  method BuildPrimaryHeaders(h: HeaderMap, peer: string, protocol: string, pick: nat) returns (out: HeaderMap)
    requires PickInRange(ExtractCredential(h), pick)
    ensures out == PrimaryHeaders(h, peer, protocol, pick)
  {
    var credential := ExtractCredential(h);
    var selectedKey := SelectKey(credential, pick);

    out := CopyWithoutCredentials(h);
    if selectedKey != "" {
      match credential.source {
        case GoogApiKey => out := out[GOOG_API_KEY := selectedKey];
        case BearerToken => out := out[OUTBOUND_AUTHORIZATION := BEARER_SCHEME + selectedKey];
        case NoSource =>
      }
    }

    out := out["host" := TARGET_HOSTNAME];
    out := out["origin" := TARGET_ORIGIN];
    out := out["referer" := TARGET_API_URL];
    out := out["x-forwarded-for" := Fallback(h, "x-forwarded-for", peer)];
    out := out["x-forwarded-proto" := Fallback(h, "x-forwarded-proto", protocol)];

    out := StripHopByHop(out);
  }

  /** Outbound headers of the status route: `host`, `origin` and `referer`
      overwritten to name AI Studio, then the hop-by-hop names removed. */
  function StatusHeaders(h: HeaderMap): (r: HeaderMap)
    ensures forall n :: n in HOP_BY_HOP ==> n !in r
  {
    WithoutHopByHop(h["host" := STATUS_HOST]["origin" := STATUS_ORIGIN]["referer" := STATUS_ORIGIN])
  }

  /** The status route has no credential logic: everything inbound,
      credential headers included, passes through untouched except that
      `host`, `origin` and `referer` name AI Studio and the hop-by-hop names
      are gone; nothing else is added. */
  lemma StatusMirrorsInbound(h: HeaderMap)
    ensures var out := StatusHeaders(h);
      && Has(out, "host", STATUS_HOST) && Has(out, "origin", STATUS_ORIGIN) && Has(out, "referer", STATUS_ORIGIN)
      && (forall n :: n in HOP_BY_HOP ==> n !in out)
      && (forall k :: k in h && k !in HOP_BY_HOP && k !in STATUS_OVERRIDES ==> k in out && out[k] == h[k])
      && (forall k :: k in out ==> k in STATUS_OVERRIDES || (k in h && k !in HOP_BY_HOP))
  {
    assert forall k :: k in STATUS_OVERRIDES ==> k !in HOP_BY_HOP;
  }

  /** The `app.all('/status')` header build as the handler performs it. */
  method BuildStatusHeaders(h: HeaderMap) returns (out: HeaderMap)
    ensures out == StatusHeaders(h)
  {
    out := h;
    out := out["host" := STATUS_HOST];
    out := out["origin" := STATUS_ORIGIN];
    out := out["referer" := STATUS_ORIGIN];
    out := StripHopByHop(out);
  }

  datatype Option<T> = None | Some(value: T)

  /** The body handed to `fetch`: the request itself, except for GET and HEAD, which carry none. */
  function OutboundBody<B>(httpMethod: string, body: B): (r: Option<B>)
    ensures r == None || r == Some(body)
    ensures r == None <==> httpMethod == "GET" || httpMethod == "HEAD"
  {
    if httpMethod != "GET" && httpMethod != "HEAD" then Some(body) else None
  }

  /** A reply the proxy writes itself. */
  datatype Reply = Reply(status: nat, body: string)

  const BAD_GATEWAY := Reply(502, "代理伺服器錯誤 (Bad Gateway)")

  /** The catch block: a 502 with a plain-text body, but only while no header
      has been sent; after that the failure produces no second response. */
  function OnDispatchError(headersSent: bool): (r: Option<Reply>)
    ensures r.Some? <==> !headersSent
    ensures r.Some? ==> r.value.status == 502 && r.value.body != ""
  {
    if headersSent then None else Some(BAD_GATEWAY)
  }
}
