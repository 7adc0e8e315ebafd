/**
 Credential handling of the primary proxy route: finding the caller's key
 material in `x-goog-api-key` or in a Bearer `authorization` header, splitting
 it into a comma-separated key list, and choosing one key from that list.
 */
module Credentials {
  import opened Text
  import opened Headers

  const GOOG_API_KEY := "x-goog-api-key"
  const AUTHORIZATION := "authorization"
  const BEARER_PREFIX := "bearer "

  /** Which header convention supplied the keys (`'x-goog'`, `'auth'` or `''` in the handler). */
  datatype KeySource = GoogApiKey | BearerToken | NoSource

  /** The key source together with the raw, still comma-separated key material. */
  datatype Credential = Credential(source: KeySource, raw: string)

  /** JavaScript truthiness of a header lookup: present and not the empty string. */
  predicate Present(h: HeaderMap, name: string) {
    name in h && h[name] != ""
  }

  /** `value.toLowerCase().startsWith('bearer ')`. */
  predicate IsBearer(value: string) {
    StartsWith(Lower(value), BEARER_PREFIX)
  }

  /** Source precedence: a non-empty `x-goog-api-key` wins outright; otherwise
      an `authorization` value whose scheme is `bearer ` in any letter case
      supplies everything after its first seven characters; otherwise there is
      no source and no key material. */
  function ExtractCredential(h: HeaderMap): (c: Credential)
    ensures c.source == GoogApiKey <==> Present(h, GOOG_API_KEY)
    ensures c.source == GoogApiKey ==> c.raw == h[GOOG_API_KEY]
    ensures c.source == BearerToken <==> !Present(h, GOOG_API_KEY) && AUTHORIZATION in h && IsBearer(h[AUTHORIZATION])
    ensures c.source == BearerToken ==> |h[AUTHORIZATION]| == 7 + |c.raw| && h[AUTHORIZATION][7..] == c.raw
    ensures c.source == NoSource ==> c.raw == ""
  {
    if Present(h, GOOG_API_KEY) then
      Credential(GoogApiKey, h[GOOG_API_KEY])
    else if Present(h, AUTHORIZATION) && IsBearer(h[AUTHORIZATION]) then
      Credential(BearerToken, h[AUTHORIZATION][7..])
    else
      Credential(NoSource, "")
  }

  /** `pieces.map(k => k.trim())`. */
  function TrimAll(pieces: seq<string>): (r: seq<string>)
    ensures |r| == |pieces| && forall i :: 0 <= i < |r| ==> r[i] == Trim(pieces[i])
  {
    if pieces == [] then [] else [Trim(pieces[0])] + TrimAll(pieces[1..])
  }

  /** `pieces.filter(k => k)`: the non-empty pieces, each as often as it
      occurs (`DropEmptyCounts`), in their order (`DropEmptyAppend`). */
  function DropEmpty(pieces: seq<string>): (r: seq<string>)
    ensures |r| <= |pieces|
    ensures forall i :: 0 <= i < |r| ==> r[i] != "" && r[i] in pieces
    ensures forall i :: 0 <= i < |pieces| && pieces[i] != "" ==> pieces[i] in r
  {
    if pieces == [] then []
    else if pieces[0] == "" then DropEmpty(pieces[1..])
    else [pieces[0]] + DropEmpty(pieces[1..])
  }

  /** Filtering works piece by piece and keeps order: filtering a
      concatenation concatenates the filtered parts. */
  lemma {:induction false} DropEmptyAppend(a: seq<string>, b: seq<string>)
    ensures DropEmpty(a + b) == DropEmpty(a) + DropEmpty(b)
    decreases |a|
  {
    if a == [] {
      assert a + b == b;
    } else {
      assert (a + b)[0] == a[0];
      assert (a + b)[1..] == a[1..] + b;
      DropEmptyAppend(a[1..], b);
      if a[0] != "" {
        assert [a[0]] + (DropEmpty(a[1..]) + DropEmpty(b)) == [a[0]] + DropEmpty(a[1..]) + DropEmpty(b);
      }
    }
  }

  /** Filtering keeps every non-empty piece exactly as often as it occurs and drops every empty one. */
  lemma {:induction false} DropEmptyCounts(pieces: seq<string>)
    ensures multiset(DropEmpty(pieces)) == multiset(pieces)["" := 0]
    decreases |pieces|
  {
    if pieces != [] {
      DropEmptyCounts(pieces[1..]);
      assert pieces == [pieces[0]] + pieces[1..];
    }
  }

  /** Trimming works piece by piece: trimming a concatenation concatenates the trimmed parts. */
  lemma TrimAllAppend(a: seq<string>, b: seq<string>)
    ensures TrimAll(a + b) == TrimAll(a) + TrimAll(b)
  {
  }

  /** The key list `String(raw).split(',').map(k => k.trim()).filter(k => k)`:
      every key is non-empty, carries no comma and has no white space at
      either end, and every comma-separated piece of `raw` that does not trim
      to nothing is one of the keys. */
  function ParseKeys(raw: string): (keys: seq<string>)
    ensures WellFormedKeys(keys)
    ensures forall p :: p in Split(raw, ',') && Trim(p) != "" ==> Trim(p) in keys
  {
    var pieces := Split(raw, ',');
    var trimmed := TrimAll(pieces);
    var keys := DropEmpty(trimmed);
    assert forall j :: 0 <= j < |trimmed| ==> ',' !in trimmed[j] by {
      forall j | 0 <= j < |trimmed| ensures ',' !in trimmed[j] {
        TrimInside(pieces[j]);
      }
    }
    assert forall p :: p in pieces && Trim(p) != "" ==> Trim(p) in keys by {
      forall p | p in pieces && Trim(p) != "" ensures Trim(p) in keys {
        var j :| 0 <= j < |pieces| && pieces[j] == p;
        assert trimmed[j] == Trim(p);
      }
    }
    keys
  }

  /** A comma-free value is one piece: it yields its trimmed form as the
      only key, or no key at all when it is blank. */
  lemma ParseKeysPiece(s: string)
    requires ',' !in s
    ensures ParseKeys(s) == if Trim(s) == "" then [] else [Trim(s)]
  {
  }

  /** The keys of `a,b` are the keys of `a` followed by the keys of `b`:
      with `ParseKeysPiece`, this fixes the key list of every raw value,
      duplicates and order included. */
  lemma ParseKeysComma(a: string, b: string)
    ensures ParseKeys(a + "," + b) == ParseKeys(a) + ParseKeys(b)
  {
    SplitAppend(a, b, ',');
    assert [','] == ",";
    var pa, pb := Split(a, ','), Split(b, ',');
    TrimAllAppend(pa, pb);
    DropEmptyAppend(TrimAll(pa), TrimAll(pb));
  }

  /** A single key with white space around it parses to that key alone. */
  lemma ParseKeysPaddedKey(lead: string, k: string, trail: string)
    requires AllSpace(lead) && AllSpace(trail) && WellFormedKeys([k])
    ensures ParseKeys(lead + k + trail) == [k]
  {
    assert [k][0] == k;
    assert ',' !in lead && ',' !in trail;
    assert ',' !in lead + k + trail;
    ParseKeysPiece(lead + k + trail);
    TrimPadded(lead, k, trail);
  }

  /** An irregular list `␣x,,␣y␣,x`: the empty piece is dropped, uneven
      padding is trimmed, and the repeated key stays, in place, so it is
      twice as likely to be picked. */
  lemma ParseKeysIrregular(x: string, y: string, pad: string)
    requires WellFormedKeys([x]) && WellFormedKeys([y]) && AllSpace(pad)
    ensures ParseKeys((pad + x) + "," + ("," + ((pad + y + pad) + "," + x))) == [x, y, x]
  {
    var tail := (pad + y + pad) + "," + x;
    TwoPaddedKeys(pad, y, x);
    EmptyFirstPiece(tail);
    ParseKeysPaddedKey(pad, x, "");
    assert pad + x + "" == pad + x;
    ParseKeysComma(pad + x, "," + tail);
  }

  lemma TwoPaddedKeys(pad: string, y: string, x: string)
    requires WellFormedKeys([x]) && WellFormedKeys([y]) && AllSpace(pad)
    ensures ParseKeys((pad + y + pad) + "," + x) == [y, x]
  {
    ParseKeysPaddedKey("", x, "");
    assert "" + x + "" == x;
    ParseKeysPaddedKey(pad, y, pad);
    ParseKeysComma(pad + y + pad, x);
  }

  /** An empty piece in front contributes no key. */
  lemma EmptyFirstPiece(tail: string)
    ensures ParseKeys("," + tail) == ParseKeys(tail)
  {
    ParseKeysEmpty();
    ParseKeysComma("", tail);
    assert "" + "," + tail == "," + tail;
  }

  /** The empty value (what an `authorization` of exactly `Bearer ` leaves) has no key. */
  lemma ParseKeysEmpty()
    ensures ParseKeys("") == []
  {
    ParseKeysPiece("");
    TrimPadded("", "", "");
  }

  /** No key is invented: each one is the trimmed form of a piece of `raw`. */
  lemma KeysComeFromPieces(raw: string, k: string)
    requires k in ParseKeys(raw)
    ensures exists p :: p in Split(raw, ',') && Trim(p) == k
  {
    var pieces := Split(raw, ',');
    var trimmed := TrimAll(pieces);
    assert k in trimmed;
    var j :| 0 <= j < |trimmed| && trimmed[j] == k;
    assert pieces[j] in pieces;
  }

  /** A well-formed key list: what `ParseKeys` produces. */
  predicate WellFormedKeys(keys: seq<string>) {
    forall i :: 0 <= i < |keys| ==> keys[i] != "" && ',' !in keys[i] && IsTrimmed(keys[i])
  }

  /** Each key after the first preceded by `pad`: the pieces `split(',')`
      sees in a list written with `pad` after every comma. */
  function PadEach(keys: seq<string>, pad: string): (r: seq<string>)
    ensures |r| == |keys| && forall i :: 0 <= i < |r| ==> r[i] == pad + keys[i]
  {
    if keys == [] then [] else [pad + keys[0]] + PadEach(keys[1..], pad)
  }

  lemma {:induction false} JoinPadded(first: string, rest: seq<string>, pad: string)
    ensures Join([first] + PadEach(rest, pad), ",") == Join([first] + rest, "," + pad)
    decreases |rest|
  {
    if rest != [] {
      var tail := PadEach(rest[1..], pad);
      assert PadEach(rest, pad) == [pad + rest[0]] + tail;
      assert ([first] + PadEach(rest, pad))[1..] == [pad + rest[0]] + tail;
      assert ([first] + rest)[1..] == rest;
      JoinPadded(rest[0], rest[1..], pad);
      assert [rest[0]] + rest[1..] == rest;
      if tail == [] {
        assert Join([pad + rest[0]] + tail, ",") == pad + rest[0];
      } else {
        assert ([pad + rest[0]] + tail)[1..] == tail;
        assert ([rest[0]] + tail)[1..] == tail;
        assert Join([pad + rest[0]] + tail, ",") == pad + Join([rest[0]] + tail, ",");
      }
    }
  }

  lemma {:induction false} DropEmptyNone(keys: seq<string>)
    requires forall i :: 0 <= i < |keys| ==> keys[i] != ""
    ensures DropEmpty(keys) == keys
    decreases |keys|
  {
    if keys != [] {
      DropEmptyNone(keys[1..]);
      assert [keys[0]] + keys[1..] == keys;
    }
  }

  /** Trimming each padded key gives the keys back. */
  lemma {:induction false} TrimAllPadded(keys: seq<string>, pad: string)
    requires WellFormedKeys(keys) && AllSpace(pad)
    ensures TrimAll(PadEach(keys, pad)) == keys
    decreases |keys|
  {
    if keys != [] {
      TrimAllPadded(keys[1..], pad);
      TrimPadded(pad, keys[0], "");
      assert pad + keys[0] + "" == pad + keys[0];
      assert [keys[0]] + keys[1..] == keys;
    }
  }

  /** White space never contains the separator, so padded keys stay comma-free. */
  lemma PaddedCommaFree(keys: seq<string>, pad: string)
    requires WellFormedKeys(keys) && AllSpace(pad)
    ensures forall i :: 0 <= i < |keys| ==> ',' !in pad + keys[i]
  {
  }

  /** Round trip: writing a well-formed key list with a comma and any white
      space between neighbours (`a,b,c`, `x, y`) and parsing it back gives the
      same list, in the same order. */
  lemma ParseJoin(keys: seq<string>, pad: string)
    requires WellFormedKeys(keys)
    requires AllSpace(pad)
    ensures ParseKeys(Join(keys, "," + pad)) == keys
  {
    if keys == [] {
      assert Split("", ',') == [""];
      assert TrimAll([""]) == [""] by { TrimPadded("", "", ""); }
    } else {
      var rest := PadEach(keys[1..], pad);
      var pieces := [keys[0]] + rest;
      JoinPadded(keys[0], keys[1..], pad);
      assert [keys[0]] + keys[1..] == keys;
      PaddedCommaFree(keys[1..], pad);
      assert forall i :: 0 <= i < |pieces| ==> ',' !in pieces[i];
      SplitJoin(pieces, ',');
      assert [','] == ",";
      assert Split(Join(keys, "," + pad), ',') == pieces;
      TrimAllPadded(keys[1..], pad);
      TrimPadded("", keys[0], "");
      assert "" + keys[0] + "" == keys[0];
      assert TrimAll(pieces) == [Trim(keys[0])] + TrimAll(rest) by {
        assert pieces[1..] == rest;
      }
      assert TrimAll(pieces) == keys;
      DropEmptyNone(keys);
    }
  }

  /** Key material made only of commas and white space yields no key at all. */
  lemma BlankKeysParseEmpty(raw: string)
    requires forall i :: 0 <= i < |raw| ==> raw[i] == ',' || IsSpace(raw[i])
    ensures ParseKeys(raw) == []
  {
    var keys := ParseKeys(raw);
    if keys != [] {
      KeysComeFromPieces(raw, keys[0]);
      var p :| p in Split(raw, ',') && Trim(p) == keys[0];
      var pieces := Split(raw, ',');
      var j :| 0 <= j < |pieces| && pieces[j] == p;
      JoinedPieceInside(pieces, j);
      forall m | 0 <= m < |p| ensures IsSpace(p[m]) {
        assert p[m] in raw;
      }
      TrimEmptyIffSpace(p);
    }
  }

  /** Every character of a piece occurs in the joined string. */
  lemma {:induction false} JoinedPieceInside(pieces: seq<string>, i: nat)
    requires i < |pieces|
    ensures forall c :: c in pieces[i] ==> c in Join(pieces, [','])
    decreases |pieces|
  {
    if |pieces| > 1 {
      var rest := Join(pieces[1..], [',']);
      assert Join(pieces, [',']) == pieces[0] + [','] + rest;
      if i > 0 {
        JoinedPieceInside(pieces[1..], i - 1);
      }
    }
  }

  /** The random index `Math.floor(Math.random() * keys.length)` is abstracted
      to a caller-supplied `pick`, which must lie in range whenever there is a
      key to choose. */
  predicate PickInRange(c: Credential, pick: nat) {
    c.source != NoSource && ParseKeys(c.raw) != [] ==> pick < |ParseKeys(c.raw)|
  }

  /** The selected key: empty exactly when there is no source or the key list
      parsed to nothing; otherwise one of the parsed keys. */
  function SelectKey(c: Credential, pick: nat): (key: string)
    requires PickInRange(c, pick)
    ensures key == "" <==> c.source == NoSource || ParseKeys(c.raw) == []
    ensures key != "" ==> key in ParseKeys(c.raw)
  {
    if c.source == NoSource then ""
    else
      var keys := ParseKeys(c.raw);
      if |keys| > 0 then keys[pick] else ""
  }

  /** Every key of the list is reachable: each index in range selects its key. */
  lemma EveryKeySelectable(c: Credential, pick: nat)
    requires c.source != NoSource && pick < |ParseKeys(c.raw)|
    ensures SelectKey(c, pick) == ParseKeys(c.raw)[pick]
  {
  }

  /** A Bearer header in any capitalisation of the scheme hands over exactly
      the text after the scheme, as long as no `x-goog-api-key` is given. */
  lemma BearerRoundTrip(h: HeaderMap, scheme: string, keys: string)
    requires Lower(scheme) == BEARER_PREFIX
    requires !Present(h, GOOG_API_KEY)
    requires AUTHORIZATION in h && h[AUTHORIZATION] == scheme + keys
    ensures ExtractCredential(h) == Credential(BearerToken, keys)
  {
    LowerAppend(scheme, keys);
    assert Lower(scheme + keys)[..7] == Lower(scheme);
    assert (scheme + keys)[7..] == keys;
  }
}
