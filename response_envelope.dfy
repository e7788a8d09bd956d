/** The value a request settles with: `response` builds an object holding the
    status and the parsed response headers, then spreads the body over it, so
    that keys of the body override `status` and `headers`. */
module ResponseEnvelope {
  import opened Wrappers
  import opened JsText
  import opened ResponseHeaders

  /** A value `JSON.parse` can produce. Numbers are integers here. */
  datatype Json =
    | JNull
    | JBool(b: bool)
    | JNum(n: int)
    | JStr(s: string)
    | JArr(items: seq<Json>)
    | JObj(fields: map<string, Json>)

  /** The own enumerable properties of an object. */
  type Object = map<string, Json>

  /** `tryJSON(text)`: the value `JSON.parse` produced, or `{message: text}`
      when it threw. `parsed` is the outcome of `JSON.parse(text)`, `None`
      when it throws. */
  function TryJson(text: string, parsed: Option<Json>): (v: Json)
    ensures parsed.None? ==> v.JObj? && v.fields.Keys == {"message"} && v.fields["message"] == JStr(text)
    ensures parsed.Some? ==> v == parsed.value
  {
    match parsed
    case None => JObj(map["message" := JStr(text)])
    case Some(j) => j
  }

  /** The decimal strings of the indices below `n`. */
  function IndexKeys(n: nat): set<string>
  {
    set i | 0 <= i < n :: NatDigits(i)
  }

  /** An index-keyed object `{"0": items[0], "1": items[1], ...}`: its keys
      are the decimal strings of the indices, each index holds its own item,
      which makes one key per item (`IndexKeysCount`). */
  function IndexKeyed(items: seq<Json>): (m: Object)
    ensures m.Keys == IndexKeys(|items|)
    ensures forall i :: 0 <= i < |items| ==> NatDigits(i) in m && m[NatDigits(i)] == items[i]
    decreases |items|
  {
    if |items| == 0 then map[]
    else
      var n := |items| - 1;
      var init := items[..n];
      assert init + [items[n]] == items;
      var prev := IndexKeyed(init);
      SnocIndexKeyed(init, items[n], prev);
      prev[NatDigits(n) := items[n]]
  }

  /** Putting the next item under the next index key extends an index-keyed
      object by one item. */
  lemma SnocIndexKeyed(init: seq<Json>, x: Json, prev: Object)
    requires prev.Keys == IndexKeys(|init|)
    requires forall i :: 0 <= i < |init| ==> NatDigits(i) in prev && prev[NatDigits(i)] == init[i]
    ensures var m := prev[NatDigits(|init|) := x];
            && m.Keys == IndexKeys(|init| + 1)
            && forall i :: 0 <= i < |init| + 1 ==> NatDigits(i) in m && m[NatDigits(i)] == (init + [x])[i]
  {
    var n := |init|;
    FreshIndexKey(n);
    IndexKeysSnoc(n);
    forall i | 0 <= i < n
      ensures NatDigits(i) != NatDigits(n)
    {
      assert NatDigits(i) in IndexKeys(n);
    }
  }

  /** The key of the next index is not among the keys of the indices before
      it. */
  lemma FreshIndexKey(n: nat)
    ensures NatDigits(n) !in IndexKeys(n)
  {
    NatDigitsInjective();
  }

  /** There are as many index keys as indices. */
  lemma {:induction false} IndexKeysCount(n: nat)
    ensures |IndexKeys(n)| == n
  {
    if n > 0 {
      IndexKeysCount(n - 1);
      FreshIndexKey(n - 1);
      IndexKeysSnoc(n - 1);
    }
  }

  lemma IndexKeysSnoc(n: nat)
    ensures IndexKeys(n + 1) == IndexKeys(n) + {NatDigits(n)}
  {
  }

  /** The properties the object spread `...v` copies: an object's own fields,
      an array's elements under their indices, a string's characters under
      their indices, and nothing for `null`, booleans and numbers. */
  function Spread(v: Json): (fields: Object)
    ensures v.JObj? ==> fields == v.fields
    ensures v.JNull? || v.JBool? || v.JNum? ==> fields == map[]
    ensures v.JArr? ==> forall i :: 0 <= i < |v.items| ==> NatDigits(i) in fields && fields[NatDigits(i)] == v.items[i]
    ensures v.JStr? ==> forall i :: 0 <= i < |v.s| ==> NatDigits(i) in fields && fields[NatDigits(i)] == JStr([v.s[i]])
    ensures v.JArr? ==> |fields| == |v.items|
    ensures v.JStr? ==> |fields| == |v.s|
  {
    match v
    case JObj(fs) => fs
    case JArr(items) => IndexKeysCount(|items|); IndexKeyed(items)
    case JStr(s) =>
      var chars := seq(|s|, i requires 0 <= i < |s| => JStr([s[i]]));
      IndexKeysCount(|s|);
      IndexKeyed(chars)
    case _ => map[]
  }

  /** The response headers as the `RequestHeaders` object the envelope holds. */
  function HeadersObject(h: Headers): (v: Json)
    ensures v.JObj? && v.fields.Keys == h.Keys
    ensures forall k :: k in h ==> v.fields[k] == JStr(h[k])
  {
    JObj(map k | k in h :: JStr(h[k]))
  }

  /** `response(httpRequest)`: `{status, headers, ...tryJSON(responseText)}`.
      Its keys are `status`, `headers` and the body's; a key of the body
      overrides, and `status` and `headers` keep their values only where the
      body has no such key. */
  function Response(status: int, rawHeaders: string, text: string, parsed: Option<Json>): (env: Object)
    ensures var body := Spread(TryJson(text, parsed));
            && env.Keys == {"status", "headers"} + body.Keys
            && (forall k :: k in body ==> env[k] == body[k])
            && ("status" !in body ==> env["status"] == JNum(status))
            && ("headers" !in body ==> env["headers"] == HeadersObject(ParseHeaders(rawHeaders)))
  {
    map["status" := JNum(status), "headers" := HeadersObject(ParseHeaders(rawHeaders))]
      + Spread(TryJson(text, parsed))
  }

  /** A response text that is not JSON yields exactly `{status, headers,
      message}`, the message being the text itself. */
  lemma NotJsonEnvelope(status: int, rawHeaders: string, text: string)
    ensures Response(status, rawHeaders, text, None)
            == map["status" := JNum(status),
                   "headers" := HeadersObject(ParseHeaders(rawHeaders)),
                   "message" := JStr(text)]
  {
    var env := Response(status, rawHeaders, text, None);
    assert env.Keys == {"status", "headers", "message"};
  }

  /** A body that parses to `null`, a boolean or a number spreads nothing: the
      envelope is just the status and the headers. */
  lemma PrimitiveBodyEnvelope(status: int, rawHeaders: string, text: string, j: Json)
    requires j.JNull? || j.JBool? || j.JNum?
    ensures Response(status, rawHeaders, text, Some(j))
            == map["status" := JNum(status), "headers" := HeadersObject(ParseHeaders(rawHeaders))]
  {
  }

  /** A body that parses to an array puts each element under its index, and
      since an index key is all digits it never hides `status` or `headers`. */
  lemma ArrayBodyEnvelope(status: int, rawHeaders: string, text: string, items: seq<Json>)
    ensures var env := Response(status, rawHeaders, text, Some(JArr(items)));
            && |env| == |items| + 2
            && env["status"] == JNum(status)
            && env["headers"] == HeadersObject(ParseHeaders(rawHeaders))
            && forall i :: 0 <= i < |items| ==> env[NatDigits(i)] == items[i]
  {
    var body := Spread(JArr(items));
    IndexKeysAreDigits(items);
    assert "status" !in body;
    assert "headers" !in body;
    assert Response(status, rawHeaders, text, Some(JArr(items))).Keys == body.Keys + {"status", "headers"};
  }

  /** Every key of an index-keyed object is a string of decimal digits, which
      `status` and `headers` are not. */
  lemma IndexKeysAreDigits(items: seq<Json>)
    ensures "status" !in IndexKeyed(items) && "headers" !in IndexKeyed(items)
  {
    forall i: nat
      ensures NatDigits(i) != "status" && NatDigits(i) != "headers"
    {
      assert '0' <= NatDigits(i)[0] <= '9';
    }
    assert "status" !in IndexKeys(|items|);
  }

  /** A JSON object body that carries a `status` key replaces the HTTP status
      in the envelope; one that carries `headers` replaces the parsed headers. */
  lemma ObjectBodyOverrides(status: int, rawHeaders: string, text: string, fields: map<string, Json>)
    ensures var env := Response(status, rawHeaders, text, Some(JObj(fields)));
            && ("status" in fields ==> env["status"] == fields["status"])
            && ("headers" in fields ==> env["headers"] == fields["headers"])
            && (forall k :: k in fields ==> env[k] == fields[k])
  {
  }
}
