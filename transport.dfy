/** The request itself: `request(options)` opens the XMLHttpRequest on the
    URL with the serialised query appended, sets each header, sends the body,
    and once the request is done settles with the response envelope,
    resolving when the status's first digit is 2 and rejecting otherwise.

    The XMLHttpRequest is not modelled as an object: the calls made on it
    are recorded as a trace, and what it reports back (status, raw header
    block, response text and the outcome of `JSON.parse` on it) are
    parameters. */
module Transport {
  import opened Wrappers
  import opened JsText
  import opened QueryString
  import opened ResponseEnvelope

  /** `RequestMethod`. */
  datatype Method = GET | POST | PUT | DELETE | PATCH

  /** `RequestOptions`. An absent `headers` object is the empty sequence, as
      `for...in` over `undefined` visits nothing; the entries are in
      `for...in` order. */
  datatype RequestOptions = RequestOptions(
    verb: Method,
    url: string,
    body: Option<Json>,
    query: Option<Query>,
    headers: seq<(string, string)>)

  /** A call made on the XMLHttpRequest. */
  datatype XhrCall =
    | Open(verb: Method, target: string, async: bool)
    | SetRequestHeader(name: string, value: string)
    | Send(payload: Option<Json>)

  // ---------------------------------------------------------------------------
  // the target URL
  // ---------------------------------------------------------------------------

  /** `url + serialize(query)`. */
  function Target(url: string, query: Option<Query>): string
  {
    url + Serialize(query)
  }

  /** The target is the URL itself when there is no query; otherwise the
      URL, a `?`, and a query string that reads back as exactly the query's
      (key, value) pairs in order. */
  lemma TargetReadsBack(url: string, query: Option<Query>)
    ensures var t := Target(url, query);
            && (query.None? ==> t == url)
            && (query.Some? ==> |t| > |url| && t[..|url|] == url && t[|url|] == '?')
            && (query.Some? ==> ParseQuery(t[|url|..]) == Some(Pairs(query.value)))
  {
    var t := Target(url, query);
    if query.Some? {
      QueryRoundTrip(query.value);
      assert t[|url|..] == Serialize(query);
    }
  }

  // ---------------------------------------------------------------------------
  // the calls made on the XMLHttpRequest
  // ---------------------------------------------------------------------------

  function HeaderCalls(headers: seq<(string, string)>): seq<XhrCall>
  {
    seq(|headers|, i requires 0 <= i < |headers| => SetRequestHeader(headers[i].0, headers[i].1))
  }

  /** What `request` does to the XMLHttpRequest before it waits: open it
      asynchronously on the target, set the headers in order, send the body. */
  function Calls(opts: RequestOptions): seq<XhrCall>
  {
    [Open(opts.verb, Target(opts.url, opts.query), true)]
      + HeaderCalls(opts.headers)
      + [Send(opts.body)]
  }

  /** The synchronous part of `request`: `open`, the `for...in` loop over
      the headers calling `setRequestHeader`, then `send`. */
  method Request(opts: RequestOptions) returns (calls: seq<XhrCall>)
    ensures calls == Calls(opts)
  {
    var search := SerializeQuery(opts.query);
    calls := [Open(opts.verb, opts.url + search, true)];
    var i := 0;
    while i < |opts.headers|
      invariant 0 <= i <= |opts.headers|
      invariant calls == [Open(opts.verb, Target(opts.url, opts.query), true)] + HeaderCalls(opts.headers[..i])
    {
      var (h, v) := opts.headers[i];
      calls := calls + [SetRequestHeader(h, v)];
      HeaderCallsSnoc(opts.headers, i);
      i := i + 1;
    }
    assert opts.headers[..i] == opts.headers;
    calls := calls + [Send(opts.body)];
  }

  lemma HeaderCallsSnoc(headers: seq<(string, string)>, i: nat)
    requires i < |headers|
    ensures HeaderCalls(headers[..i + 1]) == HeaderCalls(headers[..i]) + [SetRequestHeader(headers[i].0, headers[i].1)]
  {
  }

  /** The request is opened first, asynchronously, on the target; the body is
      sent last; every call in between sets a header. */
  lemma CallsShape(opts: RequestOptions)
    ensures var c := Calls(opts);
            && |c| == |opts.headers| + 2
            && c[0] == Open(opts.verb, Target(opts.url, opts.query), true)
            && c[|c| - 1] == Send(opts.body)
            && forall j :: 1 <= j < |c| - 1 ==> c[j].SetRequestHeader?
  {
  }

  /** No two header entries share a name, as the keys of an object. */
  predicate DistinctNames(headers: seq<(string, string)>)
  {
    forall i, j :: 0 <= i < j < |headers| ==> headers[i].0 != headers[j].0
  }

  /** Each header entry is set exactly once, with its own value. */
  lemma EachHeaderSetOnce(opts: RequestOptions, i: nat)
    requires DistinctNames(opts.headers)
    requires i < |opts.headers|
    ensures var c := Calls(opts);
            var (h, v) := opts.headers[i];
            && c[i + 1] == SetRequestHeader(h, v)
            && forall j :: 0 <= j < |c| && j != i + 1 ==> !(c[j].SetRequestHeader? && c[j].name == h)
  {
    var c := Calls(opts);
    var hs := opts.headers;
    CallAt(opts, i + 1);
    forall j | 0 <= j < |c| && j != i + 1
      ensures !(c[j].SetRequestHeader? && c[j].name == hs[i].0)
    {
      CallAt(opts, j);
      if 1 <= j <= |hs| {
        if j - 1 < i {
          assert hs[j - 1].0 != hs[i].0;
        } else {
          assert hs[i].0 != hs[j - 1].0;
        }
      }
    }
  }

  /** Call `j` of the trace: the `open`, a header, or the `send`. */
  lemma CallAt(opts: RequestOptions, j: nat)
    requires j < |Calls(opts)|
    ensures var c := Calls(opts);
            && (j == 0 ==> c[j].Open?)
            && (1 <= j <= |opts.headers| ==> c[j] == SetRequestHeader(opts.headers[j - 1].0, opts.headers[j - 1].1))
            && (j == |opts.headers| + 1 ==> c[j].Send?)
  {
  }

  // ---------------------------------------------------------------------------
  // settling
  // ---------------------------------------------------------------------------

  /** `Number(c)` for a character of a decimal string: the digit's value, and
      `NaN` (`None`) for the minus sign. */
  function CharNumber(c: char): (n: Option<nat>)
    ensures n.Some? <==> '0' <= c <= '9'
    ensures n.Some? ==> n.value < 10 && Digit(n.value) == c
  {
    if '0' <= c <= '9' then Some(c as int - '0' as int) else None
  }

  /** `Number(status.toString()[0]) == 2`. */
  predicate Resolves(status: int)
  {
    CharNumber(DecimalString(status)[0]) == Some(2)
  }

  /** A status resolves exactly when it is not negative and its most
      significant decimal digit is 2. */
  lemma ResolvesLeadingDigit(status: int)
    ensures Resolves(status) <==> status >= 0 && LeadingDigit(status) == 2
  {
    if status >= 0 {
      NatDigitsHead(status);
    }
  }

  /** Equivalently: a status resolves exactly when it lies in
      `[2 * 10^k, 3 * 10^k)` for some `k`. */
  lemma ResolvesBand(status: int)
    ensures Resolves(status) <==> status >= 0 && exists k: nat :: InBand(status, 2, k)
  {
    ResolvesLeadingDigit(status);
    if status >= 0 {
      LeadingDigitRange(status, 2);
    }
  }

  /** For a three-digit HTTP status, resolving means exactly 200 to 299. */
  lemma ThreeDigitStatus(status: int)
    requires 100 <= status <= 999
    ensures Resolves(status) <==> 200 <= status <= 299
  {
    ResolvesLeadingDigit(status);
    assert LeadingDigit(status) == LeadingDigit(status / 10);
    assert LeadingDigit(status / 10) == status / 100;
  }

  /** How the returned promise settles. */
  datatype Outcome = Resolved(value: Object) | Rejected(reason: Object)

  function Envelope(o: Outcome): Object
  {
    match o
    case Resolved(v) => v
    case Rejected(r) => r
  }

  /** The `onreadystatechange` handler at `readyState == 4`: resolve or
      reject, either way with the response envelope. */
  function Settle(status: int, rawHeaders: string, text: string, parsed: Option<Json>): (o: Outcome)
    ensures o.Resolved? <==> status >= 0 && LeadingDigit(status) == 2
    ensures Envelope(o) == Response(status, rawHeaders, text, parsed)
  {
    ResolvesLeadingDigit(status);
    if Resolves(status) then Resolved(Response(status, rawHeaders, text, parsed))
    else Rejected(Response(status, rawHeaders, text, parsed))
  }
}
