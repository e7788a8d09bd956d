/** The query serialiser: `serialize` turns an optional `RequestQuery`
    object into the query string appended to the request URL.

    The object's keys are given as a sequence in the order `for...in` visits
    them (insertion order, integer-like keys first), which makes the
    serialiser's output deterministic. */
module QueryString {
  import opened Wrappers
  import opened JsText
  import opened UriComponent

  /** A JavaScript safe integer: at most 2^53 - 1 in magnitude. `String(n)`
      writes every such number as its plain decimal digits; beyond this range
      doubles lose digits and `String` rounds or switches to exponent form. */
  type SafeInteger = n: int | -0x1F_FFFF_FFFF_FFFF <= n <= 0x1F_FFFF_FFFF_FFFF

  /** `RequestObject`: a boolean, a string or a number. */
  datatype Scalar = Bool(b: bool) | Str(s: string) | Num(n: SafeInteger)

  /** One value of a `RequestQuery`: a scalar, an array of scalars, or
      `undefined`. */
  datatype QueryValue = One(x: Scalar) | Many(xs: seq<Scalar>) | Undefined

  /** A `RequestQuery` object, its entries in `for...in` order. */
  type Query = seq<(string, QueryValue)>

  /** `String(x)`, the conversion `encodeURIComponent` applies to its
      argument. */
  function ScalarText(x: Scalar): string
  {
    match x
    case Bool(b) => if b then "true" else "false"
    case Str(s) => s
    case Num(n) => DecimalString(n)
  }

  /** The (key, value) texts one entry of the query contributes, in order: one
      per array element, one for a scalar, and `String(undefined)` for
      `undefined`. */
  function Contribution(key: string, v: QueryValue): (ps: seq<(string, string)>)
    ensures |ps| == (if v.Many? then |v.xs| else 1)
  {
    match v
    case One(x) => [(key, ScalarText(x))]
    case Many(xs) => seq(|xs|, i requires 0 <= i < |xs| => (key, ScalarText(xs[i])))
    case Undefined => [(key, "undefined")]
  }

  /** All (key, value) texts of the query, entry after entry. */
  function Pairs(q: Query): seq<(string, string)>
    decreases |q|
  {
    if |q| == 0 then [] else Contribution(q[0].0, q[0].1) + Pairs(q[1..])
  }

  /** `encodeURIComponent(key) + "=" + encodeURIComponent(value)`. */
  function EncodePair(key: string, value: string): string
  {
    EncodeURIComponent(key) + "=" + EncodeURIComponent(value)
  }

  function EncodedPairs(ps: seq<(string, string)>): seq<string>
  {
    seq(|ps|, i requires 0 <= i < |ps| => EncodePair(ps[i].0, ps[i].1))
  }

  /** `serialize(obj)`: the empty string for an absent query; otherwise `?`
      followed by the encoded pairs joined with `&`, so that a present query
      always yields a string starting with `?`, and an empty one yields
      exactly `"?"`. */
  function Serialize(query: Option<Query>): (r: string)
    ensures query.None? <==> r == ""
    ensures query.Some? ==> r[0] == '?'
    ensures query == Some([]) ==> r == "?"
  {
    match query
    case None => ""
    case Some(q) => "?" + Join(EncodedPairs(Pairs(q)), "&")
  }

  /** The imperative form of `serialize`: a `for...in` over the keys pushing
      one encoded pair per array element or per scalar onto `str`, then
      `"?" + str.join("&")`. */
  method SerializeQuery(query: Option<Query>) returns (s: string)
    ensures s == Serialize(query)
  {
    if query.None? {
      return "";
    }
    var q := query.value;
    var str: seq<string> := [];
    var i := 0;
    while i < |q|
      invariant 0 <= i <= |q|
      invariant str == EncodedPairs(Pairs(q[..i]))
    {
      var (p, v) := q[i];
      var pushed: seq<string>;
      match v {
        case Many(xs) =>
          pushed := PushEach(p, xs);
        case One(x) =>
          pushed := [EncodePair(p, ScalarText(x))];
        case Undefined =>
          pushed := [EncodePair(p, "undefined")];
      }
      str := str + pushed;
      PairsSnoc(q, i);
      EncodedPairsAppend(Pairs(q[..i]), Contribution(p, v));
      i := i + 1;
    }
    assert q[..i] == q;
    s := "?" + Join(str, "&");
  }

  /** The `forEach` over an array value: one encoded `key=element` pair per
      element, in array order. */
  method PushEach(p: string, xs: seq<Scalar>) returns (pushed: seq<string>)
    ensures pushed == EncodedPairs(Contribution(p, Many(xs)))
  {
    pushed := [];
    var j := 0;
    while j < |xs|
      invariant 0 <= j <= |xs|
      invariant pushed == EncodedPairs(Contribution(p, Many(xs[..j])))
    {
      pushed := pushed + [EncodePair(p, ScalarText(xs[j]))];
      PushedSnoc(p, xs, j);
      j := j + 1;
    }
    assert xs[..j] == xs;
  }

  lemma PushedSnoc(p: string, xs: seq<Scalar>, j: nat)
    requires j < |xs|
    ensures EncodedPairs(Contribution(p, Many(xs[..j + 1])))
            == EncodedPairs(Contribution(p, Many(xs[..j]))) + [EncodePair(p, ScalarText(xs[j]))]
  {
    assert Contribution(p, Many(xs[..j + 1])) == Contribution(p, Many(xs[..j])) + [(p, ScalarText(xs[j]))];
    EncodedPairsAppend(Contribution(p, Many(xs[..j])), [(p, ScalarText(xs[j]))]);
  }

  lemma EncodedPairsAppend(a: seq<(string, string)>, b: seq<(string, string)>)
    ensures EncodedPairs(a + b) == EncodedPairs(a) + EncodedPairs(b)
  {
    var l, r := EncodedPairs(a + b), EncodedPairs(a) + EncodedPairs(b);
    forall i | 0 <= i < |l|
      ensures l[i] == r[i]
    {
      if i >= |a| {
        assert (a + b)[i] == b[i - |a|];
      }
    }
  }

  lemma PairsSnoc(q: Query, i: nat)
    requires i < |q|
    ensures Pairs(q[..i + 1]) == Pairs(q[..i]) + Contribution(q[i].0, q[i].1)
  {
    PairsAppend(q[..i], [q[i]]);
    assert q[..i + 1] == q[..i] + [q[i]];
    assert Pairs([q[i]]) == Contribution(q[i].0, q[i].1) + Pairs([]);
  }

  /** The pairs of two consecutive runs of entries are the pairs of the first
      run followed by those of the second: entries contribute in `for...in`
      order and never interleave. */
  lemma {:induction false} PairsAppend(q1: Query, q2: Query)
    ensures Pairs(q1 + q2) == Pairs(q1) + Pairs(q2)
    decreases |q1|
  {
    if |q1| > 0 {
      PairsAppend(q1[1..], q2);
      assert (q1 + q2)[1..] == q1[1..] + q2;
    } else {
      assert q1 + q2 == q2;
    }
  }

  /** Entry `i` of the query contributes its pairs right after those of the
      entries before it: for an array of length N, exactly N pairs
      `(key, String(element))` in array order; for any other value, exactly one
      pair. */
  lemma EntryPairs(q: Query, i: nat)
    requires i < |q|
    ensures var start := |Pairs(q[..i])|;
            var ps := Pairs(q);
            && start + |Contribution(q[i].0, q[i].1)| <= |ps|
            && ps[start..start + |Contribution(q[i].0, q[i].1)|] == Contribution(q[i].0, q[i].1)
  {
    assert q == q[..i] + ([q[i]] + q[i + 1..]);
    PairsAppend(q[..i], [q[i]] + q[i + 1..]);
    PairsAppend([q[i]], q[i + 1..]);
    assert Pairs([q[i]]) == Contribution(q[i].0, q[i].1) + Pairs([]);
  }

  // ---------------------------------------------------------------------------
  // reading a query string back
  // ---------------------------------------------------------------------------

  /** One `key=value` piece: split at the first `=`, both sides
      percent-decoded. */
  function DecodePiece(piece: string): Option<(string, string)>
  {
    var parts := Split(piece, "=");
    match (PercentDecode(parts[0]), PercentDecode(Join(parts[1..], "=")))
    case (Some(k), Some(v)) => Some((k, v))
    case _ => None
  }

  function DecodePieces(pieces: seq<string>): Option<seq<(string, string)>>
    decreases |pieces|
  {
    if |pieces| == 0 then Some([])
    else match (DecodePiece(pieces[0]), DecodePieces(pieces[1..]))
      case (Some(p), Some(ps)) => Some([p] + ps)
      case _ => None
  }

  /** How a server reads a query string: drop the leading `?`, split on `&`,
      split each piece at its first `=`, and percent-decode both sides. */
  function ParseQuery(s: string): Option<seq<(string, string)>>
  {
    if |s| == 0 || s == "?" then Some([])
    else if s[0] != '?' then None
    else DecodePieces(Split(s[1..], "&"))
  }

  lemma DecodePieceOfPair(k: string, v: string)
    ensures DecodePiece(EncodePair(k, v)) == Some((k, v))
  {
    var ek, ev := EncodeURIComponent(k), EncodeURIComponent(v);
    EncodedHasNoDelimiters(k);
    EncodedHasNoDelimiters(v);
    assert Join([ek, ev], "=") == EncodePair(k, v);
    SplitJoin([ek, ev], '=');
    assert Split(EncodePair(k, v), "=")[1..] == [ev];
    DecodeEncode(k);
    DecodeEncode(v);
  }

  lemma {:induction false} DecodePiecesOfPairs(ps: seq<(string, string)>)
    ensures DecodePieces(EncodedPairs(ps)) == Some(ps)
    decreases |ps|
  {
    if |ps| > 0 {
      var pieces := EncodedPairs(ps);
      DecodePiecesOfPairs(ps[1..]);
      DecodePieceOfPair(ps[0].0, ps[0].1);
      assert pieces[0] == EncodePair(ps[0].0, ps[0].1);
      assert pieces[1..] == EncodedPairs(ps[1..]);
      DecodePiecesCons(pieces, ps[0], ps[1..]);
      assert ps == [ps[0]] + ps[1..];
    }
  }

  lemma DecodePiecesCons(pieces: seq<string>, p: (string, string), rest: seq<(string, string)>)
    requires |pieces| > 0
    requires DecodePiece(pieces[0]) == Some(p) && DecodePieces(pieces[1..]) == Some(rest)
    ensures DecodePieces(pieces) == Some([p] + rest)
  {
  }

  /** Serialising loses nothing: reading the query string back yields exactly
      the (key, value) texts of the query, in order. */
  lemma QueryRoundTrip(q: Query)
    ensures ParseQuery(Serialize(Some(q))) == Some(Pairs(q))
  {
    var ps := Pairs(q);
    var pieces := EncodedPairs(ps);
    var s := Serialize(Some(q));
    if |ps| == 0 {
      assert s == "?";
    } else {
      assert s[1..] == Join(pieces, "&");
      forall i | 0 <= i < |pieces|
        ensures '&' !in pieces[i]
      {
        assert pieces[i] == EncodeURIComponent(ps[i].0) + "=" + EncodeURIComponent(ps[i].1);
        EncodedHasNoDelimiters(ps[i].0);
        EncodedHasNoDelimiters(ps[i].1);
      }
      SplitJoin(pieces, '&');
      DecodePiecesOfPairs(ps);
      assert s != "?" by { assert |s| > 1 by { assert |pieces[0]| >= 1; JoinLength(pieces, "&"); } }
    }
  }

  lemma JoinLength(parts: seq<string>, sep: string)
    requires |parts| >= 1
    ensures |Join(parts, sep)| >= |parts[0]|
  {
  }
}
