/** Worked examples: a header block, a target URL with an array-valued
    query, and statuses on either side of the classifier.

    The literals of an example are bound to parameters through `requires`,
    so the verifier reasons about the names rather than unfolding each
    literal character by character in every step. */
module Examples {
  import opened Wrappers
  import opened JsText
  import opened UriComponent
  import opened QueryString
  import opened ResponseHeaders
  import opened Transport

  /** The example block `Content-Type: application/json` CR LF
      `X-Rate-Limit: 10` parses into exactly those two headers. */
  lemma ContentTypeAndRateLimit(n0: string, v0: string, n1: string, v1: string)
    requires n0 == "Content-Type" && v0 == "application/json"
    requires n1 == "X-Rate-Limit" && v1 == "10"
    ensures ParseHeaders(n0 + ": " + v0 + "\r\n" + n1 + ": " + v1) == map[n0 := v0, n1 := v1]
  {
    FieldName(n0);
    FieldName(n1);
    FieldValue(v0);
    FieldValue(v1);
    TwoEntries(n0, v0, n1, v1);
  }

  lemma FieldName(n: string)
    requires n == "Content-Type" || n == "X-Rate-Limit"
    ensures IsFieldName(n) && StartsClean(n)
  {
    forall k | 0 <= k < |n|
      ensures ('A' <= n[k] <= 'Z') || ('a' <= n[k] <= 'z') || n[k] == '-'
    {
    }
  }

  lemma FieldValue(v: string)
    requires v == "application/json" || v == "10"
    ensures IsFieldValue(v) && EndsClean(v)
  {
    forall k | 0 <= k < |v|
      ensures ('a' <= v[k] <= 'z') || ('0' <= v[k] <= '9') || v[k] == '/'
    {
    }
  }

  /** The query `{name: ["A", "B"]}` appends `?name=A&name=B` to the URL:
      one pair per array element, in order. */
  lemma ArrayQueryTarget(url: string, k: string, a: string, b: string, query: Option<Query>)
    requires k == "name" && a == "A" && b == "B"
    requires query == Some([(k, Many([Str(a), Str(b)]))])
    ensures Target(url, query) == url + ("?" + ((k + "=" + a) + "&" + (k + "=" + b)))
  {
    TwoElementArray(k, Str(a), Str(b));
    PlainEncoded(k);
    PlainEncoded(a);
    PlainEncoded(b);
  }

  /** An array of two elements under one key serialises as two pairs with
      that key, in array order. */
  lemma TwoElementArray(k: string, x: Scalar, y: Scalar)
    ensures Serialize(Some([(k, Many([x, y]))]))
            == "?" + (EncodePair(k, ScalarText(x)) + "&" + EncodePair(k, ScalarText(y)))
  {
    var q := [(k, Many([x, y]))];
    var p0, p1 := (k, ScalarText(x)), (k, ScalarText(y));
    PairsOfTwo(k, x, y);
    EncodedPairsOfTwo(p0, p1);
    JoinTwo(EncodePair(k, ScalarText(x)), EncodePair(k, ScalarText(y)), "&");
  }

  lemma PairsOfTwo(k: string, x: Scalar, y: Scalar)
    ensures Pairs([(k, Many([x, y]))]) == [(k, ScalarText(x)), (k, ScalarText(y))]
  {
    var q := [(k, Many([x, y]))];
    assert q[1..] == [];
  }

  lemma EncodedPairsOfTwo(p0: (string, string), p1: (string, string))
    ensures EncodedPairs([p0, p1]) == [EncodePair(p0.0, p0.1), EncodePair(p1.0, p1.1)]
  {
  }

  lemma JoinTwo(e0: string, e1: string, sep: string)
    ensures Join([e0, e1], sep) == e0 + sep + e1
  {
    assert [e0, e1][1..] == [e1];
  }

  /** A string of unreserved characters is its own encoding. */
  lemma PlainEncoded(s: string)
    requires s == "name" || s == "A" || s == "B"
    ensures EncodeURIComponent(s) == s
  {
    forall i | 0 <= i < |s|
      ensures IsUnreserved(s[i])
    {
    }
  }

  /** `encodeURIComponent("a b&=")` is `a%20b%26%3D`: letters pass through,
      and the space, `&` and `=` become `%` and two upper-case hexadecimal
      digits of their code. */
  lemma ReservedEscaped(a: char, sp: char, b: char, amp: char, eq: char)
    requires a == 'a' && sp == ' ' && b == 'b' && amp == '&' && eq == '='
    ensures EncodeURIComponent([a, sp, b, amp, eq]) == [a] + ("%20" + ([b] + ("%26" + "%3D")))
  {
    EncodeFive(a, sp, b, amp, eq);
    ReservedAsciiEscapes(sp, amp, eq);
    assert EncodeChar(a) == [a] && EncodeChar(b) == [b];
  }

  /** A five-character string encodes character by character. */
  lemma EncodeFive(c0: char, c1: char, c2: char, c3: char, c4: char)
    ensures EncodeURIComponent([c0, c1, c2, c3, c4])
            == EncodeChar(c0) + (EncodeChar(c1) + (EncodeChar(c2) + (EncodeChar(c3) + EncodeChar(c4))))
  {
    EncodeCons(c0, [c1, c2, c3, c4]);
    EncodeCons(c1, [c2, c3, c4]);
    EncodeCons(c2, [c3, c4]);
    EncodeCons(c3, [c4]);
    EncodeCons(c4, []);
    assert [c0] + [c1, c2, c3, c4] == [c0, c1, c2, c3, c4];
    assert [c1] + [c2, c3, c4] == [c1, c2, c3, c4];
    assert [c2] + [c3, c4] == [c2, c3, c4];
    assert [c3] + [c4] == [c3, c4];
    assert [c4] + [] == [c4];
    assert EncodeChar(c4) + "" == EncodeChar(c4);
  }

  lemma ReservedAsciiEscapes(sp: char, amp: char, eq: char)
    requires sp == ' ' && amp == '&' && eq == '='
    ensures EncodeChar(sp) == "%20"
    ensures EncodeChar(amp) == "%26"
    ensures EncodeChar(eq) == "%3D"
  {
    AsciiEscape(sp);
    AsciiEscape(amp);
    AsciiEscape(eq);
    assert HexDigit(2) == '2' && HexDigit(0) == '0' && HexDigit(6) == '6';
    assert HexDigit(3) == '3' && HexDigit(13) == 'D';
  }

  /** The status 0 an XMLHttpRequest reports when no response arrived
      rejects; the test looks at the first digit only, so 2, 20 and 2000
      resolve as well. */
  lemma FirstDigitOnly(s0: int, s2: int, s20: int, s2000: int)
    requires s0 == 0 && s2 == 2 && s20 == 20 && s2000 == 2000
    ensures !Resolves(s0) && Resolves(s2) && Resolves(s20) && Resolves(s2000)
  {
    ResolvesLeadingDigit(s20);
    ResolvesLeadingDigit(s2000);
    assert LeadingDigit(s2000) == LeadingDigit(200) == LeadingDigit(20) == 2;
  }

  /** The boundaries of the success range: 200 and 299 resolve; 199, 300,
      404 and 500 reject. */
  lemma BoundaryStatuses()
    ensures Resolves(200) && Resolves(299)
    ensures !Resolves(199) && !Resolves(300) && !Resolves(404) && !Resolves(500)
  {
    ThreeDigitStatus(200);
    ThreeDigitStatus(299);
    ThreeDigitStatus(199);
    ThreeDigitStatus(300);
    ThreeDigitStatus(404);
    ThreeDigitStatus(500);
  }
}
