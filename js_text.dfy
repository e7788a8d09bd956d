/** The few ECMAScript string operations the request pipeline relies on:
    `Array.prototype.join`, `String.prototype.split` with a string separator,
    `String.prototype.trim`, and the decimal `toString` of an integer. */
module JsText {

  // ---------------------------------------------------------------------------
  // join and split
  // ---------------------------------------------------------------------------

  /** `parts.join(sep)`: the parts with `sep` between neighbours. */
  function Join(parts: seq<string>, sep: string): string
  {
    if |parts| == 0 then ""
    else if |parts| == 1 then parts[0]
    else parts[0] + sep + Join(parts[1..], sep)
  }

  predicate StartsWith(s: string, prefix: string)
  {
    |prefix| <= |s| && s[..|prefix|] == prefix
  }

  /** `sep` occurs somewhere inside `s`. */
  predicate Contains(s: string, sep: string)
    requires |sep| > 0
    decreases |s|
  {
    |s| >= |sep| && (StartsWith(s, sep) || Contains(s[1..], sep))
  }

  /** `s.split(sep)` for a non-empty string separator: `s` is scanned from the
      left, every occurrence of `sep` that does not overlap an earlier one ends
      a piece, and the separators themselves are dropped. */
  function Split(s: string, sep: string): (parts: seq<string>)
    requires |sep| > 0
    ensures |parts| >= 1
    decreases |s|
  {
    if |s| == 0 then [""]
    else if StartsWith(s, sep) then [""] + Split(s[|sep|..], sep)
    else
      var rest := Split(s[1..], sep);
      [[s[0]] + rest[0]] + rest[1..]
  }

  lemma JoinConsChar(c: char, parts: seq<string>, sep: string)
    requires |parts| >= 1
    ensures Join([[c] + parts[0]] + parts[1..], sep) == [c] + Join(parts, sep)
  {
    var p := [[c] + parts[0]] + parts[1..];
    assert p[1..] == parts[1..];
  }

  /** Joining the pieces of a split with the same separator gives back the
      original string: `s.split(sep).join(sep) == s`. */
  lemma {:induction false} JoinSplit(s: string, sep: string)
    requires |sep| > 0
    ensures Join(Split(s, sep), sep) == s
    decreases |s|
  {
    if |s| == 0 {
    } else if StartsWith(s, sep) {
      var rest := Split(s[|sep|..], sep);
      JoinSplit(s[|sep|..], sep);
      assert ([""] + rest)[1..] == rest;
      assert s == sep + s[|sep|..];
    } else {
      var rest := Split(s[1..], sep);
      JoinSplit(s[1..], sep);
      JoinConsChar(s[0], rest, sep);
      assert s == [s[0]] + s[1..];
    }
  }

  /** The first piece of a split is a prefix of the string and holds no
      occurrence of the separator: it is the text before the first `sep`. */
  lemma {:induction false} SplitHead(s: string, sep: string)
    requires |sep| > 0
    ensures StartsWith(s, Split(s, sep)[0])
    ensures !Contains(Split(s, sep)[0], sep)
    decreases |s|
  {
    if |s| == 0 {
    } else if StartsWith(s, sep) {
    } else {
      var rest := Split(s[1..], sep);
      SplitHead(s[1..], sep);
      var h := [s[0]] + rest[0];
      assert h == s[..|h|];
      if |h| >= |sep| {
        assert h[1..] == rest[0];
      }
    }
  }

  /** Splitting `x + t` on a separator whose first character `x` does not
      contain glues `x` onto the first piece of `t`. */
  lemma {:induction false} SplitFreePrefix(x: string, t: string, sep: string)
    requires |sep| > 0 && sep[0] !in x
    ensures Split(x + t, sep) == [x + Split(t, sep)[0]] + Split(t, sep)[1..]
    decreases |x|
  {
    if |x| == 0 {
      var r := Split(t, sep);
      assert x + t == t;
      assert x + r[0] == r[0];
      assert r == [r[0]] + r[1..];
    } else {
      SplitFreePrefix(x[1..], t, sep);
      assert (x + t)[1..] == x[1..] + t;
      assert !StartsWith(x + t, sep) by { assert (x + t)[0] == x[0]; }
      assert [x[0]] + (x[1..] + Split(t, sep)[0]) == x + Split(t, sep)[0];
    }
  }

  /** For a one-character separator that no part contains, split undoes join:
      `parts.join(c).split(c) == parts`. */
  lemma {:induction false} SplitJoin(parts: seq<string>, c: char)
    requires |parts| >= 1
    requires forall i :: 0 <= i < |parts| ==> c !in parts[i]
    ensures Split(Join(parts, [c]), [c]) == parts
    decreases |parts|
  {
    if |parts| == 1 {
      SplitFreePrefix(parts[0], "", [c]);
      assert parts[0] + "" == parts[0];
    } else {
      var tail := Join(parts[1..], [c]);
      SplitJoin(parts[1..], c);
      assert Join(parts, [c]) == parts[0] + ([c] + tail);
      SplitFreePrefix(parts[0], [c] + tail, [c]);
      assert StartsWith([c] + tail, [c]);
      assert ([c] + tail)[1..] == tail;
      assert Split([c] + tail, [c]) == [""] + parts[1..];
      assert parts[0] + "" == parts[0];
    }
  }

  // ---------------------------------------------------------------------------
  // trim
  // ---------------------------------------------------------------------------

  /** The ECMAScript WhiteSpace and LineTerminator code points, the set that
      `String.prototype.trim` removes. */
  predicate IsWhiteSpace(c: char)
  {
    || c == '\U{0009}' || c == '\U{000B}' || c == '\U{000C}' || c == '\U{0020}'
    || c == '\U{00A0}' || c == '\U{FEFF}' || c == '\U{1680}'
    || ('\U{2000}' <= c <= '\U{200A}') || c == '\U{202F}' || c == '\U{205F}' || c == '\U{3000}'
    || c == '\n' || c == '\r' || c == '\U{2028}' || c == '\U{2029}'
  }

  /** `s` without its leading white space. */
  function TrimStart(s: string): (r: string)
    ensures |r| <= |s| && r == s[|s| - |r|..]
    ensures forall i :: 0 <= i < |s| - |r| ==> IsWhiteSpace(s[i])
    ensures r == [] || !IsWhiteSpace(r[0])
    decreases |s|
  {
    if |s| > 0 && IsWhiteSpace(s[0]) then TrimStart(s[1..]) else s
  }

  /** `s` without its trailing white space. */
  function TrimEnd(s: string): (r: string)
    ensures |r| <= |s| && r == s[..|r|]
    ensures forall i :: |r| <= i < |s| ==> IsWhiteSpace(s[i])
    ensures r == [] || !IsWhiteSpace(r[|r| - 1])
    decreases |s|
  {
    if |s| > 0 && IsWhiteSpace(s[|s| - 1]) then TrimEnd(s[..|s| - 1]) else s
  }

  /** How many characters of leading white space `s` has. */
  function LeadingWhiteSpace(s: string): (n: nat)
    ensures n <= |s|
  {
    |s| - |TrimStart(s)|
  }

  /** `s.trim()`: the slice of `s` that neither starts nor ends with white
      space, such that everything cut away on either side is white space. */
  function Trim(s: string): (r: string)
    ensures LeadingWhiteSpace(s) + |r| <= |s|
    ensures r == s[LeadingWhiteSpace(s)..LeadingWhiteSpace(s) + |r|]
    ensures forall k :: 0 <= k < LeadingWhiteSpace(s) ==> IsWhiteSpace(s[k])
    ensures forall k :: LeadingWhiteSpace(s) + |r| <= k < |s| ==> IsWhiteSpace(s[k])
    ensures r == [] || (!IsWhiteSpace(r[0]) && !IsWhiteSpace(r[|r| - 1]))
  {
    var t := TrimStart(s);
    var r := TrimEnd(t);
    assert r == s[|s| - |t|..|s| - |t| + |r|];
    r
  }

  /** A block made only of white space trims to the empty string. */
  lemma TrimAllWhiteSpace(s: string)
    requires forall k :: 0 <= k < |s| ==> IsWhiteSpace(s[k])
    ensures Trim(s) == ""
  {
  }

  /** A string with no white space at either end is left as it is. */
  lemma TrimUntouched(s: string)
    requires s == [] || (!IsWhiteSpace(s[0]) && !IsWhiteSpace(s[|s| - 1]))
    ensures Trim(s) == s
  {
  }

  // ---------------------------------------------------------------------------
  // decimal strings
  // ---------------------------------------------------------------------------

  /** The character of the decimal digit `d`. */
  function Digit(d: nat): (c: char)
    requires d < 10
    ensures '0' <= c <= '9'
  {
    ('0' as int + d) as char
  }

  /** The decimal digits of `n`, without leading zeros (`Number.prototype.toString`
      of a non-negative integer). */
  function NatDigits(n: nat): (s: string)
    ensures |s| >= 1
    ensures forall i :: 0 <= i < |s| ==> '0' <= s[i] <= '9'
    decreases n
  {
    if n < 10 then [Digit(n)] else NatDigits(n / 10) + [Digit(n % 10)]
  }

  /** `n.toString()` for an integer: a minus sign for negatives, then the digits. */
  function DecimalString(n: int): (r: string)
    ensures |r| >= 1
    ensures r[0] == '-' <==> n < 0
  {
    if n < 0 then "-" + NatDigits(-n) else NatDigits(n)
  }

  /** The number a string of decimal digits denotes. */
  function DigitsValue(s: string): nat
    requires forall i :: 0 <= i < |s| ==> '0' <= s[i] <= '9'
    decreases |s|
  {
    if |s| == 0 then 0
    else DigitsValue(s[..|s| - 1]) * 10 + (s[|s| - 1] as int - '0' as int)
  }

  /** Reading the decimal string of `n` gives back `n`. */
  lemma {:induction false} DigitsValueOfNatDigits(n: nat)
    ensures DigitsValue(NatDigits(n)) == n
    decreases n
  {
    if n >= 10 {
      DigitsValueOfNatDigits(n / 10);
      var s := NatDigits(n);
      assert s[..|s| - 1] == NatDigits(n / 10);
    }
  }

  /** Different numbers have different decimal strings. */
  lemma NatDigitsInjective()
    ensures forall a: nat, b: nat :: NatDigits(a) == NatDigits(b) ==> a == b
  {
    forall a: nat, b: nat | NatDigits(a) == NatDigits(b)
      ensures a == b
    {
      DigitsValueOfNatDigits(a);
      DigitsValueOfNatDigits(b);
    }
  }

  /** The most significant decimal digit of `n`. */
  function LeadingDigit(n: nat): (d: nat)
    ensures d < 10
    ensures n > 0 ==> d > 0
    decreases n
  {
    if n < 10 then n else LeadingDigit(n / 10)
  }

  function Pow10(k: nat): (p: nat)
    ensures p >= 1
  {
    if k == 0 then 1 else 10 * Pow10(k - 1)
  }

  /** The first character of the decimal string is the leading digit. */
  lemma {:induction false} NatDigitsHead(n: nat)
    ensures NatDigits(n)[0] == Digit(LeadingDigit(n))
    decreases n
  {
    if n >= 10 {
      NatDigitsHead(n / 10);
    }
  }

  /** `n` lies in the decade band of digit `d`: `[d * 10^k, (d + 1) * 10^k)`. */
  ghost predicate InBand(n: nat, d: nat, k: nat)
  {
    d * Pow10(k) <= n < (d + 1) * Pow10(k)
  }

  /** The leading digit of `n` is `d` exactly when `n` lies in
      `[d * 10^k, (d + 1) * 10^k)` for some `k`, for a non-zero digit `d`. */
  lemma LeadingDigitRange(n: nat, d: nat)
    requires 1 <= d < 10
    ensures LeadingDigit(n) == d <==> exists k: nat :: InBand(n, d, k)
  {
    if LeadingDigit(n) == d {
      var k := LeadingDigitBand(n, d);
    }
    if exists k: nat :: InBand(n, d, k) {
      var k: nat :| InBand(n, d, k);
      BandLeadingDigit(n, d, k);
    }
  }

  lemma {:induction false} LeadingDigitBand(n: nat, d: nat) returns (k: nat)
    requires 1 <= d < 10 && LeadingDigit(n) == d
    ensures InBand(n, d, k)
    decreases n
  {
    if n < 10 {
      k := 0;
    } else {
      var j := LeadingDigitBand(n / 10, d);
      ScaleRange(n / 10, n, d, j);
      k := j + 1;
    }
  }

  lemma {:induction false} BandLeadingDigit(n: nat, d: nat, k: nat)
    requires 1 <= d < 10 && InBand(n, d, k)
    ensures LeadingDigit(n) == d
    decreases k
  {
    if k == 0 {
    } else {
      assert Pow10(k) == 10 * Pow10(k - 1);
      assert n >= 10 by { assert d * Pow10(k) >= Pow10(k) >= 10; }
      UnscaleRange(n / 10, n, d, k - 1);
      BandLeadingDigit(n / 10, d, k - 1);
    }
  }

  lemma ScaleRange(q: nat, n: nat, d: nat, k: nat)
    requires q == n / 10 && 1 <= d < 10
    requires d * Pow10(k) <= q < (d + 1) * Pow10(k)
    ensures d * Pow10(k + 1) <= n < (d + 1) * Pow10(k + 1)
  {
    var p := Pow10(k);
    assert Pow10(k + 1) == 10 * p;
    assert d * (10 * p) == 10 * (d * p);
    assert (d + 1) * (10 * p) == 10 * ((d + 1) * p);
  }

  lemma UnscaleRange(q: nat, n: nat, d: nat, k: nat)
    requires q == n / 10 && 1 <= d < 10
    requires d * Pow10(k + 1) <= n < (d + 1) * Pow10(k + 1)
    ensures d * Pow10(k) <= q < (d + 1) * Pow10(k)
  {
    var p := Pow10(k);
    assert Pow10(k + 1) == 10 * p;
    assert d * (10 * p) == 10 * (d * p);
    assert (d + 1) * (10 * p) == 10 * ((d + 1) * p);
  }
}
