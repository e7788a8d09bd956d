/** The response-header parser inside `getAllResponseHeaders`: the raw header
    block the transport reports is trimmed, cut into lines on runs of CR and
    LF, and every line of the form `name: value` with a non-empty name and a
    non-empty value is stored in a dictionary, a later line overwriting an
    earlier one with the same name. */
module ResponseHeaders {
  import opened JsText

  /** `RequestHeaders`: header name to header value. */
  type Headers = map<string, string>

  predicate IsLineBreak(c: char)
  {
    c == '\r' || c == '\n'
  }

  /** `s` without the run of CR and LF at its start. */
  function DropBreaks(s: string): (r: string)
    ensures |r| <= |s| && r == s[|s| - |r|..]
    ensures r == [] || !IsLineBreak(r[0])
    ensures |s| > 0 && IsLineBreak(s[0]) ==> |r| < |s|
    decreases |s|
  {
    if |s| > 0 && IsLineBreak(s[0]) then DropBreaks(s[1..]) else s
  }

  /** `s.split(/[\r\n]+/)`: the pieces between maximal runs of CR and LF
      (`SplitLinesClean`: no piece holds a line break). */
  function SplitLines(s: string): (lines: seq<string>)
    ensures |lines| >= 1
    decreases |s|
  {
    if |s| == 0 then [""]
    else if IsLineBreak(s[0]) then [""] + SplitLines(DropBreaks(s))
    else
      var rest := SplitLines(s[1..]);
      [[s[0]] + rest[0]] + rest[1..]
  }

  /** `line` holds no CR and no LF. */
  predicate NoBreaks(line: string)
  {
    forall k :: 0 <= k < |line| ==> !IsLineBreak(line[k])
  }

  /** No piece of `SplitLines(s)` holds a line break. */
  lemma {:induction false} SplitLinesClean(s: string)
    ensures forall i :: 0 <= i < |SplitLines(s)| ==> NoBreaks(SplitLines(s)[i])
    decreases |s|
  {
    if |s| > 0 {
      var lines := SplitLines(s);
      if IsLineBreak(s[0]) {
        var rest := SplitLines(DropBreaks(s));
        SplitLinesClean(DropBreaks(s));
        assert lines == [""] + rest;
        forall i | 0 < i < |lines|
          ensures NoBreaks(lines[i])
        {
          assert lines[i] == rest[i - 1];
        }
      } else {
        var rest := SplitLines(s[1..]);
        SplitLinesClean(s[1..]);
        var first := [s[0]] + rest[0];
        assert forall k :: 1 <= k < |first| ==> first[k] == rest[0][k - 1];
        assert NoBreaks(first);
        assert lines == [first] + rest[1..];
        forall i | 0 < i < |lines|
          ensures NoBreaks(lines[i])
        {
          assert lines[i] == rest[i];
        }
      }
    }
  }

  /** The name and value of one header line: `parts = line.split(": ")`, the
      name is `parts.shift()` and the value is `parts.join(": ")`. */
  function HeaderField(line: string): (string, string)
  {
    var parts := Split(line, ": ");
    (parts[0], Join(parts[1..], ": "))
  }

  /** Line `line` stores header `name`: its name is `name` and both its name
      and its value are non-empty (the `header && value` test). */
  predicate IsEntry(line: string, name: string)
  {
    var (h, v) := HeaderField(line);
    h == name && h != "" && v != ""
  }

  /** The dictionary the `forEach` over `lines` builds. */
  function Collect(lines: seq<string>): Headers
    decreases |lines|
  {
    if |lines| == 0 then map[]
    else
      var all := Collect(lines[..|lines| - 1]);
      var (h, v) := HeaderField(lines[|lines| - 1]);
      if h != "" && v != "" then all[h := v] else all
  }

  /** The headers `getAllResponseHeaders` reports for the raw block `raw`. */
  function ParseHeaders(raw: string): Headers
  {
    Collect(SplitLines(Trim(raw)))
  }

  /** The imperative form: trim, split into lines, and fill the dictionary
      in place, one line after the other. */
  method GetAllResponseHeaders(raw: string) returns (allHeaders: Headers)
    ensures allHeaders == ParseHeaders(raw)
  {
    allHeaders := map[];
    var lines := SplitLines(Trim(raw));
    var i := 0;
    while i < |lines|
      invariant 0 <= i <= |lines|
      invariant allHeaders == Collect(lines[..i])
    {
      var parts := Split(lines[i], ": ");
      var header := parts[0];
      var value := Join(parts[1..], ": ");
      if header != "" && value != "" {
        allHeaders := allHeaders[header := value];
      }
      assert lines[..i + 1][..i] == lines[..i];
      i := i + 1;
    }
    assert lines[..i] == lines;
  }

  // ---------------------------------------------------------------------------
  // properties
  // ---------------------------------------------------------------------------

  lemma {:induction false} ContainsAt(x: string, i: nat, sep: string)
    requires |sep| > 0 && i + |sep| <= |x| && x[i..i + |sep|] == sep
    ensures Contains(x, sep)
    decreases i
  {
    if i == 0 {
      assert x[..|sep|] == sep;
    } else {
      ContainsAt(x[1..], i - 1, sep);
      assert x[1..][i - 1..i - 1 + |sep|] == x[i..i + |sep|];
    }
  }

  /** Each line is cut at its first `": "`: the name holds no `": "`; when the
      line has one, the line is the name, `": "` and the value, so the value
      keeps any later `": "`; when it has none, the name is the whole line and
      the value is empty. */
  lemma HeaderFieldCut(line: string)
    ensures !Contains(HeaderField(line).0, ": ")
    ensures Contains(line, ": ") ==> line == HeaderField(line).0 + ": " + HeaderField(line).1
    ensures !Contains(line, ": ") ==> HeaderField(line) == (line, "")
  {
    var parts := Split(line, ": ");
    JoinSplit(line, ": ");
    SplitHead(line, ": ");
    if |parts| > 1 {
      assert line == parts[0] + ": " + Join(parts[1..], ": ");
      ContainsAt(line, |parts[0]|, ": ");
    }
  }

  /** The dictionary holds a name exactly when some line stores it, and then
      the value of the LAST line that stores it: a repeated header keeps its
      last value. */
  lemma CollectLastWins(lines: seq<string>, name: string)
    ensures name in Collect(lines) <==> exists i :: 0 <= i < |lines| && IsEntry(lines[i], name)
    ensures name in Collect(lines) ==>
              exists i :: && 0 <= i < |lines| && IsEntry(lines[i], name)
                          && Collect(lines)[name] == HeaderField(lines[i]).1
                          && forall j :: i < j < |lines| ==> !IsEntry(lines[j], name)
  {
    CollectHas(lines, name);
    if name in Collect(lines) {
      var i := CollectLast(lines, name);
    }
  }

  lemma {:induction false} CollectHas(lines: seq<string>, name: string)
    ensures name in Collect(lines) <==> exists i :: 0 <= i < |lines| && IsEntry(lines[i], name)
    decreases |lines|
  {
    if |lines| > 0 {
      var n := |lines| - 1;
      var init := lines[..n];
      CollectHas(init, name);
      assert forall i :: 0 <= i < n ==> init[i] == lines[i];
      if !IsEntry(lines[n], name) && name in Collect(lines) {
        var i :| 0 <= i < n && IsEntry(init[i], name);
        assert IsEntry(lines[i], name);
      }
    }
  }

  lemma {:induction false} CollectLast(lines: seq<string>, name: string) returns (i: nat)
    requires name in Collect(lines)
    ensures && i < |lines| && IsEntry(lines[i], name)
            && Collect(lines)[name] == HeaderField(lines[i]).1
            && forall j :: i < j < |lines| ==> !IsEntry(lines[j], name)
    decreases |lines|
  {
    var n := |lines| - 1;
    var init := lines[..n];
    if IsEntry(lines[n], name) {
      i := n;
    } else {
      i := CollectLast(init, name);
      assert lines[i] == init[i];
      assert forall j :: i < j < n ==> init[j] == lines[j];
    }
  }

  /** What the parser reports always has a non-empty name free of `": "` and
      of line breaks, and a non-empty value free of line breaks. */
  lemma ParsedHeaderShape(raw: string, name: string)
    requires name in ParseHeaders(raw)
    ensures name != "" && ParseHeaders(raw)[name] != ""
    ensures !Contains(name, ": ")
    ensures NoBreaks(name) && NoBreaks(ParseHeaders(raw)[name])
  {
    var lines := SplitLines(Trim(raw));
    SplitLinesClean(Trim(raw));
    CollectLastWins(lines, name);
    var i :| && 0 <= i < |lines| && IsEntry(lines[i], name)
             && Collect(lines)[name] == HeaderField(lines[i]).1
             && forall j :: i < j < |lines| ==> !IsEntry(lines[j], name);
    FieldOfCleanLine(lines[i]);
  }

  /** The name and the value cut from a line without line breaks have none
      either, and the name holds no `": "`. */
  lemma FieldOfCleanLine(line: string)
    requires NoBreaks(line)
    ensures var (h, v) := HeaderField(line);
            !Contains(h, ": ") && NoBreaks(h) && NoBreaks(v)
  {
    HeaderFieldCut(line);
    var (h, v) := HeaderField(line);
    if Contains(line, ": ") {
      assert forall k :: 0 <= k < |h| ==> h[k] == line[k];
      assert forall k :: 0 <= k < |v| ==> v[k] == line[|h| + 2 + k];
    }
  }

  /** An empty or white-space-only header block yields no headers. */
  lemma BlankBlock(raw: string)
    requires forall k :: 0 <= k < |raw| ==> IsWhiteSpace(raw[k])
    ensures ParseHeaders(raw) == map[]
  {
    TrimAllWhiteSpace(raw);
    assert SplitLines("") == [""];
    assert Split("", ": ") == [""];
    assert HeaderField("") == ("", "");
    assert [""][..0] == [];
  }

  // ---------------------------------------------------------------------------
  // round trip
  // ---------------------------------------------------------------------------

  /** A header name `HeadersRoundTrip` accepts: non-empty, without a colon
      and without a line break. (The parser also reports names holding a
      colon not followed by a space.) */
  predicate IsFieldName(name: string)
  {
    name != [] && ':' !in name && NoBreaks(name)
  }

  /** A header value the parser can report back as it is: non-empty and
      without a line break. */
  predicate IsFieldValue(value: string)
  {
    value != [] && NoBreaks(value)
  }

  predicate StartsClean(s: string)
  {
    s == [] || !IsWhiteSpace(s[0])
  }

  predicate EndsClean(s: string)
  {
    s == [] || !IsWhiteSpace(s[|s| - 1])
  }

  /** The line `name: value`. */
  function FieldLine(e: (string, string)): string
  {
    e.0 + ": " + e.1
  }

  /** A header block as a transport writes it: one `name: value` line per
      entry, separated by CR LF. */
  function RenderHeaders(entries: seq<(string, string)>): string
  {
    Join(FieldLines(entries), "\r\n")
  }

  function FieldLines(entries: seq<(string, string)>): (lines: seq<string>)
    ensures |lines| == |entries|
  {
    seq(|entries|, i requires 0 <= i < |entries| => FieldLine(entries[i]))
  }

  /** The dictionary of a list of entries, later entries overwriting earlier
      ones. */
  function EntryMap(entries: seq<(string, string)>): Headers
    decreases |entries|
  {
    if |entries| == 0 then map[]
    else EntryMap(entries[..|entries| - 1])[entries[|entries| - 1].0 := entries[|entries| - 1].1]
  }

  lemma FieldLineCut(e: (string, string))
    requires IsFieldName(e.0) && IsFieldValue(e.1)
    ensures HeaderField(FieldLine(e)) == e
  {
    var line := FieldLine(e);
    SplitFreePrefix(e.0, ": " + e.1, ": ");
    assert line == e.0 + (": " + e.1);
    assert StartsWith(": " + e.1, ": ");
    assert (": " + e.1)[2..] == e.1;
    JoinSplit(e.1, ": ");
    assert Split(": " + e.1, ": ") == [""] + Split(e.1, ": ");
    assert e.0 + "" == e.0;
    assert Split(line, ": ") == [e.0] + Split(e.1, ": ");
  }

  lemma {:induction false} SplitLinesFreePrefix(x: string, t: string)
    requires NoBreaks(x)
    ensures SplitLines(x + t) == [x + SplitLines(t)[0]] + SplitLines(t)[1..]
    decreases |x|
  {
    if |x| == 0 {
      var r := SplitLines(t);
      assert x + t == t;
      assert x + r[0] == r[0];
      assert r == [r[0]] + r[1..];
    } else {
      SplitLinesFreePrefix(x[1..], t);
      assert (x + t)[1..] == x[1..] + t;
      assert (x + t)[0] == x[0];
      assert [x[0]] + (x[1..] + SplitLines(t)[0]) == x + SplitLines(t)[0];
    }
  }

  /** A run of CR and LF, however long, drops off the front as a whole. */
  lemma {:induction false} DropBreakRun(r: string, t: string)
    requires forall k :: 0 <= k < |r| ==> IsLineBreak(r[k])
    requires t == [] || !IsLineBreak(t[0])
    ensures DropBreaks(r + t) == t
    decreases |r|
  {
    if |r| == 0 {
      assert r + t == t;
    } else {
      assert (r + t)[0] == r[0];
      assert (r + t)[1..] == r[1..] + t;
      DropBreakRun(r[1..], t);
    }
  }

  /** A break-free line followed by a non-empty run of CR and LF is cut off as
      one piece: the run makes a single cut, so blank lines between header
      lines yield no empty pieces. */
  lemma BreakRunCut(x: string, r: string, t: string)
    requires NoBreaks(x)
    requires r != [] && forall k :: 0 <= k < |r| ==> IsLineBreak(r[k])
    requires t == [] || !IsLineBreak(t[0])
    ensures SplitLines(x + r + t) == [x] + SplitLines(t)
  {
    assert x + r + t == x + (r + t);
    SplitLinesFreePrefix(x, r + t);
    assert (r + t)[0] == r[0];
    DropBreakRun(r, t);
    assert SplitLines(r + t) == [""] + SplitLines(t);
    assert x + "" == x;
  }

  /** Lines free of line breaks, none of them empty, joined with CR LF are
      split back into the same lines. */
  lemma {:induction false} SplitLinesJoin(lines: seq<string>)
    requires |lines| >= 1
    requires forall i :: 0 <= i < |lines| ==> lines[i] != [] && NoBreaks(lines[i])
    ensures SplitLines(Join(lines, "\r\n")) == lines
    decreases |lines|
  {
    if |lines| == 1 {
      SplitLinesFreePrefix(lines[0], "");
      assert lines[0] + "" == lines[0];
    } else {
      var tail := Join(lines[1..], "\r\n");
      SplitLinesJoin(lines[1..]);
      assert Join(lines, "\r\n") == lines[0] + ("\r\n" + tail);
      SplitLinesFreePrefix(lines[0], "\r\n" + tail);
      JoinHead(lines[1..], "\r\n");
      SplitLinesAfterBreak(tail);
      assert lines[0] + "" == lines[0];
    }
  }

  lemma SplitLinesAfterBreak(tail: string)
    requires tail != [] && !IsLineBreak(tail[0])
    ensures SplitLines("\r\n" + tail) == [""] + SplitLines(tail)
  {
    var s := "\r\n" + tail;
    assert s[0] == '\r' && s[1] == '\n' && s[2..] == tail;
    assert s[1..][1..] == tail;
    assert DropBreaks(s[1..]) == tail;
  }

  lemma JoinHead(parts: seq<string>, sep: string)
    requires |parts| >= 1 && |parts[0]| >= 1
    ensures |Join(parts, sep)| >= 1 && Join(parts, sep)[0] == parts[0][0]
  {
  }

  lemma {:induction false} JoinLast(parts: seq<string>, sep: string)
    requires |parts| >= 1 && |parts[|parts| - 1]| >= 1
    ensures |Join(parts, sep)| >= 1
    ensures Join(parts, sep)[|Join(parts, sep)| - 1] == parts[|parts| - 1][|parts[|parts| - 1]| - 1]
    decreases |parts|
  {
    if |parts| > 1 {
      JoinLast(parts[1..], sep);
    }
  }

  lemma {:induction false} CollectFieldLines(entries: seq<(string, string)>)
    requires forall i :: 0 <= i < |entries| ==> IsFieldName(entries[i].0) && IsFieldValue(entries[i].1)
    ensures Collect(FieldLines(entries)) == EntryMap(entries)
    decreases |entries|
  {
    var lines := FieldLines(entries);
    if |entries| > 0 {
      var n := |entries| - 1;
      CollectFieldLines(entries[..n]);
      assert lines[..n] == FieldLines(entries[..n]);
      FieldLineCut(entries[n]);
    }
  }

  lemma FieldLinesClean(entries: seq<(string, string)>)
    requires forall i :: 0 <= i < |entries| ==> IsFieldName(entries[i].0) && IsFieldValue(entries[i].1)
    ensures forall i :: 0 <= i < |entries| ==>
              FieldLines(entries)[i] != [] && NoBreaks(FieldLines(entries)[i])
  {
    forall i | 0 <= i < |entries|
      ensures FieldLines(entries)[i] != [] && NoBreaks(FieldLines(entries)[i])
    {
      assert FieldLines(entries)[i] == entries[i].0 + ": " + entries[i].1;
    }
  }

  lemma RenderedBlockClean(entries: seq<(string, string)>)
    requires |entries| >= 1
    requires forall i :: 0 <= i < |entries| ==> IsFieldName(entries[i].0) && IsFieldValue(entries[i].1)
    requires StartsClean(entries[0].0) && EndsClean(entries[|entries| - 1].1)
    ensures Trim(RenderHeaders(entries)) == RenderHeaders(entries)
  {
    var lines := FieldLines(entries);
    var last := entries[|entries| - 1];
    assert lines[0] == entries[0].0 + ": " + entries[0].1;
    assert lines[|lines| - 1] == last.0 + ": " + last.1;
    JoinHead(lines, "\r\n");
    JoinLast(lines, "\r\n");
    TrimUntouched(RenderHeaders(entries));
  }

  /** A block of well-formed `name: value` lines separated by CR LF, with no
      white space at its two ends, parses back into the dictionary of its
      entries, a repeated name keeping its last value. */
  lemma HeadersRoundTrip(entries: seq<(string, string)>)
    requires |entries| >= 1
    requires forall i :: 0 <= i < |entries| ==> IsFieldName(entries[i].0) && IsFieldValue(entries[i].1)
    requires StartsClean(entries[0].0) && EndsClean(entries[|entries| - 1].1)
    ensures ParseHeaders(RenderHeaders(entries)) == EntryMap(entries)
  {
    RenderedBlockClean(entries);
    FieldLinesClean(entries);
    SplitLinesJoin(FieldLines(entries));
    CollectFieldLines(entries);
  }

  /** Two well-formed entries written as a block parse back into their
      dictionary. */
  lemma TwoEntries(n0: string, v0: string, n1: string, v1: string)
    requires IsFieldName(n0) && IsFieldValue(v0) && IsFieldName(n1) && IsFieldValue(v1)
    requires StartsClean(n0) && EndsClean(v1)
    ensures ParseHeaders(n0 + ": " + v0 + "\r\n" + n1 + ": " + v1) == map[n0 := v0, n1 := v1]
  {
    var entries := [(n0, v0), (n1, v1)];
    var l0, l1 := FieldLine(entries[0]), FieldLine(entries[1]);
    assert FieldLines(entries) == [l0, l1];
    assert Join([l0, l1], "\r\n") == l0 + "\r\n" + l1 by { assert [l0, l1][1..] == [l1]; }
    assert RenderHeaders(entries) == n0 + ": " + v0 + "\r\n" + n1 + ": " + v1;
    assert entries[..1] == [(n0, v0)];
    assert entries[..1][..0] == [];
    assert EntryMap(entries[..1]) == map[][n0 := v0];
    assert EntryMap(entries) == map[n0 := v0, n1 := v1];
    HeadersRoundTrip(entries);
  }
}
