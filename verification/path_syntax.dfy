/** The string side of `Path`: the path-literal splitter `split(String)`, the
    bracketed-sequence splitter `splitSequence`, and the joining done by
    `toString`.

    Both splitters share one scanner: starting at brace depth 0 it walks a
    segment, counting `{` up and `}` down, and stops at the delimiter (`/` for
    paths, `,` for sequences) only when the depth is 0. A segment whose scan
    ends at a non-zero depth is an "unbalanced brace" error. The depth may go
    negative on the way (`}{` is accepted), exactly as in the Java loop.
 */
module PathSyntax {
  import opened Errors

  /** Where a segment scan stopped (offset into the scanned text) and the
      brace depth at that point. */
  datatype Scan = Scan(stop: nat, depth: int)

  function Shift(r: Scan): Scan {
    Scan(r.stop + 1, r.depth)
  }

  /** True for the characters that change the brace depth. */
  predicate IsBrace(c: char) {
    c == '{' || c == '}'
  }

  /** The inner `for (j = i; ...)` loop of `split` and `splitSequence`, run on
      the text `t` that starts at index `i`. */
  function ScanSegment(t: string, depth: int, delim: char): (r: Scan)
    ensures r.stop <= |t|
  {
    if |t| == 0 then Scan(0, depth)
    else if t[0] == '{' then Shift(ScanSegment(t[1..], depth + 1, delim))
    else if t[0] == '}' then Shift(ScanSegment(t[1..], depth - 1, delim))
    else if depth == 0 && t[0] == delim then Scan(0, depth)
    else Shift(ScanSegment(t[1..], depth, delim))
  }

  /** A segment that a splitter could have produced: scanning it alone runs to
      its end and finishes at depth 0. */
  predicate ValidPart(p: string, delim: char) {
    ScanSegment(p, 0, delim) == Scan(|p|, 0)
  }

  /** The outer `while (i < n)` loop shared by both splitters; `t` is the text
      between the leading `/` (or `{`) and the end (or the closing `}`), and
      `whole` is the string quoted in the error. */
  function SplitBody(t: string, delim: char, whole: string): Result<seq<string>>
    decreases |t|
  {
    if |t| == 0 then Ok([])
    else
      var sc := ScanSegment(t, 0, delim);
      if sc.depth != 0 then Err(UnbalancedBrace(whole))
      else if sc.stop == |t| then Ok([t])
      else
        var rest :- SplitBody(t[sc.stop + 1..], delim, whole);
        Ok([t[..sc.stop]] + rest)
  }

  /** `Path.split(String)`. */
  function Split(s: string): (r: Result<seq<string>>)
    ensures |s| == 0 ==> r == Ok([])
    ensures |s| > 0 && s[0] != '/' ==> r == Err(MalformedPath(s))
    ensures r.Err? ==> r.error == MalformedPath(s) || r.error == UnbalancedBrace(s)
    ensures r.Ok? ==> forall k :: 0 <= k < |r.value| ==> ValidPart(r.value[k], '/')
  {
    if |s| == 0 then Ok([])
    else if s[0] != '/' then Err(MalformedPath(s))
    else
      SplitBodyParts(s[1..], '/', s);
      SplitBodyErrors(s[1..], '/', s);
      SplitBody(s[1..], '/', s)
  }

  /** `Path.splitSequence`. An empty string makes the Java code fail on
      `charAt(0)` before its own check. */
  function SplitSequence(s: string): (r: Result<seq<string>>)
    ensures |s| == 0 ==> r == Err(StringIndexOutOfBounds)
    ensures |s| > 0 && (s[0] != '{' || s[|s| - 1] != '}') ==> r == Err(BadSequence(s))
    ensures r.Err? ==> r.error in {StringIndexOutOfBounds, BadSequence(s), UnbalancedBrace(s)}
    ensures r.Ok? ==> forall k :: 0 <= k < |r.value| ==> ValidPart(r.value[k], ',')
  {
    if |s| == 0 then Err(StringIndexOutOfBounds)
    else if s[0] != '{' || s[|s| - 1] != '}' then Err(BadSequence(s))
    else
      assert |s| >= 2;
      SplitBodyParts(s[1..|s| - 1], ',', s);
      SplitBodyErrors(s[1..|s| - 1], ',', s);
      SplitBody(s[1..|s| - 1], ',', s)
  }

  /** Every part written with the delimiter in front of it: the shape
      `toString` builds, `"/" + seg` for each segment. */
  function Prefixed(parts: seq<string>, delim: char): string {
    if |parts| == 0 then "" else [delim] + parts[0] + Prefixed(parts[1..], delim)
  }

  /** One more part adds the delimiter and that part at the end. */
  lemma {:induction false} PrefixedSnoc(parts: seq<string>, x: string, delim: char)
    ensures Prefixed(parts + [x], delim) == Prefixed(parts, delim) + [delim] + x
    decreases |parts|
  {
    if |parts| == 0 {
      assert Prefixed([x][1..], delim) == "";
    } else {
      assert (parts + [x])[0] == parts[0] && (parts + [x])[1..] == parts[1..] + [x];
      PrefixedSnoc(parts[1..], x, delim);
    }
  }

  /** The parts with the delimiter between them. */
  function Interleave(parts: seq<string>, delim: char): string {
    if |parts| == 0 then ""
    else if |parts| == 1 then parts[0]
    else parts[0] + [delim] + Interleave(parts[1..], delim)
  }

  /** The literal `Path.toString` produces for a node with these segments. */
  function Join(segments: seq<string>): string {
    Prefixed(segments, '/')
  }

  /** The literal `{a,b,c}` that `splitSequence` reads back as `[a, b, c]`. */
  function JoinSequence(parts: seq<string>): string {
    "{" + Interleave(parts, ',') + "}"
  }

  /** `x` without one final delimiter, if it ends with one. */
  function DropTrailing(x: string, delim: char): string {
    if |x| > 0 && x[|x| - 1] == delim then x[..|x| - 1] else x
  }

  // ---------------------------------------------------------------------------
  // Facts about the scanner
  // ---------------------------------------------------------------------------

  /** A scan that stops early stops on a delimiter at depth 0. */
  lemma {:induction false} ScanStopsAtDelimiter(t: string, depth: int, delim: char)
    requires !IsBrace(delim)
    ensures var r := ScanSegment(t, depth, delim);
      r.stop < |t| ==> t[r.stop] == delim && r.depth == 0
  {
    if |t| == 0 {
    } else if t[0] == '{' {
      ScanStopsAtDelimiter(t[1..], depth + 1, delim);
    } else if t[0] == '}' {
      ScanStopsAtDelimiter(t[1..], depth - 1, delim);
    } else if depth == 0 && t[0] == delim {
    } else {
      ScanStopsAtDelimiter(t[1..], depth, delim);
    }
  }

  /** A scan that runs to the end at depth 0 did not end on a delimiter:
      a final delimiter at depth 0 would have stopped it. */
  lemma {:induction false} ScanToEndLastChar(t: string, depth: int, delim: char)
    requires !IsBrace(delim)
    requires |t| > 0
    requires ScanSegment(t, depth, delim) == Scan(|t|, 0)
    ensures t[|t| - 1] != delim
  {
    var rest := t[1..];
    if t[0] == '{' {
      if |rest| > 0 { ScanToEndLastChar(rest, depth + 1, delim); }
    } else if t[0] == '}' {
      if |rest| > 0 { ScanToEndLastChar(rest, depth - 1, delim); }
    } else if depth == 0 && t[0] == delim {
    } else {
      if |rest| > 0 { ScanToEndLastChar(rest, depth, delim); }
    }
  }

  /** A scan that crosses all of `x` without stopping continues into `y`
      from the depth it reached. */
  lemma {:induction false} ScanConcat(x: string, y: string, depth: int, delim: char)
    requires ScanSegment(x, depth, delim).stop == |x|
    ensures var rx := ScanSegment(x, depth, delim);
      var ry := ScanSegment(y, rx.depth, delim);
      ScanSegment(x + y, depth, delim) == Scan(|x| + ry.stop, ry.depth)
  {
    if |x| == 0 {
      assert x + y == y;
    } else {
      assert (x + y)[0] == x[0];
      assert (x + y)[1..] == x[1..] + y;
      if x[0] == '{' {
        ScanConcat(x[1..], y, depth + 1, delim);
      } else if x[0] == '}' {
        ScanConcat(x[1..], y, depth - 1, delim);
      } else if depth == 0 && x[0] == delim {
      } else {
        ScanConcat(x[1..], y, depth, delim);
      }
    }
  }

  /** Scanning only the part a scan walked over gives the same walk. */
  lemma {:induction false} ScanPrefix(t: string, depth: int, delim: char)
    ensures var r := ScanSegment(t, depth, delim);
      ScanSegment(t[..r.stop], depth, delim) == Scan(r.stop, r.depth)
  {
    var r := ScanSegment(t, depth, delim);
    if |t| == 0 {
    } else if depth == 0 && t[0] == delim && !IsBrace(t[0]) {
    } else {
      var d := if t[0] == '{' then depth + 1 else if t[0] == '}' then depth - 1 else depth;
      assert r == Shift(ScanSegment(t[1..], d, delim));
      ScanPrefix(t[1..], d, delim);
      var p := t[..r.stop];
      assert p[0] == t[0];
      assert p[1..] == t[1..][..r.stop - 1];
    }
  }

  // ---------------------------------------------------------------------------
  // Facts about the splitter
  // ---------------------------------------------------------------------------

  /** Every part a split returns is a valid part. */
  lemma {:induction false} SplitBodyParts(t: string, delim: char, whole: string)
    ensures SplitBody(t, delim, whole).Ok? ==>
      forall k :: 0 <= k < |SplitBody(t, delim, whole).value| ==>
        ValidPart(SplitBody(t, delim, whole).value[k], delim)
  {
    if |t| > 0 {
      var sc := ScanSegment(t, 0, delim);
      ScanPrefix(t, 0, delim);
      if sc.depth == 0 && sc.stop < |t| {
        SplitBodyParts(t[sc.stop + 1..], delim, whole);
      } else if sc.depth == 0 {
        assert t[..sc.stop] == t;
      }
    }
  }

  /** The only failure of the shared loop is an unbalanced brace. */
  lemma {:induction false} SplitBodyErrors(t: string, delim: char, whole: string)
    ensures SplitBody(t, delim, whole).Err? ==>
      SplitBody(t, delim, whole).error == UnbalancedBrace(whole)
  {
    if |t| > 0 {
      var sc := ScanSegment(t, 0, delim);
      if sc.depth == 0 && sc.stop < |t| {
        SplitBodyErrors(t[sc.stop + 1..], delim, whole);
      }
    }
  }

  lemma DropTrailingAppend(a: string, b: string, delim: char)
    requires |b| > 0
    ensures DropTrailing(a + b, delim) == a + DropTrailing(b, delim)
  {
    if b[|b| - 1] == delim {
      assert (a + b)[..|a + b| - 1] == a + b[..|b| - 1];
    }
  }

  /** A split that stops early at a delimiter yields the first part and
      then the split of the rest. */
  lemma SplitBodyCons(t: string, delim: char, whole: string)
    requires SplitBody(t, delim, whole).Ok? && |t| > 0
    requires ScanSegment(t, 0, delim).stop < |t|
    ensures var sc := ScanSegment(t, 0, delim);
      && SplitBody(t[sc.stop + 1..], delim, whole).Ok?
      && SplitBody(t, delim, whole).value == [t[..sc.stop]] + SplitBody(t[sc.stop + 1..], delim, whole).value
  {
  }

  /** The first part, delimiter in front, ahead of the rest of the text from
      its delimiter on, less one trailing delimiter. */
  lemma PrefixedFirst(t: string, k: nat, delim: char, tail: string)
    requires k < |t|
    requires tail == DropTrailing(t[k..], delim)
    ensures [delim] + t[..k] + tail == DropTrailing([delim] + t, delim)
  {
    DropTrailingAppend([delim] + t[..k], t[k..], delim);
    assert [delim] + t[..k] + t[k..] == [delim] + t;
  }

  /** Joining what the loop split, each part behind the delimiter, rebuilds the
      delimiter-prefixed text except for one trailing delimiter, which the
      loop drops. */
  lemma {:induction false} SplitBodyThenPrefixed(t: string, delim: char, whole: string)
    requires !IsBrace(delim)
    requires SplitBody(t, delim, whole).Ok?
    ensures Prefixed(SplitBody(t, delim, whole).value, delim) == DropTrailing([delim] + t, delim)
  {
    if |t| == 0 {
    } else {
      var sc := ScanSegment(t, 0, delim);
      if sc.stop == |t| {
        ScanToEndLastChar(t, 0, delim);
        assert SplitBody(t, delim, whole).value == [t];
        assert Prefixed([t], delim) == [delim] + t + "";
      } else {
        ScanStopsAtDelimiter(t, 0, delim);
        var rest := t[sc.stop + 1..];
        SplitBodyThenPrefixed(rest, delim, whole);
        var parts := SplitBody(t, delim, whole).value;
        SplitBodyCons(t, delim, whole);
        assert parts[1..] == SplitBody(rest, delim, whole).value;
        assert [delim] + rest == t[sc.stop..];
        assert Prefixed(parts, delim) == [delim] + t[..sc.stop] + Prefixed(parts[1..], delim);
        PrefixedFirst(t, sc.stop, delim, Prefixed(parts[1..], delim));
      }
    }
  }

  /** Splitting valid parts written with the delimiter between them gives the
      parts back, provided the last part is not empty (an empty last part
      would look like a trailing delimiter, which the loop drops). */
  lemma {:induction false} InterleaveThenSplitBody(parts: seq<string>, delim: char, whole: string)
    requires !IsBrace(delim)
    requires |parts| > 0 && |parts[|parts| - 1]| > 0
    requires forall k :: 0 <= k < |parts| ==> ValidPart(parts[k], delim)
    ensures SplitBody(Interleave(parts, delim), delim, whole) == Ok(parts)
  {
    var p := parts[0];
    assert ValidPart(p, delim);
    if |parts| == 1 {
      assert Interleave(parts, delim) == p;
      assert parts == [p];
    } else {
      var tail := Interleave(parts[1..], delim);
      var t := Interleave(parts, delim);
      assert t == p + ([delim] + tail);
      ScanConcat(p, [delim] + tail, 0, delim);
      assert ScanSegment([delim] + tail, 0, delim) == Scan(0, 0);
      var sc := ScanSegment(t, 0, delim);
      assert sc == Scan(|p|, 0);
      assert t[..sc.stop] == p;
      assert t[sc.stop + 1..] == tail;
      var rest := parts[1..];
      assert |rest[|rest| - 1]| > 0;
      forall k | 0 <= k < |rest| ensures ValidPart(rest[k], delim) {
        assert rest[k] == parts[k + 1];
      }
      InterleaveThenSplitBody(rest, delim, whole);
      assert parts == [p] + rest;
    }
  }

  lemma {:induction false} PrefixedIsDelimiterThenInterleave(parts: seq<string>, delim: char)
    requires |parts| > 0
    ensures Prefixed(parts, delim) == [delim] + Interleave(parts, delim)
  {
    if |parts| == 1 {
      assert Prefixed(parts[1..], delim) == "";
    } else {
      PrefixedIsDelimiterThenInterleave(parts[1..], delim);
    }
  }

  // ---------------------------------------------------------------------------
  // Round trips
  // ---------------------------------------------------------------------------

  /** `toString` after `split` gives the literal back, less one trailing `/`. */
  lemma SplitThenJoin(s: string)
    requires Split(s).Ok?
    ensures Join(Split(s).value) == DropTrailing(s, '/')
  {
    if |s| > 0 {
      SplitBodyThenPrefixed(s[1..], '/', s);
      assert [s[0]] + s[1..] == s;
    }
  }

  /** A literal survives `split` then `toString` exactly when it is empty or
      does not end with `/`. */
  lemma SplitThenJoinExact(s: string)
    requires Split(s).Ok?
    ensures Join(Split(s).value) == s <==> (|s| == 0 || s[|s| - 1] != '/')
  {
    SplitThenJoin(s);
  }

  /** `split` after `toString` gives the segments back when every segment is
      valid and the last one is not empty. */
  lemma JoinThenSplit(segments: seq<string>)
    requires forall k :: 0 <= k < |segments| ==> ValidPart(segments[k], '/')
    requires |segments| == 0 || |segments[|segments| - 1]| > 0
    ensures Split(Join(segments)) == Ok(segments)
  {
    if |segments| > 0 {
      var s := Join(segments);
      PrefixedIsDelimiterThenInterleave(segments, '/');
      assert s[1..] == Interleave(segments, '/');
      InterleaveThenSplitBody(segments, '/', s);
    }
  }

  /** `splitSequence` reads back what `{a,b,c}` joining wrote, for valid
      parts with a non-empty last part. */
  lemma JoinSequenceThenSplit(parts: seq<string>)
    requires forall k :: 0 <= k < |parts| ==> ValidPart(parts[k], ',')
    requires |parts| == 0 || |parts[|parts| - 1]| > 0
    ensures SplitSequence(JoinSequence(parts)) == Ok(parts)
  {
    var s := JoinSequence(parts);
    assert s[1..|s| - 1] == Interleave(parts, ',');
    if |parts| > 0 {
      InterleaveThenSplitBody(parts, ',', s);
    }
  }

  /** Joining what `splitSequence` returned rebuilds the literal, except that
      a trailing top-level `,` is dropped. */
  lemma SplitSequenceThenJoin(s: string)
    requires SplitSequence(s).Ok?
    ensures var body := s[1..|s| - 1];
      JoinSequence(SplitSequence(s).value) == "{" + DropTrailing(body, ',') + "}"
  {
    var body := s[1..|s| - 1];
    var parts := SplitBody(body, ',', s).value;
    assert SplitSequence(s).value == parts;
    SplitBodyThenPrefixed(body, ',', s);
    assert Prefixed(parts, ',') == DropTrailing([','] + body, ',');
    if |body| == 0 {
      assert parts == [];
    } else {
      DropTrailingAppend([','], body, ',');
      assert Prefixed(parts, ',') == [','] + DropTrailing(body, ',');
      assert |parts| > 0;
      PrefixedIsDelimiterThenInterleave(parts, ',');
      assert ([','] + Interleave(parts, ','))[1..] == Interleave(parts, ',');
      assert ([','] + DropTrailing(body, ','))[1..] == DropTrailing(body, ',');
    }
  }

  /** A part with no brace and no delimiter scans to its end at the depth it
      started with. */
  lemma {:induction false} PlainScan(p: string, depth: int, delim: char)
    requires forall k :: 0 <= k < |p| ==> !IsBrace(p[k]) && p[k] != delim
    ensures ScanSegment(p, depth, delim) == Scan(|p|, depth)
  {
    if |p| > 0 {
      PlainScan(p[1..], depth, delim);
    }
  }
}
