/** Worked instances of the path splitter and the matcher, each derived from
    the general round-trip and walk lemmas. */
module PathExamples {
  import opened Errors
  import opened PathSyntax
  import PathMatcher

  // ---------------------------------------------------------------------------
  // Path.split and Path.splitSequence
  // ---------------------------------------------------------------------------

  lemma SplitEmpty()
    ensures Split("") == Ok([])
  {
  }

  lemma SplitRootOnly()
    ensures Split("/") == Ok([])
  {
  }

  lemma SplitNoLeadingSlash()
    ensures Split("a/b") == Err(MalformedPath("a/b"))
  {
  }

  /** A `/` inside braces does not cut a segment. */
  lemma SplitKeepsBracedGroup()
    ensures Split("/a/{b,c}/d") == Ok(["a", "{b,c}", "d"])
  {
    var segs := ["a", "{b,c}", "d"];
    PlainScan("a", 0, '/');
    PlainScan("d", 0, '/');
    assert ValidPart("{b,c}", '/');
    assert Join(segs) == "/a/{b,c}/d";
    JoinThenSplit(segs);
  }

  /** A doubled slash gives an empty segment. */
  lemma SplitDoubleSlash()
    ensures Split("//a") == Ok(["", "a"])
  {
    var segs := ["", "a"];
    PlainScan("a", 0, '/');
    assert ValidPart("", '/');
    assert Join(segs) == "//a";
    JoinThenSplit(segs);
  }

  /** A trailing slash adds no empty segment. */
  lemma SplitTrailingSlash()
    ensures Split("/a/") == Ok(["a"])
  {
    PlainScan("a", 0, '/');
    ScanConcat("a", "/", 0, '/');
    assert "a" + "/" == "/a/"[1..];
    var t := "a/";
    var sc := ScanSegment(t, 0, '/');
    assert sc == Scan(1, 0);
    assert t[sc.stop + 1..] == "";
    assert [t[..sc.stop]] == ["a"];
    assert SplitBody(t[sc.stop + 1..], '/', "/a/") == Ok([]);
    assert [t[..sc.stop]] + [] == ["a"];
    assert SplitBody("a/", '/', "/a/") == Ok(["a"]);
  }

  /** The `{` opened in the second segment is never closed, so the scan of
      that segment ends at depth 1. */
  lemma SplitUnbalanced()
    ensures Split("/a/{b/c") == Err(UnbalancedBrace("/a/{b/c"))
  {
    var t := "a/{b/c";
    assert "/a/{b/c"[1..] == t;
    assert ScanSegment(t, 0, '/') == Scan(1, 0) by {
      assert t[1..] == "/{b/c";
    }
    assert t[2..] == "{b/c";
    assert ScanSegment("{b/c", 0, '/') == Scan(4, 1) by {
      assert "{b/c"[1..] == "b/c" && "b/c"[1..] == "/c" && "/c"[1..] == "c" && "c"[1..] == "";
      assert ScanSegment("c", 1, '/') == Scan(1, 1);
      assert ScanSegment("/c", 1, '/') == Scan(2, 1);
    }
  }

  lemma SplitSequenceThree()
    ensures SplitSequence("{foo,bar,baz}") == Ok(["foo", "bar", "baz"])
  {
    var parts := ["foo", "bar", "baz"];
    PlainScan("foo", 0, ',');
    PlainScan("bar", 0, ',');
    PlainScan("baz", 0, ',');
    assert JoinSequence(parts) == "{foo,bar,baz}";
    JoinSequenceThenSplit(parts);
  }

  lemma SplitSequenceEmpty()
    ensures SplitSequence("{}") == Ok([])
  {
  }

  lemma SplitSequenceNeedsBraces()
    ensures SplitSequence("foo}") == Err(BadSequence("foo}"))
    ensures SplitSequence("{foo") == Err(BadSequence("{foo"))
  {
  }

  // ---------------------------------------------------------------------------
  // PathMatcher
  // ---------------------------------------------------------------------------

  // Patterns "pic", "*" -> 1 and "pic", "all" -> 2: the literal wins over
  // "*", and any other second segment is captured.
  lemma LiteralBeforeWildcard()
    ensures var root := PathMatcher.Insert(PathMatcher.Insert(PathMatcher.EMPTY_NODE, ["pic", "*"], 1), ["pic", "all"], 2);
      && PathMatcher.MatchSegments(root, ["pic", "all"]) == PathMatcher.Outcome(2, [])
      && PathMatcher.MatchSegments(root, ["pic", "42"]) == PathMatcher.Outcome(1, ["42"])
      && PathMatcher.MatchSegments(root, ["pic"]) == PathMatcher.Outcome(PathMatcher.NOT_FOUND, [])
  {
  }

  // Patterns "a", "b", "c" -> 1 and "a", "*", "d" -> 2: the path a/b/d takes
  // the literal "b", then finds no "d", and does not go back to try "*".
  lemma NoBacktracking()
    ensures var root := PathMatcher.Insert(PathMatcher.Insert(PathMatcher.EMPTY_NODE, ["a", "b", "c"], 1), ["a", "*", "d"], 2);
      && PathMatcher.MatchSegments(root, ["a", "b", "d"]) == PathMatcher.Outcome(PathMatcher.NOT_FOUND, [])
      && PathMatcher.MatchSegments(root, ["a", "x", "d"]) == PathMatcher.Outcome(2, ["x"])
      && PathMatcher.MatchSegments(root, ["a", "x", "e"]) == PathMatcher.Outcome(PathMatcher.NOT_FOUND, ["x"])
  {
  }
}
