/** `PathMatcher`: a trie from pattern segments to an integer kind.

    `add` walks the pattern's segments from the root, creating missing
    children, and stores the kind on the node it ends at. `match` walks a
    path's segments; at each level it takes the child filed under the segment
    itself, and only when there is none the child filed under `*`, recording
    the segment as a capture. There is no backtracking: a dead end answers
    `NOT_FOUND` at once. The pattern token `*` is an ordinary key of the
    child map, so a path segment that is literally `*` follows that child as
    a literal and is not captured.

    The Java nodes are mutable objects; here a node is a value and `add`
    rebuilds the nodes along the pattern, leaving every other subtree as it
    was (the value counterpart of `addChild` returning the existing child).
 */
module PathMatcher {
  import opened Errors
  import PathSyntax
  import Decimal
  import PathTree

  const NOT_FOUND: int := -1
  const WILDCARD: string := "*"

  /** `PathMatcher.Node`: the child map and the kind. */
  datatype Node = Node(kind: int, children: map<string, Node>)

  /** A freshly created node: no children, kind `NOT_FOUND`. */
  const EMPTY_NODE: Node := Node(NOT_FOUND, map[])

  /** The matcher: the trie and the captures of the most recent `match`. */
  datatype Matcher = Matcher(root: Node, variables: seq<string>)

  /** `new PathMatcher()`. */
  const NEW_MATCHER: Matcher := Matcher(EMPTY_NODE, [])

  // ---------------------------------------------------------------------------
  // Node
  // ---------------------------------------------------------------------------

  /** `Node.getChild`: `None` stands for Java's `null`. */
  function GetChild(n: Node, segment: string): (r: Option<Node>)
    ensures r.Some? <==> segment in n.children
    ensures r.Some? ==> r.value == n.children[segment]
  {
    if segment in n.children then Some(n.children[segment]) else None
  }

  /** `Node.addChild`, as far as the returned child goes: the existing child
      for a known segment, a fresh node otherwise. */
  function AddChild(n: Node, segment: string): (r: Node)
    ensures GetChild(n, segment).Some? ==> r == GetChild(n, segment).value
    ensures GetChild(n, segment).None? ==> r == EMPTY_NODE
  {
    if segment in n.children then n.children[segment] else EMPTY_NODE
  }

  function SetKind(n: Node, kind: int): (r: Node)
    ensures r.kind == kind && r.children == n.children
  {
    n.(kind := kind)
  }

  function GetKind(n: Node): int {
    n.kind
  }

  /** `getKind` answers what the last `setKind` stored, `setKind` leaves
      every child where it was, and storing the node's own kind changes
      nothing. */
  lemma SetKindThenGetKind(n: Node, kind: int, segment: string)
    ensures GetKind(SetKind(n, kind)) == kind
    ensures GetChild(SetKind(n, kind), segment) == GetChild(n, segment)
    ensures SetKind(n, GetKind(n)) == n
  {
  }

  // ---------------------------------------------------------------------------
  // add
  // ---------------------------------------------------------------------------

  /** The walk of `add` from node `n`: descend through `addChild` for each
      segment, then `setKind` on the last node. */
  function Insert(n: Node, segments: seq<string>, kind: int): Node
    decreases |segments|
  {
    if |segments| == 0 then SetKind(n, kind)
    else
      var child := AddChild(n, segments[0]);
      n.(children := n.children[segments[0] := Insert(child, segments[1..], kind)])
  }

  /** `PathMatcher.add`: a malformed pattern makes `Path.split` throw before
      the trie is touched. */
  function Add(m: Matcher, pattern: string, kind: int): (r: Result<Matcher>)
    ensures r.Ok? <==> PathSyntax.Split(pattern).Ok?
    ensures r.Ok? ==> r.value.variables == m.variables
    ensures r.Ok? ==> MatchSegments(r.value.root, PathSyntax.Split(pattern).value) == Outcome(kind, [])
  {
    var segments :- PathSyntax.Split(pattern);
    InsertThenWalk(m.root, segments, kind, []);
    Ok(m.(root := Insert(m.root, segments, kind)))
  }

  // ---------------------------------------------------------------------------
  // match
  // ---------------------------------------------------------------------------

  /** What `match` computes: the kind it returns and the captures it leaves. */
  datatype Outcome = Outcome(kind: int, captures: seq<string>)

  /** The loop of `match` from node `n`, with the captures so far. */
  function Walk(n: Node, segments: seq<string>, captures: seq<string>): Outcome
    decreases |segments|
  {
    if |segments| == 0 then Outcome(GetKind(n), captures)
    else match GetChild(n, segments[0])
      case Some(next) => Walk(next, segments[1..], captures)
      case None =>
        match GetChild(n, WILDCARD)
        case Some(next) => Walk(next, segments[1..], captures + [segments[0]])
        case None => Outcome(NOT_FOUND, captures)
  }

  /** `match` on a path with these segments; the capture list starts empty. */
  function MatchSegments(root: Node, segments: seq<string>): Outcome {
    Walk(root, segments, [])
  }

  /** `PathMatcher.match(Path)`: returns the kind and the matcher holding the
      new captures. */
  function Match(m: Matcher, t: PathTree.Tree, path: PathTree.NodeId): (r: (Matcher, int))
    requires path in t.nodes
    ensures r.0.root == m.root
    ensures r.0.variables == MatchSegments(m.root, PathTree.SegmentsOf(t, path)).captures
    ensures r.1 == MatchSegments(m.root, PathTree.SegmentsOf(t, path)).kind
  {
    var o := MatchSegments(m.root, PathTree.SegmentsOf(t, path));
    (m.(variables := o.captures), o.kind)
  }

  /** `getVar`: the capture at `index`; a bad index fails as `ArrayList.get`
      does. */
  function GetVar(m: Matcher, index: int): (r: Result<string>)
    ensures r.Ok? <==> 0 <= index < |m.variables|
    ensures r.Ok? ==> r.value == m.variables[index]
    ensures r.Err? ==> r.error == IndexOutOfBounds(index)
  {
    if 0 <= index < |m.variables| then Ok(m.variables[index]) else Err(IndexOutOfBounds(index))
  }

  /** `getIntVar`: the capture at `index` read by `Integer.parseInt`. */
  function GetIntVar(m: Matcher, index: int): (r: Result<int>)
    ensures GetVar(m, index).Err? ==> r == Err(IndexOutOfBounds(index))
    ensures GetVar(m, index).Ok? ==> r == Decimal.ParseInt(m.variables[index])
    ensures r.Ok? <==> (0 <= index < |m.variables| && Decimal.Numeral(m.variables[index]) &&
      Decimal.INT_MIN <= Decimal.SignedValue(m.variables[index]) <= Decimal.INT_MAX)
    ensures r.Ok? ==> r.value == Decimal.SignedValue(m.variables[index])
    ensures 0 <= index < |m.variables| && r.Err? ==> r.error == NumberFormat(m.variables[index])
  {
    var v :- GetVar(m, index);
    Decimal.ParseInt(v)
  }

  /** `getLongVar`: the capture at `index` read by `Long.parseLong`. */
  function GetLongVar(m: Matcher, index: int): (r: Result<int>)
    ensures GetVar(m, index).Err? ==> r == Err(IndexOutOfBounds(index))
    ensures GetVar(m, index).Ok? ==> r == Decimal.ParseLong(m.variables[index])
    ensures r.Ok? <==> (0 <= index < |m.variables| && Decimal.Numeral(m.variables[index]) &&
      Decimal.LONG_MIN <= Decimal.SignedValue(m.variables[index]) <= Decimal.LONG_MAX)
    ensures r.Ok? ==> r.value == Decimal.SignedValue(m.variables[index])
    ensures 0 <= index < |m.variables| && r.Err? ==> r.error == NumberFormat(m.variables[index])
  {
    var v :- GetVar(m, index);
    Decimal.ParseLong(v)
  }

  // ---------------------------------------------------------------------------
  // Facts about add and match
  // ---------------------------------------------------------------------------

  /** After `add(p, k)` the path with `p`'s own segments matches `k` with no
      captures: every step has a literal child, `*` segments included. */
  lemma {:induction false} InsertThenWalk(n: Node, segments: seq<string>, kind: int, captures: seq<string>)
    ensures Walk(Insert(n, segments, kind), segments, captures) == Outcome(kind, captures)
    decreases |segments|
  {
    if |segments| > 0 {
      InsertThenWalk(AddChild(n, segments[0]), segments[1..], kind, captures);
    }
  }

  /** Re-adding a pattern overwrites its kind: the last write wins. */
  lemma AddTwiceLastWins(m: Matcher, pattern: string, k1: int, k2: int)
    requires Add(m, pattern, k1).Ok?
    ensures Add(Add(m, pattern, k1).value, pattern, k2).Ok?
    ensures MatchSegments(Add(Add(m, pattern, k1).value, pattern, k2).value.root,
                          PathSyntax.Split(pattern).value).kind == k2
  {
  }

  /** The node reached from `n` by following exactly these keys. */
  function Resolve(n: Node, keys: seq<string>): Option<Node>
    decreases |keys|
  {
    if |keys| == 0 then Some(n)
    else match GetChild(n, keys[0])
      case Some(c) => Resolve(c, keys[1..])
      case None => None
  }

  /** The kind stored at `keys`, `NOT_FOUND` if there is no such node. */
  function KindAt(n: Node, keys: seq<string>): int {
    match Resolve(n, keys)
    case Some(c) => c.kind
    case None => NOT_FOUND
  }

  predicate IsPrefix(r: seq<string>, s: seq<string>) {
    |r| <= |s| && s[..|r|] == r
  }

  /** Following one more key is one more child lookup. */
  lemma {:induction false} ResolveAppend(n: Node, keys: seq<string>, key: string)
    ensures Resolve(n, keys + [key]) ==
      match Resolve(n, keys)
      case Some(c) => GetChild(c, key)
      case None => None
    decreases |keys|
  {
    if |keys| == 0 {
      assert keys + [key] == [key];
      assert Resolve(n, [key]) == (match GetChild(n, key) case Some(c) => Resolve(c, []) case None => None);
    } else {
      assert (keys + [key])[0] == keys[0];
      assert (keys + [key])[1..] == keys[1..] + [key];
      match GetChild(n, keys[0])
      case Some(c) => ResolveAppend(c, keys[1..], key);
      case None =>
    }
  }

  /** What `add` does to the trie: every prefix of the pattern now exists,
      the pattern itself carries the new kind, the other prefixes keep
      theirs, and every key sequence that is not a prefix of the pattern
      resolves exactly as before. So `add` never duplicates structure and
      never disturbs other patterns. */
  lemma {:induction false} InsertResolve(n: Node, segments: seq<string>, kind: int, keys: seq<string>)
    ensures IsPrefix(keys, segments) ==>
      Resolve(Insert(n, segments, kind), keys).Some?
      && KindAt(Insert(n, segments, kind), keys) == (if keys == segments then kind else KindAt(n, keys))
    ensures !IsPrefix(keys, segments) ==>
      Resolve(Insert(n, segments, kind), keys) == Resolve(n, keys)
    decreases |segments|
  {
    var n' := Insert(n, segments, kind);
    if |segments| == 0 {
      if |keys| > 0 {
        assert GetChild(n', keys[0]) == GetChild(n, keys[0]);
      }
    } else if |keys| == 0 {
    } else {
      var child := AddChild(n, segments[0]);
      var child' := Insert(child, segments[1..], kind);
      if keys[0] == segments[0] {
        assert GetChild(n', keys[0]) == Some(child');
        InsertResolve(child, segments[1..], kind, keys[1..]);
        assert IsPrefix(keys, segments) <==> IsPrefix(keys[1..], segments[1..]) by {
          if IsPrefix(keys[1..], segments[1..]) {
            assert segments[..|keys|] == [segments[0]] + segments[1..][..|keys| - 1];
            assert keys == [keys[0]] + keys[1..];
          }
          if IsPrefix(keys, segments) {
            assert segments[1..][..|keys| - 1] == segments[..|keys|][1..];
          }
        }
        assert keys == segments <==> keys[1..] == segments[1..] by {
          if keys[1..] == segments[1..] {
            assert keys == [keys[0]] + keys[1..];
            assert segments == [segments[0]] + segments[1..];
          }
        }
        if GetChild(n, keys[0]).None? {
          // The fresh child resolves nothing below itself, as nothing did before.
          if !IsPrefix(keys[1..], segments[1..]) {
            EmptyResolvesOnlyItself(keys[1..]);
          } else if keys[1..] != segments[1..] {
            EmptyResolvesOnlyItself(keys[1..]);
          }
        }
      } else {
        assert GetChild(n', keys[0]) == GetChild(n, keys[0]);
        assert !IsPrefix(keys, segments);
      }
    }
  }

  lemma EmptyResolvesOnlyItself(keys: seq<string>)
    ensures |keys| > 0 ==> Resolve(EMPTY_NODE, keys) == None
    ensures KindAt(EMPTY_NODE, keys) == NOT_FOUND
  {
  }

  // ---------------------------------------------------------------------------
  // A reference semantics: matching against the list of added patterns
  // ---------------------------------------------------------------------------

  /** The `add` calls made on a matcher, oldest first: pattern segments and
      kind. */
  type History = seq<(seq<string>, int)>

  /** The trie those calls build from a new matcher. */
  function Build(h: History): Node
    decreases |h|
  {
    if |h| == 0 then EMPTY_NODE
    else Insert(Build(h[..|h| - 1]), h[|h| - 1].0, h[|h| - 1].1)
  }

  /** Some added pattern starts with `keys` (the empty sequence always
      counts: it is the root). */
  ghost predicate Present(h: History, keys: seq<string>) {
    |keys| == 0 || exists i :: 0 <= i < |h| && IsPrefix(keys, h[i].0)
  }

  /** The kind the most recent `add` of exactly `keys` stored. */
  function LastKind(h: History, keys: seq<string>): int
    decreases |h|
  {
    if |h| == 0 then NOT_FOUND
    else if h[|h| - 1].0 == keys then h[|h| - 1].1
    else LastKind(h[..|h| - 1], keys)
  }

  /** Matching stated on the patterns alone: prefer the segment itself, fall
      back to `*` and capture, stop with `NOT_FOUND` when neither continues an
      added pattern; at the end, the kind last added for the route taken. */
  ghost function RefWalk(h: History, route: seq<string>, segments: seq<string>, captures: seq<string>): Outcome
    decreases |segments|
  {
    if |segments| == 0 then Outcome(LastKind(h, route), captures)
    else if Present(h, route + [segments[0]]) then
      RefWalk(h, route + [segments[0]], segments[1..], captures)
    else if Present(h, route + [WILDCARD]) then
      RefWalk(h, route + [WILDCARD], segments[1..], captures + [segments[0]])
    else Outcome(NOT_FOUND, captures)
  }

  /** The trie built by a history has a node exactly at the prefixes of the
      added patterns, and each carries the kind last added for it. */
  lemma {:induction false} BuildResolve(h: History, keys: seq<string>)
    ensures Resolve(Build(h), keys).Some? <==> Present(h, keys)
    ensures KindAt(Build(h), keys) == LastKind(h, keys)
    decreases |h|
  {
    if |h| == 0 {
      EmptyResolvesOnlyItself(keys);
    } else {
      var init := h[..|h| - 1];
      var last := h[|h| - 1];
      BuildResolve(init, keys);
      InsertResolve(Build(init), last.0, last.1, keys);
      PresentSnoc(init, last, keys);
      assert h == init + [last];
    }
  }

  lemma PresentSnoc(init: History, last: (seq<string>, int), keys: seq<string>)
    ensures Present(init + [last], keys) <==> Present(init, keys) || IsPrefix(keys, last.0)
  {
    var h := init + [last];
    if |keys| > 0 {
      if IsPrefix(keys, last.0) {
        assert h[|init|] == last;
      }
      if Present(init, keys) {
        var i :| 0 <= i < |init| && IsPrefix(keys, init[i].0);
        assert h[i] == init[i];
      }
      if Present(h, keys) {
        var i :| 0 <= i < |h| && IsPrefix(keys, h[i].0);
        if i < |init| {
          assert h[i] == init[i];
        }
      }
    }
  }

  /** From any node the built trie reaches by a route, the trie walk and the
      reference walk agree. */
  lemma {:induction false} WalkAgreesWithRefWalk(h: History, route: seq<string>, segments: seq<string>, captures: seq<string>)
    requires Resolve(Build(h), route).Some?
    ensures Walk(Resolve(Build(h), route).value, segments, captures) == RefWalk(h, route, segments, captures)
    decreases |segments|
  {
    var n := Resolve(Build(h), route).value;
    if |segments| == 0 {
      BuildResolve(h, route);
    } else {
      var s := segments[0];
      ResolveAppend(Build(h), route, s);
      BuildResolve(h, route + [s]);
      if GetChild(n, s).Some? {
        WalkAgreesWithRefWalk(h, route + [s], segments[1..], captures);
      } else {
        ResolveAppend(Build(h), route, WILDCARD);
        BuildResolve(h, route + [WILDCARD]);
        if GetChild(n, WILDCARD).Some? {
          WalkAgreesWithRefWalk(h, route + [WILDCARD], segments[1..], captures + [s]);
        }
      }
    }
  }

  /** `match` on a trie built by `add` calls computes the reference
      semantics over those calls. */
  lemma MatchAgreesWithReference(h: History, segments: seq<string>)
    ensures MatchSegments(Build(h), segments) == RefWalk(h, [], segments, [])
  {
    WalkAgreesWithRefWalk(h, [], segments, []);
  }

  // ---------------------------------------------------------------------------
  // Captures
  // ---------------------------------------------------------------------------

  /** How `match` took each step it made. */
  datatype Step = Literal | Wildcard

  /** The steps `match` takes from node `n`, stopping at a dead end. */
  function Steps(n: Node, segments: seq<string>): seq<Step>
    decreases |segments|
  {
    if |segments| == 0 then []
    else match GetChild(n, segments[0])
      case Some(next) => [Literal] + Steps(next, segments[1..])
      case None =>
        match GetChild(n, WILDCARD)
        case Some(next) => [Wildcard] + Steps(next, segments[1..])
        case None => []
  }

  /** The segments at the positions taken through `*`, in order. */
  function Captured(segments: seq<string>, steps: seq<Step>): seq<string>
    requires |steps| <= |segments|
    decreases |steps|
  {
    if |steps| == 0 then []
    else (if steps[0] == Wildcard then [segments[0]] else []) + Captured(segments[1..], steps[1..])
  }

  /** The captures `match` leaves are exactly the segments it took through
      `*`, left to right, including when it stops at a dead end; a walk that
      stops early answers `NOT_FOUND`; and a segment that is literally `*`
      is never captured. */
  lemma {:induction false} WalkCaptures(n: Node, segments: seq<string>, captures: seq<string>)
    ensures var steps := Steps(n, segments);
      && |steps| <= |segments|
      && Walk(n, segments, captures).captures == captures + Captured(segments, steps)
      && (|steps| < |segments| ==> Walk(n, segments, captures).kind == NOT_FOUND)
      && (forall j :: 0 <= j < |steps| && steps[j] == Wildcard ==> segments[j] != WILDCARD)
    decreases |segments|
  {
    if |segments| > 0 {
      var s := segments[0];
      match GetChild(n, s)
      case Some(next) =>
        WalkCaptures(next, segments[1..], captures);
        CapturedShift(segments, Steps(next, segments[1..]), Literal);
      case None =>
        match GetChild(n, WILDCARD)
        case Some(next) =>
          WalkCaptures(next, segments[1..], captures + [s]);
          CapturedShift(segments, Steps(next, segments[1..]), Wildcard);
        case None =>
    }
  }

  lemma CapturedShift(segments: seq<string>, rest: seq<Step>, first: Step)
    requires |segments| > 0 && |rest| <= |segments| - 1
    ensures var steps := [first] + rest;
      && steps[1..] == rest
      && Captured(segments, steps) == (if first == Wildcard then [segments[0]] else []) + Captured(segments[1..], rest)
      && (forall j :: 1 <= j < |steps| ==> steps[j] == rest[j - 1] && segments[j] == segments[1..][j - 1])
  {
    var steps := [first] + rest;
    assert steps[1..] == rest;
  }

  /** `p` starts with `route` and its rest covers `segments`. */
  predicate Continues(p: seq<string>, route: seq<string>, segments: seq<string>) {
    |p| == |route| + |segments| && p[..|route|] == route && Covers(p[|route|..], segments)
  }

  /** One step of the walk, literal or through `*`, moves a segment from the
      path to the route. */
  lemma ContinuesStep(p: seq<string>, route: seq<string>, segments: seq<string>, next: seq<string>)
    requires |segments| > 0
    requires next == route + [segments[0]] || next == route + [WILDCARD]
    requires Continues(p, next, segments[1..])
    ensures Continues(p, route, segments)
  {
    assert p[..|route|] == next[..|route|] == route;
    var rest := p[|route|..];
    forall j | 0 <= j < |segments| ensures rest[j] == segments[j] || rest[j] == WILDCARD {
      if j == 0 {
        assert rest[0] == p[..|next|][|route|] == next[|route|];
      } else {
        assert rest[j] == p[|next|..][j - 1];
        assert segments[j] == segments[1..][j - 1];
      }
    }
  }

  /** A kind other than `NOT_FOUND` is the kind of an added pattern of the
      path's length that agrees with the path at every position, literally
      or through `*`. */
  lemma {:induction false} FoundKindComesFromPattern(h: History, route: seq<string>, segments: seq<string>, captures: seq<string>)
    requires RefWalk(h, route, segments, captures).kind != NOT_FOUND
    ensures exists i :: (0 <= i < |h| && h[i].1 == RefWalk(h, route, segments, captures).kind
      && Continues(h[i].0, route, segments))
    decreases |segments|
  {
    if |segments| == 0 {
      LastKindFound(h, route);
      var i :| 0 <= i < |h| && h[i].0 == route && h[i].1 == LastKind(h, route);
      assert Continues(h[i].0, route, segments);
    } else {
      var s := segments[0];
      var next := if Present(h, route + [s]) then route + [s] else route + [WILDCARD];
      var caps := if Present(h, route + [s]) then captures else captures + [s];
      assert RefWalk(h, route, segments, captures) == RefWalk(h, next, segments[1..], caps);
      FoundKindComesFromPattern(h, next, segments[1..], caps);
      var i :| 0 <= i < |h| && h[i].1 == RefWalk(h, next, segments[1..], caps).kind
        && Continues(h[i].0, next, segments[1..]);
      ContinuesStep(h[i].0, route, segments, next);
    }
  }

  lemma {:induction false} LastKindFound(h: History, keys: seq<string>)
    requires LastKind(h, keys) != NOT_FOUND
    ensures exists i :: 0 <= i < |h| && h[i].0 == keys && h[i].1 == LastKind(h, keys)
    decreases |h|
  {
    if h[|h| - 1].0 != keys {
      LastKindFound(h[..|h| - 1], keys);
      var i :| 0 <= i < |h| - 1 && h[..|h| - 1][i].0 == keys && h[..|h| - 1][i].1 == LastKind(h, keys);
      assert h[i] == h[..|h| - 1][i];
    }
  }

  /** The pattern `p` accounts for the segments `q` position by position,
      literally or through `*`. */
  predicate Covers(p: seq<string>, q: seq<string>) {
    |p| == |q| && forall j :: 0 <= j < |q| ==> p[j] == q[j] || p[j] == WILDCARD
  }

  /** `match` never invents a kind: whatever it answers other than
      `NOT_FOUND` was added with a pattern that covers the path. A path no
      added pattern covers, such as a strict prefix of every pattern,
      answers `NOT_FOUND`. */
  lemma MatchFoundIsCovered(h: History, q: seq<string>)
    ensures MatchSegments(Build(h), q).kind != NOT_FOUND ==>
      exists i :: 0 <= i < |h| && h[i].1 == MatchSegments(Build(h), q).kind && Covers(h[i].0, q)
  {
    MatchAgreesWithReference(h, q);
    if MatchSegments(Build(h), q).kind != NOT_FOUND {
      FoundKindComesFromPattern(h, [], q, []);
      var i :| 0 <= i < |h| && h[i].1 == RefWalk(h, [], q, []).kind && Continues(h[i].0, [], q);
      assert h[i].0[0..] == h[i].0;
    }
  }

  /** With one pattern added, each of its strict prefixes answers
      `NOT_FOUND`. */
  lemma StrictPrefixNotFound(pattern: seq<string>, kind: int, q: seq<string>)
    requires |q| < |pattern|
    ensures MatchSegments(Insert(EMPTY_NODE, pattern, kind), q).kind == NOT_FOUND
  {
    var h: History := [(pattern, kind)];
    assert Build(h) == Insert(EMPTY_NODE, pattern, kind) by {
      assert h[..0] == [];
    }
    MatchFoundIsCovered(h, q);
  }

  /** `match(Path.fromString(p))` after `add(p, k)` answers `k` with no
      captures. */
  lemma AddThenMatchPath(m: Matcher, pattern: string, kind: int, t: PathTree.Tree)
    requires Add(m, pattern, kind).Ok?
    ensures PathTree.FromString(t, pattern).Ok?
    ensures var r := PathTree.FromString(t, pattern).value;
      Match(Add(m, pattern, kind).value, r.0, r.1) == (Add(m, pattern, kind).value.(variables := []), kind)
  {
  }
}
