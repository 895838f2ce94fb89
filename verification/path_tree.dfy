/** The intern table behind `Path`: one canonical node per (parent, segment)
    pair, created on first request by `getChild` and never destroyed, plus the
    one-slot weak binding each node carries (`setObject` / `getObject`).

    The table is a map from node ids to nodes. A node keeps its parent's id,
    its own segment and its children by segment, which is what the Java
    object graph holds. Ids are handed out in creation order, so a parent's id
    is always smaller than its children's; that is what makes walks towards
    the root terminate. Which bound objects are still alive is not known to
    the table: callers pass the set of live objects, standing for the garbage
    collector's view at that moment.
 */
module PathTree {
  import opened Errors
  import PathSyntax
  import Decimal

  type NodeId = nat
  type ObjectId = nat

  const ROOT: NodeId := 0
  /** The segment the Java root is created with (`new Path(null, "ROOT")`). */
  const ROOT_SEGMENT: string := "ROOT"

  datatype PathNode = PathNode(
    parent: Option<NodeId>,
    segment: string,
    children: map<string, NodeId>,
    binding: Option<ObjectId>)

  datatype Store = Store(nodes: map<NodeId, PathNode>, next: NodeId)

  const ROOT_NODE: PathNode := PathNode(None, ROOT_SEGMENT, map[], None)

  /** The node a non-root node points to is its parent, and it files the node
      under the node's own segment. */
  ghost predicate ParentLinked(st: Store, id: NodeId)
    requires id in st.nodes
  {
    var n := st.nodes[id];
    && n.parent.Some?
    && n.parent.value < id
    && n.parent.value in st.nodes
    && n.segment in st.nodes[n.parent.value].children
    && st.nodes[n.parent.value].children[n.segment] == id
  }

  /** A node's child filed under `seg` has this node as parent and `seg` as
      its segment. */
  ghost predicate ChildLinked(st: Store, id: NodeId, seg: string)
    requires id in st.nodes && seg in st.nodes[id].children
  {
    var c := st.nodes[id].children[seg];
    c in st.nodes && st.nodes[c].parent == Some(id) && st.nodes[c].segment == seg
  }

  ghost predicate Valid(st: Store) {
    && ROOT in st.nodes
    && st.nodes[ROOT].parent == None
    && st.nodes[ROOT].segment == ROOT_SEGMENT
    && (forall id :: id in st.nodes ==> id < st.next)
    && (forall id {:trigger ParentLinked(st, id)} :: id in st.nodes && id != ROOT ==> ParentLinked(st, id))
    && (forall id, seg {:trigger ChildLinked(st, id, seg)} :: id in st.nodes && seg in st.nodes[id].children ==> ChildLinked(st, id, seg))
  }

  /** An intern table that keeps the invariants. */
  type Tree = st: Store | Valid(st) witness Store(map[ROOT := ROOT_NODE], 1)

  /** The table at process start: the root alone. */
  function InitialTree(): (t: Tree)
    ensures t.nodes.Keys == {ROOT}
  {
    Store(map[ROOT := ROOT_NODE], 1)
  }

  /** `t'` keeps every node of `t` with the same parent, segment, children and
      binding, possibly adding children and new nodes, which start unbound. */
  ghost predicate Extends(t: Store, t': Store) {
    && t.next <= t'.next
    && (forall id :: id in t.nodes ==> id in t'.nodes && SameNode(t.nodes[id], t'.nodes[id]))
    && (forall id :: id in t'.nodes && id !in t.nodes ==> t'.nodes[id].binding == None)
  }

  ghost predicate SameNode(a: PathNode, b: PathNode) {
    && a.parent == b.parent
    && a.segment == b.segment
    && a.binding == b.binding
    && (forall seg :: seg in a.children ==> seg in b.children && b.children[seg] == a.children[seg])
  }

  lemma ExtendsTransitive(a: Store, b: Store, c: Store)
    requires Extends(a, b) && Extends(b, c)
    ensures Extends(a, c)
  {
  }

  // ---------------------------------------------------------------------------
  // Interning
  // ---------------------------------------------------------------------------

  /** `Path.getChild(String)`: the child already filed under `segment`, or a
      new node filed there. */
  function GetChild(t: Tree, p: NodeId, segment: string): (r: (Tree, NodeId))
    requires p in t.nodes
    ensures p in r.0.nodes && r.1 in r.0.nodes && r.1 != ROOT
    ensures r.0.nodes[r.1].parent == Some(p) && r.0.nodes[r.1].segment == segment
    ensures segment in r.0.nodes[p].children && r.0.nodes[p].children[segment] == r.1
    ensures Extends(t, r.0)
    ensures segment in t.nodes[p].children ==> r.0 == t
    ensures segment !in t.nodes[p].children ==>
      r.1 !in t.nodes && r.0.nodes.Keys == t.nodes.Keys + {r.1} && r.0.nodes[r.1].binding == None
  {
    if segment in t.nodes[p].children then
      assert ChildLinked(t, p, segment);
      (t, t.nodes[p].children[segment])
    else
      AddChildKeepsValid(t, p, segment);
      (AddChild(t, p, segment), t.next)
  }

  /** The table with a new node `t.next` filed under `segment` below `p`. */
  function AddChild(t: Store, p: NodeId, segment: string): Store
    requires p in t.nodes
  {
    var n := t.nodes[p];
    var child := PathNode(Some(p), segment, map[], None);
    Store(t.nodes[p := n.(children := n.children[segment := t.next])][t.next := child], t.next + 1)
  }

  lemma AddChildKeepsValid(t: Tree, p: NodeId, segment: string)
    requires p in t.nodes && segment !in t.nodes[p].children
    ensures var st := AddChild(t, p, segment);
      && Valid(st) && Extends(t, st)
      && st.nodes.Keys == t.nodes.Keys + {t.next}
      && st.nodes[t.next] == PathNode(Some(p), segment, map[], None)
      && st.nodes[p].children == t.nodes[p].children[segment := t.next]
  {
    var st := AddChild(t, p, segment);
    AddChildShape(t, p, segment);
    AddChildParents(t, p, segment, st);
    AddChildChildren(t, p, segment, st);
    AddChildExtends(t, p, segment, st);
  }

  lemma AddChildShape(t: Tree, p: NodeId, segment: string)
    requires p in t.nodes && segment !in t.nodes[p].children
    ensures var st := AddChild(t, p, segment);
      && t.next !in t.nodes
      && st.nodes.Keys == t.nodes.Keys + {t.next}
      && st.nodes[t.next] == PathNode(Some(p), segment, map[], None)
      && (forall id :: id in t.nodes && id != p ==> st.nodes[id] == t.nodes[id])
      && st.nodes[p] == t.nodes[p].(children := t.nodes[p].children[segment := t.next])
  {
    assert t.next !in t.nodes;
  }

  lemma AddChildExtends(t: Tree, p: NodeId, segment: string, st: Store)
    requires p in t.nodes && segment !in t.nodes[p].children && t.next !in t.nodes
    requires st.next == t.next + 1
    requires st.nodes.Keys == t.nodes.Keys + {t.next}
    requires forall id :: id in t.nodes && id != p ==> st.nodes[id] == t.nodes[id]
    requires st.nodes[p] == t.nodes[p].(children := t.nodes[p].children[segment := t.next])
    requires st.nodes[t.next].binding == None
    ensures Extends(t, st)
  {
    forall id | id in t.nodes ensures id in st.nodes && SameNode(t.nodes[id], st.nodes[id]) {
      if id != p {
        assert st.nodes[id] == t.nodes[id];
      }
    }
  }

  lemma AddChildParents(t: Tree, p: NodeId, segment: string, st: Store)
    requires p in t.nodes && segment !in t.nodes[p].children
    requires st == AddChild(t, p, segment) && st.nodes.Keys == t.nodes.Keys + {t.next}
    requires st.nodes[t.next] == PathNode(Some(p), segment, map[], None)
    requires forall id :: id in t.nodes && id != p ==> st.nodes[id] == t.nodes[id]
    requires st.nodes[p] == t.nodes[p].(children := t.nodes[p].children[segment := t.next])
    ensures forall id :: id in st.nodes && id != ROOT ==> ParentLinked(st, id)
  {
    forall id | id in st.nodes && id != ROOT ensures ParentLinked(st, id) {
      if id != t.next {
        assert ParentLinked(t, id);
        var q := t.nodes[id].parent.value;
        if q == p {
          assert t.nodes[id].segment != segment;
        }
      }
    }
  }

  lemma AddChildChildren(t: Tree, p: NodeId, segment: string, st: Store)
    requires p in t.nodes && segment !in t.nodes[p].children
    requires st == AddChild(t, p, segment) && st.nodes.Keys == t.nodes.Keys + {t.next}
    requires st.nodes[t.next] == PathNode(Some(p), segment, map[], None)
    requires forall id :: id in t.nodes && id != p ==> st.nodes[id] == t.nodes[id]
    requires st.nodes[p] == t.nodes[p].(children := t.nodes[p].children[segment := t.next])
    ensures forall id, seg :: id in st.nodes && seg in st.nodes[id].children ==> ChildLinked(st, id, seg)
  {
    forall id, seg | id in st.nodes && seg in st.nodes[id].children ensures ChildLinked(st, id, seg) {
      if id == p && seg == segment {
      } else {
        assert ChildLinked(t, id, seg);
      }
    }
  }

  /** `Path.getChild(int)` and `Path.getChild(long)`: the child filed under the
      number's decimal text. */
  function GetChildNumber(t: Tree, p: NodeId, number: int): (r: (Tree, NodeId))
    requires p in t.nodes
    requires Decimal.LONG_MIN <= number <= Decimal.LONG_MAX
    ensures r.1 in r.0.nodes && r.0.nodes[r.1].parent == Some(p)
    ensures r.0.nodes[r.1].segment == Decimal.IntToString(number)
    ensures Decimal.ParseLong(r.0.nodes[r.1].segment) == Ok(number)
    ensures Extends(t, r.0)
  {
    Decimal.ParseIntegerOfIntToString(number, Decimal.LONG_MIN, Decimal.LONG_MAX);
    GetChild(t, p, Decimal.IntToString(number))
  }

  /** `Path.getParent`: `None` stands for Java's `null` on the root. */
  function GetParent(t: Tree, id: NodeId): (r: Option<NodeId>)
    requires id in t.nodes
    ensures r.None? <==> id == ROOT
    ensures r.Some? ==> r.value in t.nodes && id in t.nodes[r.value].children.Values
  {
    assert id != ROOT ==> ParentLinked(t, id);
    t.nodes[id].parent
  }

  // ---------------------------------------------------------------------------
  // Tree view and string view
  // ---------------------------------------------------------------------------

  /** `Path.split()`: the segments from the root down to the node; the root
      itself contributes none. */
  function SegmentsOf(t: Tree, id: NodeId): (r: seq<string>)
    requires id in t.nodes
    ensures |r| == 0 <==> id == ROOT
    decreases id
  {
    if id == ROOT then []
    else
      assert ParentLinked(t, id);
      SegmentsOf(t, t.nodes[id].parent.value) + [t.nodes[id].segment]
  }

  /** `Path.toString`: `/` before every segment; the root prints as "". */
  function ToString(t: Tree, id: NodeId): (r: string)
    requires id in t.nodes
    ensures |r| == 0 <==> id == ROOT
    ensures id != ROOT ==> r[0] == '/'
  {
    PathSyntax.Join(SegmentsOf(t, id))
  }

  /** A child prints as its parent's text, a `/`, and its own segment. */
  lemma ToStringOfChild(t: Tree, id: NodeId)
    requires id in t.nodes && id != ROOT
    ensures var n := t.nodes[id];
      n.parent.Some? && n.parent.value in t.nodes && ToString(t, id) == ToString(t, n.parent.value) + "/" + n.segment
  {
    assert ParentLinked(t, id);
    var n := t.nodes[id];
    PathSyntax.PrefixedSnoc(SegmentsOf(t, n.parent.value), n.segment, '/');
  }

  /** Folding `getChild` over `segments`, starting at `cur`: the loop of
      `fromString`. */
  function FromSegments(t: Tree, cur: NodeId, segments: seq<string>): (r: (Tree, NodeId))
    requires cur in t.nodes
    ensures r.1 in r.0.nodes
    ensures Extends(t, r.0)
    ensures SegmentsOf(r.0, r.1) == SegmentsOf(t, cur) + segments
    decreases |segments|
  {
    if |segments| == 0 then (t, cur)
    else
      var step := GetChild(t, cur, segments[0]);
      ChildSegments(t, cur, segments[0]);
      var r := FromSegments(step.0, step.1, segments[1..]);
      ExtendsTransitive(t, step.0, r.0);
      SegmentsAppend(SegmentsOf(t, cur), segments);
      r
  }

  lemma SegmentsAppend(a: seq<string>, segments: seq<string>)
    requires |segments| > 0
    ensures (a + [segments[0]]) + segments[1..] == a + segments
  {
  }

  /** The child `getChild` returns has the parent's segments plus its own. */
  lemma ChildSegments(t: Tree, p: NodeId, segment: string)
    requires p in t.nodes
    ensures var r := GetChild(t, p, segment);
      SegmentsOf(r.0, r.1) == SegmentsOf(t, p) + [segment]
  {
    var t1 := GetChild(t, p, segment).0;
    var c := GetChild(t, p, segment).1;
    SegmentsOfExtends(t, t1, p);
    assert SegmentsOf(t1, c) == SegmentsOf(t1, p) + [segment];
  }

  /** A node directly below the root has its own segment as its only one. */
  lemma TopLevelSegments(t: Tree, id: NodeId)
    requires id in t.nodes && t.nodes[id].parent == Some(ROOT)
    ensures SegmentsOf(t, id) == [t.nodes[id].segment]
  {
    assert id != ROOT;
  }

  /** `Path.fromString`: split the literal, then walk from the root. */
  function FromString(t: Tree, s: string): (r: Result<(Tree, NodeId)>)
    ensures r.Ok? <==> PathSyntax.Split(s).Ok?
    ensures r.Err? ==> r.error == PathSyntax.Split(s).error
    ensures r.Ok? ==> r.value.1 in r.value.0.nodes && Extends(t, r.value.0)
    ensures r.Ok? ==> SegmentsOf(r.value.0, r.value.1) == PathSyntax.Split(s).value
  {
    var segments :- PathSyntax.Split(s);
    Ok(FromSegments(t, ROOT, segments))
  }

  /** Adding nodes never changes the segments of an existing node. */
  lemma {:induction false} SegmentsOfExtends(t: Tree, t': Tree, id: NodeId)
    requires id in t.nodes && Extends(t, t')
    ensures SegmentsOf(t', id) == SegmentsOf(t, id)
    decreases id
  {
    if id != ROOT {
      assert ParentLinked(t, id);
      SegmentsOfExtends(t, t', t.nodes[id].parent.value);
    }
  }

  /** A table with the same nodes, parents and segments gives every node the
      same segments, whatever the bindings. */
  lemma {:induction false} SegmentsOfSameShape(t: Tree, t': Tree, id: NodeId)
    requires id in t.nodes && t'.nodes.Keys == t.nodes.Keys
    requires forall k :: k in t.nodes ==>
      t'.nodes[k].parent == t.nodes[k].parent && t'.nodes[k].segment == t.nodes[k].segment
    ensures SegmentsOf(t', id) == SegmentsOf(t, id)
    decreases id
  {
    if id != ROOT {
      assert ParentLinked(t, id);
      SegmentsOfSameShape(t, t', t.nodes[id].parent.value);
    }
  }

  /** The node `getChild` returns is the only node with that parent and that
      segment. */
  lemma ChildUnique(t: Tree, a: NodeId, b: NodeId)
    requires a in t.nodes && b in t.nodes && a != ROOT && b != ROOT
    requires t.nodes[a].parent == t.nodes[b].parent
    requires t.nodes[a].segment == t.nodes[b].segment
    ensures a == b
  {
    assert ParentLinked(t, a);
    assert ParentLinked(t, b);
  }

  /** Canonical identity: two nodes with the same segments from the root are
      the same node. */
  lemma {:induction false} SegmentsOfInjective(t: Tree, a: NodeId, b: NodeId)
    requires a in t.nodes && b in t.nodes
    requires SegmentsOf(t, a) == SegmentsOf(t, b)
    ensures a == b
    decreases a
  {
    if a != ROOT && b != ROOT {
      assert ParentLinked(t, a);
      assert ParentLinked(t, b);
      var pa := t.nodes[a].parent.value;
      var pb := t.nodes[b].parent.value;
      var sa := SegmentsOf(t, a);
      assert SegmentsOf(t, pa) == sa[..|sa| - 1];
      assert SegmentsOf(t, pb) == sa[..|sa| - 1];
      SegmentsOfInjective(t, pa, pb);
      ChildUnique(t, a, b);
    }
  }

  /** `getChild` twice with the same segment returns the same node, and the
      second call changes nothing. */
  lemma GetChildInterned(t: Tree, p: NodeId, segment: string)
    requires p in t.nodes
    ensures var r := GetChild(t, p, segment);
      p in r.0.nodes && GetChild(r.0, p, segment) == r
  {
  }

  lemma {:induction false} FromSegmentsAppend(t: Tree, cur: NodeId, a: seq<string>, b: seq<string>)
    requires cur in t.nodes
    ensures var r := FromSegments(t, cur, a);
      FromSegments(t, cur, a + b) == FromSegments(r.0, r.1, b)
    decreases |a|
  {
    if |a| > 0 {
      var (t1, c) := GetChild(t, cur, a[0]);
      assert (a + b)[0] == a[0];
      assert (a + b)[1..] == a[1..] + b;
      FromSegmentsAppend(t1, c, a[1..], b);
    } else {
      assert a + b == b;
    }
  }

  /** Walking a node's own segments from the root finds that node and creates
      nothing. */
  lemma {:induction false} FromSegmentsOfNode(t: Tree, id: NodeId)
    requires id in t.nodes
    ensures FromSegments(t, ROOT, SegmentsOf(t, id)) == (t, id)
    decreases id
  {
    if id != ROOT {
      assert ParentLinked(t, id);
      var p := t.nodes[id].parent.value;
      var seg := t.nodes[id].segment;
      FromSegmentsOfNode(t, p);
      FromSegmentsAppend(t, ROOT, SegmentsOf(t, p), [seg]);
      assert GetChild(t, p, seg) == (t, id);
    }
  }

  /** `toString(fromString(s))` is `s` less one trailing `/`; so it is `s`
      itself for a canonical literal (empty, or not ending in `/`). */
  lemma FromStringThenToString(t: Tree, s: string)
    requires FromString(t, s).Ok?
    ensures var r := FromString(t, s).value;
      ToString(r.0, r.1) == PathSyntax.DropTrailing(s, '/')
    ensures |s| == 0 || s[|s| - 1] != '/' ==>
      var r := FromString(t, s).value; ToString(r.0, r.1) == s
  {
    PathSyntax.SplitThenJoin(s);
  }

  /** `fromString(toString(p))` is `p` again, with the table unchanged, when
      every segment of `p` is one `split` can produce and the last is not
      empty. */
  lemma ToStringThenFromString(t: Tree, id: NodeId)
    requires id in t.nodes
    requires var segs := SegmentsOf(t, id);
      (forall k :: 0 <= k < |segs| ==> PathSyntax.ValidPart(segs[k], '/'))
      && (|segs| == 0 || |segs[|segs| - 1]| > 0)
    ensures FromString(t, ToString(t, id)) == Ok((t, id))
  {
    PathSyntax.JoinThenSplit(SegmentsOf(t, id));
    FromSegmentsOfNode(t, id);
  }

  // ---------------------------------------------------------------------------
  // Prefix and suffix
  // ---------------------------------------------------------------------------

  /** The loop of `getPrefixPath`: climb while the parent is not the root. */
  function PrefixWalk(t: Tree, id: NodeId): (r: NodeId)
    requires id in t.nodes && id != ROOT
    ensures r in t.nodes && t.nodes[r].parent == Some(ROOT)
    ensures SegmentsOf(t, r) == SegmentsOf(t, id)[..1]
    decreases id
  {
    assert ParentLinked(t, id);
    var p := t.nodes[id].parent.value;
    if p == ROOT then id
    else
      var r := PrefixWalk(t, p);
      assert SegmentsOf(t, id)[..1] == SegmentsOf(t, p)[..1];
      r
  }

  /** `Path.getPrefixPath`: the node one level below the root on the way to
      `id`; on the root it throws `IllegalStateException`. */
  function GetPrefixPath(t: Tree, id: NodeId): (r: Result<NodeId>)
    requires id in t.nodes
    ensures r.Err? <==> id == ROOT
    ensures r.Err? ==> r.error == IllegalState
    ensures r.Ok? ==> r.value in t.nodes && t.nodes[r.value].parent == Some(ROOT)
    ensures r.Ok? ==> AncestorOrSelf(t, r.value, id)
    ensures r.Ok? ==> SegmentsOf(t, r.value) == [SegmentsOf(t, id)[0]]
  {
    if id == ROOT then Err(IllegalState)
    else
      PrefixWalkIsAncestor(t, id);
      Ok(PrefixWalk(t, id))
  }

  /** `a` is `d` or one of its ancestors. */
  ghost predicate AncestorOrSelf(t: Tree, a: NodeId, d: NodeId)
    requires d in t.nodes
    decreases d
  {
    a == d || (d != ROOT && ParentLinked(t, d) && AncestorOrSelf(t, a, t.nodes[d].parent.value))
  }

  lemma {:induction false} PrefixWalkIsAncestor(t: Tree, id: NodeId)
    requires id in t.nodes && id != ROOT
    ensures AncestorOrSelf(t, PrefixWalk(t, id), id)
    decreases id
  {
    assert ParentLinked(t, id);
    var p := t.nodes[id].parent.value;
    if p != ROOT {
      PrefixWalkIsAncestor(t, p);
    }
  }

  /** An ancestor's segments are a prefix of the descendant's. */
  lemma {:induction false} AncestorSegmentsPrefix(t: Tree, a: NodeId, d: NodeId)
    requires a in t.nodes && d in t.nodes && AncestorOrSelf(t, a, d)
    ensures |SegmentsOf(t, a)| <= |SegmentsOf(t, d)|
    ensures SegmentsOf(t, d)[..|SegmentsOf(t, a)|] == SegmentsOf(t, a)
    decreases d
  {
    if a != d {
      var p := t.nodes[d].parent.value;
      AncestorSegmentsPrefix(t, a, p);
      var sd := SegmentsOf(t, d);
      assert sd[..|SegmentsOf(t, p)|] == SegmentsOf(t, p);
    }
  }

  /** The prefix path is the only ancestor-or-self of `id` directly below the
      root. */
  lemma PrefixPathUnique(t: Tree, id: NodeId, a: NodeId)
    requires id in t.nodes && id != ROOT && a in t.nodes
    requires AncestorOrSelf(t, a, id) && t.nodes[a].parent == Some(ROOT)
    ensures GetPrefixPath(t, id) == Ok(a)
  {
    AncestorSegmentsPrefix(t, a, id);
    TopLevelSegments(t, a);
    var r := GetPrefixPath(t, id).value;
    assert SegmentsOf(t, a) == SegmentsOf(t, id)[..1];
    SegmentsOfInjective(t, a, r);
  }

  /** `Path.getPrefix`: the provider name, "" for the root. */
  function GetPrefix(t: Tree, id: NodeId): (r: string)
    requires id in t.nodes
    ensures r == if id == ROOT then "" else SegmentsOf(t, id)[0]
  {
    if id == ROOT then ""
    else
      var p := GetPrefixPath(t, id).value;
      TopLevelSegments(t, p);
      t.nodes[p].segment
  }

  /** `Path.getSuffix`: the node's own segment (the root's is "ROOT"). */
  function GetSuffix(t: Tree, id: NodeId): (r: string)
    requires id in t.nodes
    ensures id == ROOT ==> r == ROOT_SEGMENT
    ensures id != ROOT ==> r == SegmentsOf(t, id)[|SegmentsOf(t, id)| - 1]
  {
    t.nodes[id].segment
  }

  // ---------------------------------------------------------------------------
  // Weak binding
  // ---------------------------------------------------------------------------

  /** `Path.getObject`: the bound object while it is alive, `None` (Java's
      `null`) when nothing was bound or the object has been reclaimed. An id
      that names no node has nothing bound. */
  function GetObject(t: Store, id: NodeId, live: set<ObjectId>): (r: Option<ObjectId>)
    ensures r.Some? <==> id in t.nodes && t.nodes[id].binding.Some? && t.nodes[id].binding.value in live
    ensures r.Some? ==> t.nodes[id].binding == r
  {
    if id !in t.nodes then None
    else match t.nodes[id].binding
      case Some(o) => if o in live then Some(o) else None
      case None => None
  }

  /** The table with one node's binding replaced; the shape is untouched. */
  function Rebind(t: Tree, id: NodeId, o: ObjectId): (r: Tree)
    requires id in t.nodes
    ensures r.nodes.Keys == t.nodes.Keys && r.next == t.next
    ensures r.nodes[id] == t.nodes[id].(binding := Some(o))
    ensures forall k :: k in t.nodes && k != id ==> r.nodes[k] == t.nodes[k]
  {
    var st := Store(t.nodes[id := t.nodes[id].(binding := Some(o))], t.next);
    assert Valid(st) by {
      forall k | k in st.nodes && k != ROOT ensures ParentLinked(st, k) {
        assert ParentLinked(t, k);
      }
      forall k, seg | k in st.nodes && seg in st.nodes[k].children ensures ChildLinked(st, k, seg) {
        assert ChildLinked(t, k, seg);
      }
    }
    st
  }

  /** `Path.setObject`: installing over an object that is still alive fails
      the assertion; otherwise the slot now refers to `o`. */
  function SetObject(t: Tree, id: NodeId, o: ObjectId, live: set<ObjectId>): (r: Result<Tree>)
    requires id in t.nodes
    ensures r.Err? <==> GetObject(t, id, live).Some?
    ensures r.Err? ==> r.error == AssertionFailed
    ensures r.Ok? ==> r.value.nodes.Keys == t.nodes.Keys && r.value.next == t.next
    ensures r.Ok? ==> r.value.nodes[id].binding == Some(o)
    ensures r.Ok? ==> forall k :: k in t.nodes ==>
      r.value.nodes[k].parent == t.nodes[k].parent
      && r.value.nodes[k].segment == t.nodes[k].segment
      && r.value.nodes[k].children == t.nodes[k].children
    ensures r.Ok? ==> forall k :: k in t.nodes && k != id ==> r.value.nodes[k] == t.nodes[k]
  {
    if GetObject(t, id, live).Some? then Err(AssertionFailed)
    else Ok(Rebind(t, id, o))
  }

  /** After a successful `setObject(o)`, `getObject` answers `o` exactly as
      long as `o` stays alive, whatever the collector does meanwhile. */
  lemma SetThenGetObject(t: Tree, id: NodeId, o: ObjectId, live: set<ObjectId>, later: set<ObjectId>)
    requires id in t.nodes && SetObject(t, id, o, live).Ok?
    ensures GetObject(SetObject(t, id, o, live).value, id, later) == if o in later then Some(o) else None
  {
  }

  /** Once the bound object has been reclaimed, a new object can be
      installed on the same node. */
  lemma RebindAfterReclaim(t: Tree, id: NodeId, o: ObjectId, o2: ObjectId, live: set<ObjectId>)
    requires id in t.nodes && SetObject(t, id, o, live).Ok?
    ensures SetObject(SetObject(t, id, o, live).value, id, o2, live - {o}).Ok?
    ensures o in live ==> SetObject(SetObject(t, id, o, live).value, id, o2, live).Err?
  {
  }

  // ---------------------------------------------------------------------------
  // Case-insensitive comparison
  // ---------------------------------------------------------------------------

  function ToUpper(c: char): char {
    if 'a' <= c <= 'z' then (c as int - 32) as char else c
  }

  function ToLower(c: char): char {
    if 'A' <= c <= 'Z' then (c as int + 32) as char else c
  }

  /** The per-character test of `String.equalsIgnoreCase`. */
  predicate CharsEqualIgnoringCase(a: char, b: char) {
    a == b || ToUpper(a) == ToUpper(b) || ToLower(ToUpper(a)) == ToLower(ToUpper(b))
  }

  /** `String.equalsIgnoreCase`: same length and every character pair equal
      ignoring case. */
  function EqualsIgnoringCase(a: string, b: string): (r: bool)
    ensures r <==> |a| == |b| && forall k :: 0 <= k < |a| ==> ToLower(a[k]) == ToLower(b[k])
  {
    if |a| != |b| then false
    else if |a| == 0 then true
    else
      assert forall k :: 0 < k < |a| ==> a[k] == a[1..][k - 1] && b[k] == b[1..][k - 1];
      CharsEqualIgnoringCase(a[0], b[0]) && EqualsIgnoringCase(a[1..], b[1..])
  }

  /** `Path.equalsIgnoreCase`. */
  function PathEqualsIgnoreCase(t: Tree, id: NodeId, p: string): (r: bool)
    requires id in t.nodes
    ensures var s := ToString(t, id);
      r <==> |s| == |p| && forall k :: 0 <= k < |s| ==> ToLower(s[k]) == ToLower(p[k])
  {
    EqualsIgnoringCase(ToString(t, id), p)
  }

  /** A path matches its own literal and the same literal in other case. */
  lemma PathEqualsIgnoreCaseOwnString(t: Tree, id: NodeId, p: string)
    requires id in t.nodes
    requires |p| == |ToString(t, id)|
    requires forall k :: 0 <= k < |p| ==> p[k] == ToUpper(ToString(t, id)[k])
    ensures PathEqualsIgnoreCase(t, id, p)
    ensures PathEqualsIgnoreCase(t, id, ToString(t, id))
  {
    var s := ToString(t, id);
    forall k | 0 <= k < |p| ensures ToLower(s[k]) == ToLower(p[k]) {
      LowerOfUpper(s[k]);
    }
  }

  lemma LowerOfUpper(c: char)
    ensures ToLower(ToUpper(c)) == ToLower(c)
  {
  }
}
