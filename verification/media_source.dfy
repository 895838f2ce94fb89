/** `MediaSource`: the prefix a source is registered under, its default
    answers, and the default `mapMediaItems`, which resolves a batch of
    paths to objects one by one.

    The loop is stated for any world type `W`. `Path.getObject` is the
    parameter `lookup`; `createMediaObject`, abstract in the source, is the
    parameter `create`, a function from the world and a path to the world
    afterwards and either the new object or the exception it threw. The
    `(MediaItem)` cast is the parameter `isItem`. The consumer is the list
    of `consume` calls the loop makes.
 */
module MediaSources {
  import opened Errors
  import PathTree

  /** `MediaSource.PathId`: a path and the caller's id for it. */
  datatype PathId = PathId(path: PathTree.NodeId, id: int)

  /** A source: what the base class stores is its prefix. */
  datatype MediaSource = MediaSource(prefix: string)

  function GetPrefix(s: MediaSource): (r: string)
    ensures r == s.prefix
  {
    s.prefix
  }

  /** The base-class answers every source inherits unless it overrides
      them: no path for a URI, no default set, empty caches. */
  function FindPathByUri(s: MediaSource, uri: string, mediaType: string): (r: Option<PathTree.NodeId>)
    ensures r.None?
  {
    None
  }

  function GetDefaultSetOf(s: MediaSource, item: PathTree.NodeId): (r: Option<PathTree.NodeId>)
    ensures r.None?
  {
    None
  }

  function GetTotalUsedCacheSize(s: MediaSource): (r: int)
    ensures r == 0
  {
    0
  }

  function GetTotalTargetCacheSize(s: MediaSource): (r: int)
    ensures r == 0
  {
    0
  }

  /** A source built with a prefix reports that prefix, and it answers the
      defaults whatever it is asked. */
  lemma SourceDefaults(prefix: string, uri: string, mediaType: string, item: PathTree.NodeId)
    ensures GetPrefix(MediaSource(prefix)) == prefix
    ensures FindPathByUri(MediaSource(prefix), uri, mediaType) == None
    ensures GetDefaultSetOf(MediaSource(prefix), item) == None
    ensures GetTotalUsedCacheSize(MediaSource(prefix)) == 0 && GetTotalTargetCacheSize(MediaSource(prefix)) == 0
  {
  }

  /** What one `createMediaObject` call leaves behind. */
  datatype Created<W> = Created(world: W, result: Result<PathTree.ObjectId>)

  type Factory<!W> = (W, PathTree.NodeId) -> Created<W>

  /** `Path.getObject` in a world: the live object bound to a path. */
  type Lookup<-W> = (W, PathTree.NodeId) -> Option<PathTree.ObjectId>

  /** One iteration of the loop, under the lock: the live object the path
      already holds, or else whatever `createMediaObject` makes of it, with
      a thrown exception becoming `None`. */
  function ResolveOne<W>(w: W, pid: PathId, lookup: Lookup<W>, create: Factory<W>): (r: (W, Option<PathTree.ObjectId>))
    ensures lookup(w, pid.path).Some? ==> r == (w, lookup(w, pid.path))
    ensures lookup(w, pid.path).None? ==>
      var c := create(w, pid.path);
      r == (c.world, if c.result.Ok? then Some(c.result.value) else None)
  {
    match lookup(w, pid.path)
    case Some(o) => (w, Some(o))
    case None =>
      var c := create(w, pid.path);
      match c.result
      case Ok(o) => (c.world, Some(o))
      case Err(_) => (c.world, None)
  }

  /** A path with a live object does not reach the factory: the step is the
      same whatever factory is given. */
  lemma ReuseIgnoresFactory<W>(w: W, pid: PathId, lookup: Lookup<W>, f: Factory<W>, g: Factory<W>)
    requires lookup(w, pid.path).Some?
    ensures ResolveOne(w, pid, lookup, f) == ResolveOne(w, pid, lookup, g)
    ensures ResolveOne(w, pid, lookup, f).0 == w
  {
  }

  /** The whole loop as a recursion: the final world and, per item, the
      object it resolved to or `None` when construction threw. */
  datatype Batch<W> = Batch(world: W, outcomes: seq<Option<PathTree.ObjectId>>)

  function Run<W>(w: W, items: seq<PathId>, lookup: Lookup<W>, create: Factory<W>): (r: Batch<W>)
    ensures |r.outcomes| == |items|
    decreases |items|
  {
    if |items| == 0 then Batch(w, [])
    else
      var first := ResolveOne(w, items[0], lookup, create);
      var rest := Run(first.0, items[1..], lookup, create);
      Batch(rest.world, [first.1] + rest.outcomes)
  }

  /** One `consume(id, item)` call. */
  datatype Consume = Consume(id: int, obj: PathTree.ObjectId)

  /** The `consume` calls made for these items and outcomes, in order: one
      for each item that resolved. */
  function Consumed(items: seq<PathId>, outcomes: seq<Option<PathTree.ObjectId>>): seq<Consume>
    requires |items| == |outcomes|
    decreases |items|
  {
    if |items| == 0 then []
    else
      var n := |items| - 1;
      Consumed(items[..n], outcomes[..n])
        + (if outcomes[n].Some? then [Consume(items[n].id, outcomes[n].value)] else [])
  }

  /** The positions whose outcome is an object, in increasing order. */
  function Resolved(outcomes: seq<Option<PathTree.ObjectId>>): seq<nat>
    decreases |outcomes|
  {
    if |outcomes| == 0 then []
    else
      var n := |outcomes| - 1;
      Resolved(outcomes[..n]) + (if outcomes[n].Some? then [n] else [])
  }

  /** The `(MediaItem)` cast: whether an object, in the world the loop has
      reached, is a `MediaItem`. */
  type IsItem<-W> = (W, PathTree.ObjectId) -> bool

  /** Item `n` resolved to an object that is not a `MediaItem`, so the cast
      before its `consume` call throws `ClassCastException`. */
  predicate BadCast<W>(w: W, items: seq<PathId>, lookup: Lookup<W>, create: Factory<W>, isItem: IsItem<W>, n: nat)
    requires n < |items|
  {
    var b := Run(w, items[..n + 1], lookup, create);
    b.outcomes[n].Some? && !isItem(b.world, b.outcomes[n].value)
  }

  /** The first `k` items all pass the cast. */
  predicate CastsPass<W>(w: W, items: seq<PathId>, lookup: Lookup<W>, create: Factory<W>, isItem: IsItem<W>, k: nat)
    requires k <= |items|
  {
    k == 0 || (CastsPass(w, items, lookup, create, isItem, k - 1) && !BadCast(w, items, lookup, create, isItem, k - 1))
  }

  /** `CastsPass` says what it should: no item before `k` fails the cast. */
  lemma {:induction false} CastsPassIff<W>(w: W, items: seq<PathId>, lookup: Lookup<W>, create: Factory<W>, isItem: IsItem<W>, k: nat)
    requires k <= |items|
    ensures CastsPass(w, items, lookup, create, isItem, k) <==>
      forall n :: 0 <= n < k ==> !BadCast(w, items, lookup, create, isItem, n)
  {
    if k > 0 {
      CastsPassIff(w, items, lookup, create, isItem, k - 1);
    }
  }

  /** `mapMediaItems`: the loop over the list, making the `consume` calls as
      it goes. The cast sits outside the `try`, so the first resolved object
      that is not a `MediaItem` ends the whole call: `thrownAt` is that
      item's position, the world is the one its step left, and the calls are
      those of the items before it. */
  method MapMediaItems<W>(w: W, items: seq<PathId>, lookup: Lookup<W>, create: Factory<W>, isItem: IsItem<W>)
    returns (w': W, calls: seq<Consume>, thrownAt: Option<nat>)
    ensures thrownAt.None? ==>
      && CastsPass(w, items, lookup, create, isItem, |items|)
      && w' == Run(w, items, lookup, create).world
      && calls == Consumed(items, Run(w, items, lookup, create).outcomes)
    ensures thrownAt.Some? ==> var k := thrownAt.value;
      && k < |items| && BadCast(w, items, lookup, create, isItem, k)
      && CastsPass(w, items, lookup, create, isItem, k)
      && w' == WorldBefore(w, items, lookup, create, k + 1)
      && calls == Consumed(items[..k], Run(w, items[..k], lookup, create).outcomes)
  {
    var cur := w;
    var outs: seq<Option<PathTree.ObjectId>> := [];
    calls := [];
    var i := 0;
    while i < |items|
      invariant 0 <= i <= |items|
      invariant Run(w, items[..i], lookup, create) == Batch(cur, outs)
      invariant calls == Consumed(items[..i], outs)
      invariant CastsPass(w, items, lookup, create, isItem, i)
    {
      var step := ResolveOne(cur, items[i], lookup, create);
      var next, out := step.0, step.1;
      LoopStep(w, items, lookup, create, i, cur, outs);
      if out.Some? {
        if !isItem(next, out.value) {
          assert BadCast(w, items, lookup, create, isItem, i);
          w', thrownAt := next, Some(i);
          return;
        }
        calls := calls + [Consume(items[i].id, out.value)];
      }
      assert !BadCast(w, items, lookup, create, isItem, i);
      assert CastsPass(w, items, lookup, create, isItem, i + 1);
      outs := outs + [out];
      cur := next;
      i := i + 1;
    }
    assert items[..i] == items;
    w', thrownAt := cur, None;
  }

  // ---------------------------------------------------------------------------
  // What the batch promises
  // ---------------------------------------------------------------------------

  /** The `consume` calls are exactly the resolved items, in input order,
      each with the item's own id and the object it resolved to; so there is
      at most one call per item and as many calls as items that did not
      fail. */
  lemma {:induction false} ConsumedAreResolved(items: seq<PathId>, outcomes: seq<Option<PathTree.ObjectId>>)
    requires |items| == |outcomes|
    ensures var calls := Consumed(items, outcomes); var idx := Resolved(outcomes);
      && |calls| == |idx|
      && (forall j :: 0 <= j < |idx| ==> (idx[j] < |items| && outcomes[idx[j]].Some?
            && calls[j] == Consume(items[idx[j]].id, outcomes[idx[j]].value)))
      && (forall j, k :: 0 <= j < k < |idx| ==> idx[j] < idx[k])
      && (forall n :: 0 <= n < |outcomes| && outcomes[n].Some? ==> n in idx)
    decreases |items|
  {
    if |items| > 0 {
      var n := |items| - 1;
      ConsumedAreResolved(items[..n], outcomes[..n]);
      var idx0 := Resolved(outcomes[..n]);
      forall m | 0 <= m < n && outcomes[m].Some? ensures m in idx0 {
        assert outcomes[..n][m] == outcomes[m];
      }
    }
  }

  /** The item at position `n` is consumed exactly when it resolved: then
      one `consume` call, made for position `n`, carries its id and object;
      otherwise no call is made for that position. */
  lemma ConsumedIff(items: seq<PathId>, outcomes: seq<Option<PathTree.ObjectId>>, n: nat)
    requires |items| == |outcomes| && n < |items|
    ensures var calls := Consumed(items, outcomes); var idx := Resolved(outcomes);
      outcomes[n].Some? ==>
        exists j :: 0 <= j < |calls| && j < |idx| && idx[j] == n && calls[j] == Consume(items[n].id, outcomes[n].value)
    ensures var calls := Consumed(items, outcomes); var idx := Resolved(outcomes);
      outcomes[n].None? ==> forall j :: 0 <= j < |calls| && j < |idx| ==> idx[j] != n
  {
    ConsumedAreResolved(items, outcomes);
    var calls := Consumed(items, outcomes);
    var idx := Resolved(outcomes);
    if outcomes[n].Some? {
      var j :| 0 <= j < |idx| && idx[j] == n;
      assert calls[j] == Consume(items[n].id, outcomes[n].value);
    }
  }

  /** Item `n` of a run sees the world the first `n` items left behind. */
  function WorldBefore<W>(w: W, items: seq<PathId>, lookup: Lookup<W>, create: Factory<W>, n: nat): W
    requires n <= |items|
  {
    Run(w, items[..n], lookup, create).world
  }

  /** A run splits at any point: the later items start from the world the
      earlier ones left. */
  lemma {:induction false} RunAppend<W>(w: W, a: seq<PathId>, b: seq<PathId>, lookup: Lookup<W>, create: Factory<W>)
    ensures Run(w, a + b, lookup, create) ==
      Batch(Run(Run(w, a, lookup, create).world, b, lookup, create).world,
            Run(w, a, lookup, create).outcomes + Run(Run(w, a, lookup, create).world, b, lookup, create).outcomes)
    decreases |a|
  {
    if |a| > 0 {
      assert (a + b)[0] == a[0] && (a + b)[1..] == a[1..] + b;
      RunAppend(ResolveOne(w, a[0], lookup, create).0, a[1..], b, lookup, create);
    } else {
      assert a + b == b;
    }
  }

  /** One more item is one more step from the world the others left. */
  lemma RunSnoc<W>(w: W, a: seq<PathId>, x: PathId, lookup: Lookup<W>, create: Factory<W>)
    ensures var before := Run(w, a, lookup, create);
      var step := ResolveOne(before.world, x, lookup, create);
      Run(w, a + [x], lookup, create) == Batch(step.0, before.outcomes + [step.1])
  {
    RunAppend(w, a, [x], lookup, create);
    var before := Run(w, a, lookup, create);
    var step := ResolveOne(before.world, x, lookup, create);
    assert Run(step.0, [], lookup, create) == Batch(step.0, []);
    assert [x][1..] == [];
  }

  /** The outcome of item `n` is the step `ResolveOne` takes from the world
      the items before it left: a live object is reused, otherwise the
      factory decides, and a failure only loses that item. */
  lemma RunStep<W>(w: W, items: seq<PathId>, lookup: Lookup<W>, create: Factory<W>, n: nat)
    requires n < |items|
    ensures Run(w, items, lookup, create).outcomes[n] == ResolveOne(WorldBefore(w, items, lookup, create, n), items[n], lookup, create).1
    ensures Run(w, items[..n + 1], lookup, create).world == ResolveOne(WorldBefore(w, items, lookup, create, n), items[n], lookup, create).0
  {
    RunThrough(w, items, n, lookup, create);
    RunPrefix(w, items, n + 1, lookup, create);
    var all := Run(w, items, lookup, create).outcomes;
    assert all[n] == all[..n + 1][n];
  }

  /** One turn of the loop: the run and the calls grow by the step taken
      from the world the earlier items left. */
  lemma LoopStep<W>(w: W, items: seq<PathId>, lookup: Lookup<W>, create: Factory<W>, i: nat, cur: W, outs: seq<Option<PathTree.ObjectId>>)
    requires i < |items| && Run(w, items[..i], lookup, create) == Batch(cur, outs)
    ensures var step := ResolveOne(cur, items[i], lookup, create);
      && Run(w, items[..i + 1], lookup, create) == Batch(step.0, outs + [step.1])
      && Consumed(items[..i + 1], outs + [step.1]) ==
           Consumed(items[..i], outs) + (if step.1.Some? then [Consume(items[i].id, step.1.value)] else [])
  {
    var step := ResolveOne(cur, items[i], lookup, create);
    RunSnoc(w, items[..i], items[i], lookup, create);
    assert items[..i] + [items[i]] == items[..i + 1];
    assert items[..i + 1][..i] == items[..i] && (outs + [step.1])[..i] == outs;
  }

  /** The cast of item `n` fails exactly when the step from the world before
      it yields an object that is not a `MediaItem` in the world after it. */
  lemma BadCastStep<W>(w: W, items: seq<PathId>, lookup: Lookup<W>, create: Factory<W>, isItem: IsItem<W>, n: nat)
    requires n < |items|
    ensures var step := ResolveOne(WorldBefore(w, items, lookup, create, n), items[n], lookup, create);
      && Run(w, items, lookup, create).outcomes[n] == step.1
      && (BadCast(w, items, lookup, create, isItem, n) <==> step.1.Some? && !isItem(step.0, step.1.value))
  {
    RunThrough(w, items, n, lookup, create);
    RunPrefix(w, items, n + 1, lookup, create);
    var all := Run(w, items, lookup, create).outcomes;
    assert all[n] == all[..n + 1][n];
  }

  /** The run of the first `n + 1` items is the run of the first `n` and
      then one step. */
  lemma RunThrough<W>(w: W, items: seq<PathId>, n: nat, lookup: Lookup<W>, create: Factory<W>)
    requires n < |items|
    ensures var step := ResolveOne(WorldBefore(w, items, lookup, create, n), items[n], lookup, create);
      && Run(w, items[..n + 1], lookup, create).world == step.0
      && Run(w, items[..n + 1], lookup, create).outcomes[n] == step.1
  {
    RunSnoc(w, items[..n], items[n], lookup, create);
    assert items[..n] + [items[n]] == items[..n + 1];
  }

  /** The outcomes of a run begin with the outcomes of any prefix of it. */
  lemma RunPrefix<W>(w: W, items: seq<PathId>, m: nat, lookup: Lookup<W>, create: Factory<W>)
    requires m <= |items|
    ensures Run(w, items, lookup, create).outcomes[..m] == Run(w, items[..m], lookup, create).outcomes
  {
    RunAppend(w, items[..m], items[m..], lookup, create);
    assert items[..m] + items[m..] == items;
  }

  /** Items whose paths already hold live objects resolve to those
      objects, in order, and the world is left as it was. */
  lemma {:induction false} AllLiveReused<W>(w: W, items: seq<PathId>, lookup: Lookup<W>, create: Factory<W>)
    requires forall k :: 0 <= k < |items| ==> lookup(w, items[k].path).Some?
    ensures Run(w, items, lookup, create).world == w
    ensures forall k :: 0 <= k < |items| ==> Run(w, items, lookup, create).outcomes[k] == lookup(w, items[k].path)
    decreases |items|
  {
    if |items| > 0 {
      assert forall k :: 0 <= k < |items| - 1 ==> items[1..][k] == items[k + 1];
      AllLiveReused(w, items[1..], lookup, create);
    }
  }

  /** With a factory that always throws, the world is left as it was and
      every item resolves to its path's live object, if it has one: no item
      gets an object from the factory, and the loop still visits them all. */
  lemma {:induction false} FailingFactoryConsumesOnlyLive<W>(w: W, items: seq<PathId>, lookup: Lookup<W>, create: Factory<W>)
    requires forall v: W, p :: create(v, p).world == v && create(v, p).result.Err?
    ensures Run(w, items, lookup, create).world == w
    ensures forall k :: 0 <= k < |items| ==> Run(w, items, lookup, create).outcomes[k] == lookup(w, items[k].path)
    decreases |items|
  {
    if |items| > 0 {
      assert forall k :: 0 <= k < |items| - 1 ==> items[1..][k] == items[k + 1];
      FailingFactoryConsumesOnlyLive(w, items[1..], lookup, create);
    }
  }
}
