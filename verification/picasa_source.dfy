/** `PicasaSource`: a source under the prefix "picasa" whose matcher knows
    three album-set paths, all of one kind. `createMediaObject` builds an
    empty album set for those three and rejects every other path. */
module Picasa {
  import opened Errors
  import PathSyntax
  import PathTree
  import PathMatcher
  import MediaObjects
  import MediaSources

  type World = MediaObjects.World

  const PREFIX: string := "picasa"
  const NO_MATCH: int := -1
  const IMAGE_MEDIA_ID: int := 1
  const PICASA_ALBUMSET: int := 0
  const MAP_BATCH_COUNT: int := 100

  /** The patterns "/picasa/all", "/picasa/image" and "/picasa/video". */
  const PATTERN_DIR: string := "/picasa/"
  const ALL_PATTERN: string := PATTERN_DIR + "all"
  const IMAGE_PATTERN: string := PATTERN_DIR + "image"
  const VIDEO_PATTERN: string := PATTERN_DIR + "video"

  /** The segments of the three album-set paths. */
  predicate IsAlbumSetPath(segments: seq<string>) {
    segments == ["picasa", "all"] || segments == ["picasa", "image"] || segments == ["picasa", "video"]
  }

  /** The trie the constructor's three `add` calls build. */
  const LEAF: PathMatcher.Node := PathMatcher.Node(PICASA_ALBUMSET, map[])
  const PICASA_TRIE: PathMatcher.Node :=
    PathMatcher.Node(PathMatcher.NOT_FOUND, map[
      "picasa" := PathMatcher.Node(PathMatcher.NOT_FOUND, map["all" := LEAF, "image" := LEAF, "video" := LEAF])])

  datatype PicasaSource = PicasaSource(source: MediaSources.MediaSource, matcher: PathMatcher.Matcher)

  /** The matcher is private and only the constructor adds to it. */
  type Source = p: PicasaSource | p.matcher.root == PICASA_TRIE
    witness PicasaSource(MediaSources.MediaSource(PREFIX), PathMatcher.Matcher(PICASA_TRIE, []))

  /** "/picasa/" followed by a name is what `toString` prints for the two
      segments "picasa" and the name. */
  lemma PatternJoin(name: string)
    ensures PathSyntax.Join(["picasa", name]) == PATTERN_DIR + name
  {
    var segs := ["picasa", name];
    assert segs[1..] == [name] && [name][1..] == [];
    assert PathSyntax.Prefixed([name], '/') == ['/'] + name + PathSyntax.Prefixed([], '/');
    assert PathSyntax.Join(segs) == ['/'] + "picasa" + (['/'] + name);
  }

  /** A pattern "/picasa/" followed by a plain name splits into "picasa"
      and the name. */
  lemma PatternSplits(name: string)
    requires forall k :: 0 <= k < |name| ==> !PathSyntax.IsBrace(name[k]) && name[k] != '/'
    requires |name| > 0
    ensures PathSyntax.Split(PATTERN_DIR + name) == Ok(["picasa", name])
  {
    PathSyntax.PlainScan("picasa", 0, '/');
    PathSyntax.PlainScan(name, 0, '/');
    assert PathSyntax.ValidPart("picasa", '/');
    assert PathSyntax.ValidPart(name, '/');
    PatternJoin(name);
    PathSyntax.JoinThenSplit(["picasa", name]);
  }

  /** The constructor's three patterns each split into two segments. */
  lemma PatternsSplit()
    ensures PathSyntax.Split(ALL_PATTERN) == Ok(["picasa", "all"])
    ensures PathSyntax.Split(IMAGE_PATTERN) == Ok(["picasa", "image"])
    ensures PathSyntax.Split(VIDEO_PATTERN) == Ok(["picasa", "video"])
  {
    PatternSplits("all");
    PatternSplits("image");
    PatternSplits("video");
  }

  /** `new PicasaSource(application)`: prefix "picasa" and the three
      patterns added to a new matcher with kind `PICASA_ALBUMSET`. */
  function NewPicasaSource(): (r: Source)
    ensures MediaSources.GetPrefix(r.source) == PREFIX
    ensures r.matcher.variables == []
  {
    PatternsSplit();
    var m1 := PathMatcher.Add(PathMatcher.NEW_MATCHER, ALL_PATTERN, PICASA_ALBUMSET).value;
    var m2 := PathMatcher.Add(m1, IMAGE_PATTERN, PICASA_ALBUMSET).value;
    var m3 := PathMatcher.Add(m2, VIDEO_PATTERN, PICASA_ALBUMSET).value;
    ConstructorTrie();
    PicasaSource(MediaSources.MediaSource(PREFIX), m3)
  }

  /** Adding a two-segment pattern under the top node. */
  lemma InsertPair(n: PathMatcher.Node, a: string, b: string, kind: int)
    ensures var c := PathMatcher.AddChild(n, a);
      PathMatcher.Insert(n, [a, b], kind) ==
        n.(children := n.children[a := c.(children := c.children[b := PathMatcher.AddChild(c, b).(kind := kind)])])
  {
    var c := PathMatcher.AddChild(n, a);
    assert [a, b][0] == a && [a, b][1..] == [b] && [b][0] == b && [b][1..] == [];
    assert PathMatcher.Insert(c, [b], kind) == c.(children := c.children[b := PathMatcher.Insert(PathMatcher.AddChild(c, b), [], kind)]);
  }

  /** The three `add` calls leave `PICASA_TRIE`. */
  lemma ConstructorTrie()
    ensures PathMatcher.Insert(PathMatcher.Insert(PathMatcher.Insert(PathMatcher.EMPTY_NODE,
      ["picasa", "all"], PICASA_ALBUMSET), ["picasa", "image"], PICASA_ALBUMSET), ["picasa", "video"], PICASA_ALBUMSET)
      == PICASA_TRIE
  {
    var nf := PathMatcher.NOT_FOUND;
    var t1 := PathMatcher.Node(nf, map["picasa" := PathMatcher.Node(nf, map["all" := LEAF])]);
    var t2 := PathMatcher.Node(nf, map["picasa" := PathMatcher.Node(nf, map["all" := LEAF, "image" := LEAF])]);
    InsertPair(PathMatcher.EMPTY_NODE, "picasa", "all", PICASA_ALBUMSET);
    assert PathMatcher.Insert(PathMatcher.EMPTY_NODE, ["picasa", "all"], PICASA_ALBUMSET) == t1;
    InsertPair(t1, "picasa", "image", PICASA_ALBUMSET);
    assert "image" != "all";
    assert PathMatcher.Insert(t1, ["picasa", "image"], PICASA_ALBUMSET) == t2;
    InsertPair(t2, "picasa", "video", PICASA_ALBUMSET);
    assert "video" != "all" && "video" != "image";
  }

  /** The matcher answers `PICASA_ALBUMSET` for exactly the three album-set
      paths and `NOT_FOUND` for every other path. */
  lemma MatchAlbumSet(segments: seq<string>)
    ensures PathMatcher.MatchSegments(PICASA_TRIE, segments).kind ==
      if IsAlbumSetPath(segments) then PICASA_ALBUMSET else PathMatcher.NOT_FOUND
  {
    var top := PICASA_TRIE.children["picasa"];
    if |segments| >= 1 && segments[0] == "picasa" {
      assert PathMatcher.GetChild(PICASA_TRIE, segments[0]) == Some(top);
      assert PathMatcher.MatchSegments(PICASA_TRIE, segments) == PathMatcher.Walk(top, segments[1..], []);
      if |segments| >= 2 && segments[1] in top.children {
        assert PathMatcher.GetChild(top, segments[1]) == Some(LEAF);
        if |segments| > 2 {
          assert PathMatcher.GetChild(LEAF, segments[2]).None?;
          assert PathMatcher.GetChild(LEAF, PathMatcher.WILDCARD).None?;
          assert segments[2..][0] == segments[2];
          assert PathMatcher.Walk(LEAF, segments[2..], []).kind == PathMatcher.NOT_FOUND;
          assert segments[1..][1..] == segments[2..] && segments[1..][0] == segments[1];
          assert PathMatcher.Walk(top, segments[1..], []) == PathMatcher.Walk(LEAF, segments[2..], []);
          assert !IsAlbumSetPath(segments);
        } else {
          assert segments == ["picasa", segments[1]];
          assert segments[1] == "all" || segments[1] == "image" || segments[1] == "video";
          assert segments[1..][1..] == [];
          assert PathMatcher.Walk(top, segments[1..], []) == PathMatcher.Walk(LEAF, [], []);
        }
      } else if |segments| >= 2 {
        assert PathMatcher.GetChild(top, segments[1]).None?;
        assert PathMatcher.GetChild(top, PathMatcher.WILDCARD).None?;
        assert PathMatcher.Walk(top, segments[1..], []) == PathMatcher.Outcome(PathMatcher.NOT_FOUND, []);
        assert !IsAlbumSetPath(segments);
      }
    } else if |segments| >= 1 {
      assert PathMatcher.GetChild(PICASA_TRIE, segments[0]).None?;
      assert PathMatcher.GetChild(PICASA_TRIE, PathMatcher.WILDCARD).None?;
    }
  }

  // ---------------------------------------------------------------------------
  // createMediaObject
  // ---------------------------------------------------------------------------

  /** `createMediaObject(path)`: on an album-set path, the version number is
      drawn first and then the empty album set is constructed, which binds
      it to the path; any other path throws "bad path: " with the path's
      text. A node id the table does not hold is rejected as a bad path with
      no text. */
  function CreateMediaObject(src: Source, w: World, path: PathTree.NodeId): (r: MediaSources.Created<World>)
    ensures path !in w.tree.nodes ==> r == MediaSources.Created(w, Err(BadPath("")))
    ensures path in w.tree.nodes && !IsAlbumSetPath(PathTree.SegmentsOf(w.tree, path)) ==>
      r == MediaSources.Created(w, Err(BadPath(PathTree.ToString(w.tree, path))))
    ensures path in w.tree.nodes && IsAlbumSetPath(PathTree.SegmentsOf(w.tree, path)) ==>
      && r.world.versionSerial == w.versionSerial + 1
      && (r.result.Err? <==> MediaObjects.ObjectAt(w, path).Some?)
      && (r.result.Err? ==> r.result.error == AssertionFailed)
    ensures r.result.Ok? ==> var o := r.result.value;
      && path in w.tree.nodes && IsAlbumSetPath(PathTree.SegmentsOf(w.tree, path))
      && o !in w.objects
      && r.world.objects == w.objects[o := MediaObjects.MediaObject(path, w.versionSerial + 1, MediaObjects.EmptyAlbumSet)]
      && MediaObjects.ObjectAt(r.world, path) == Some(o)
  {
    if path !in w.tree.nodes then MediaSources.Created(w, Err(BadPath("")))
    else
      var kind := PathMatcher.Match(src.matcher, w.tree, path).1;
      MatchAlbumSet(PathTree.SegmentsOf(w.tree, path));
      if kind == PICASA_ALBUMSET then NewAlbumSet(w, path)
      else MediaSources.Created(w, Err(BadPath(PathTree.ToString(w.tree, path))))
  }

  /** The album-set branch of `createMediaObject`: the version number is
      drawn even when the construction then fails. */
  function NewAlbumSet(w: World, path: PathTree.NodeId): (r: MediaSources.Created<World>)
    requires path in w.tree.nodes
    ensures r.world.versionSerial == w.versionSerial + 1
    ensures r.result.Err? <==> MediaObjects.ObjectAt(w, path).Some?
    ensures r.result.Err? ==> r.result.error == AssertionFailed && r.world == w.(versionSerial := w.versionSerial + 1)
    ensures r.result.Ok? ==> var o := r.result.value;
      && o !in w.objects
      && r.world.objects == w.objects[o := MediaObjects.MediaObject(path, w.versionSerial + 1, MediaObjects.EmptyAlbumSet)]
      && MediaObjects.ObjectAt(r.world, path) == Some(o)
  {
    var w1 := MediaObjects.NextVersionNumber(w).0;
    var made := MediaObjects.NewMediaObject(w1, path, w1.versionSerial, MediaObjects.EmptyAlbumSet);
    if made.Err? then MediaSources.Created(w1, Err(made.error))
    else MediaSources.Created(made.value.0, Ok(made.value.1))
  }

  /** The source's factory, as `mapMediaItems` calls it. */
  function Factory(src: Source): MediaSources.Factory<World> {
    (w: World, p: PathTree.NodeId) => CreateMediaObject(src, w, p)
  }

  /** The `(MediaItem)` cast against the world's objects. */
  function IsItem(): MediaSources.IsItem<World> {
    (w: World, o: PathTree.ObjectId) => o in w.objects && MediaObjects.IsMediaItem(w.objects[o].cls)
  }

  /** `mapMediaItems` on a Picasa source, with `Path.getObject` as lookup. */
  method MapMediaItems(src: Source, w: World, items: seq<MediaSources.PathId>)
    returns (w': World, calls: seq<MediaSources.Consume>, thrownAt: Option<nat>)
    ensures thrownAt.None? ==>
      && MediaSources.CastsPass(w, items, MediaObjects.ObjectAt, Factory(src), IsItem(), |items|)
      && w' == MediaSources.Run(w, items, MediaObjects.ObjectAt, Factory(src)).world
      && calls == MediaSources.Consumed(items, MediaSources.Run(w, items, MediaObjects.ObjectAt, Factory(src)).outcomes)
    ensures thrownAt.Some? ==> var k := thrownAt.value;
      && k < |items| && MediaSources.BadCast(w, items, MediaObjects.ObjectAt, Factory(src), IsItem(), k)
      && MediaSources.CastsPass(w, items, MediaObjects.ObjectAt, Factory(src), IsItem(), k)
      && w' == MediaSources.WorldBefore(w, items, MediaObjects.ObjectAt, Factory(src), k + 1)
      && calls == MediaSources.Consumed(items[..k], MediaSources.Run(w, items[..k], MediaObjects.ObjectAt, Factory(src)).outcomes)
  {
    w', calls, thrownAt := MediaSources.MapMediaItems(w, items, MediaObjects.ObjectAt, Factory(src), IsItem());
  }

  /** In a Picasa batch an item resolves to an object exactly when its path
      already holds a live object or is one of the three album-set paths. */
  lemma BatchItemResolves(src: Source, w: World, items: seq<MediaSources.PathId>, n: nat)
    requires n < |items|
    ensures var before := MediaSources.WorldBefore(w, items, MediaObjects.ObjectAt, Factory(src), n);
      var p := items[n].path;
      MediaSources.Run(w, items, MediaObjects.ObjectAt, Factory(src)).outcomes[n].Some? <==>
        (MediaObjects.ObjectAt(before, p).Some? || (p in before.tree.nodes && IsAlbumSetPath(PathTree.SegmentsOf(before.tree, p))))
  {
    MediaSources.RunStep(w, items, MediaObjects.ObjectAt, Factory(src), n);
  }

  /** An album set this source creates is a `MediaSet`, not a `MediaItem`:
      an item the factory resolves fails the cast, so the batch ends there
      and the created object is never consumed. An item that passes the
      cast resolved to the live object its path already held. */
  lemma CreatedAlbumSetFailsCast(src: Source, w: World, items: seq<MediaSources.PathId>, n: nat)
    requires n < |items|
    ensures var before := MediaSources.WorldBefore(w, items, MediaObjects.ObjectAt, Factory(src), n);
      var out := MediaSources.Run(w, items, MediaObjects.ObjectAt, Factory(src)).outcomes[n];
      out.Some? && MediaObjects.ObjectAt(before, items[n].path).None? ==>
        MediaSources.BadCast(w, items, MediaObjects.ObjectAt, Factory(src), IsItem(), n)
    ensures var before := MediaSources.WorldBefore(w, items, MediaObjects.ObjectAt, Factory(src), n);
      var out := MediaSources.Run(w, items, MediaObjects.ObjectAt, Factory(src)).outcomes[n];
      out.Some? && !MediaSources.BadCast(w, items, MediaObjects.ObjectAt, Factory(src), IsItem(), n) ==>
        out == MediaObjects.ObjectAt(before, items[n].path)
  {
    var before := MediaSources.WorldBefore(w, items, MediaObjects.ObjectAt, Factory(src), n);
    MediaSources.BadCastStep(w, items, MediaObjects.ObjectAt, Factory(src), IsItem(), n);
    if MediaObjects.ObjectAt(before, items[n].path).None? {
      CreatedFailsCast(src, before, items[n]);
    } else {
      ReusedStep(src, before, items[n]);
    }
  }

  /** A path with a live object resolves to that object. */
  lemma ReusedStep(src: Source, w: World, pid: MediaSources.PathId)
    requires MediaObjects.ObjectAt(w, pid.path).Some?
    ensures MediaSources.ResolveOne(w, pid, MediaObjects.ObjectAt, Factory(src)).1 == MediaObjects.ObjectAt(w, pid.path)
  {
  }

  /** One step of the loop on a path with no live object: whatever the
      factory returns is an album set, which fails the cast. */
  lemma CreatedFailsCast(src: Source, w: World, pid: MediaSources.PathId)
    requires MediaObjects.ObjectAt(w, pid.path).None?
    ensures var step := MediaSources.ResolveOne(w, pid, MediaObjects.ObjectAt, Factory(src));
      step.1.Some? ==> !IsItem()(step.0, step.1.value)
  {
    var c := CreateMediaObject(src, w, pid.path);
    if c.result.Ok? {
      assert c.world.objects[c.result.value].cls == MediaObjects.EmptyAlbumSet;
    }
  }

  // ---------------------------------------------------------------------------
  // EmptyAlbumSet and the static helpers
  // ---------------------------------------------------------------------------

  /** `EmptyAlbumSet.getName`. */
  function GetName(o: MediaObjects.MediaObject): (r: string)
    requires o.cls == MediaObjects.EmptyAlbumSet
    ensures r == PREFIX
  {
    PREFIX
  }

  /** `EmptyAlbumSet.reload`: nothing to reload, the version stands. */
  function Reload(o: MediaObjects.MediaObject): (r: int)
    requires o.cls == MediaObjects.EmptyAlbumSet
    ensures r == o.dataVersion
  {
    MediaObjects.GetDataVersion(o)
  }

  /** An album set made by `createMediaObject` is named "picasa" and
      reloads to the version number drawn for it, which exceeds every number
      drawn before. */
  lemma CreatedAlbumSet(src: Source, w: World, path: PathTree.NodeId)
    requires CreateMediaObject(src, w, path).result.Ok?
    ensures var r := CreateMediaObject(src, w, path); var o := r.result.value;
      && GetName(r.world.objects[o]) == "picasa"
      && Reload(r.world.objects[o]) == w.versionSerial + 1 == r.world.versionSerial
      && Reload(r.world.objects[o]) > w.versionSerial
  {
  }

  /** `isPicasaImage`: no object is a Picasa image in this build. */
  function IsPicasaImage(o: MediaObjects.MediaObject): (r: bool)
    ensures !r
  {
    false
  }

  /** `ALBUM_PATH`: "/picasa/all" interned in the table. */
  function AlbumPath(t: PathTree.Tree): (r: (PathTree.Tree, PathTree.NodeId))
    ensures r.1 in r.0.nodes && PathTree.Extends(t, r.0)
    ensures PathTree.SegmentsOf(r.0, r.1) == ["picasa", "all"]
    ensures PathTree.ToString(r.0, r.1) == ALL_PATTERN
  {
    InternAllPattern(t);
    PathTree.FromString(t, ALL_PATTERN).value
  }

  lemma InternAllPattern(t: PathTree.Tree)
    ensures PathTree.FromString(t, ALL_PATTERN).Ok?
    ensures var r := PathTree.FromString(t, ALL_PATTERN).value;
      PathTree.SegmentsOf(r.0, r.1) == ["picasa", "all"] && PathTree.ToString(r.0, r.1) == ALL_PATTERN
  {
    PatternSplits("all");
    PatternJoin("all");
  }

  // ---------------------------------------------------------------------------
  // Creating twice
  // ---------------------------------------------------------------------------

  /** On an album-set path with no reachable object the first creation
      succeeds; a second one, while that object is still reachable, trips the
      binding assertion and only draws another version number. */
  lemma CreateTwice(src: Source, w: World, path: PathTree.NodeId)
    requires path in w.tree.nodes && IsAlbumSetPath(PathTree.SegmentsOf(w.tree, path))
    requires MediaObjects.ObjectAt(w, path).None?
    ensures CreateMediaObject(src, w, path).result.Ok?
    ensures var w1 := CreateMediaObject(src, w, path).world;
      && CreateMediaObject(src, w1, path).result == Err(AssertionFailed)
      && CreateMediaObject(src, w1, path).world == w1.(versionSerial := w1.versionSerial + 1)
  {
    var w1 := CreateMediaObject(src, w, path).world;
    var v := MediaObjects.NextVersionNumber(w).0;
    assert w1 == MediaObjects.NewMediaObject(v, path, v.versionSerial, MediaObjects.EmptyAlbumSet).value.0;
    MediaObjects.NewMediaObjectKeepsSegments(v, path, v.versionSerial, MediaObjects.EmptyAlbumSet, path);
    assert path in w1.tree.nodes && IsAlbumSetPath(PathTree.SegmentsOf(w1.tree, path));
    assert MediaObjects.ObjectAt(w1, path).Some?;
  }
}
