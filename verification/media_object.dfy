/** `MediaObject`: the flag and type constants, the media-type codec, the
    global version counter, and the binding a new object installs on its
    path.

    The objects, the path table and the counter form one `World`. Which
    objects the garbage collector has reclaimed is not decided by the model:
    the set `live` of objects still reachable is part of the world, and
    `Reclaim` takes an object out of it.
 */
module MediaObjects {
  import opened Errors
  import PathTree

  // ---------------------------------------------------------------------------
  // Constants
  // ---------------------------------------------------------------------------

  const INVALID_DATA_VERSION: int := -1

  /** The bits of `getSupportedOperations()`, as 32-bit Java `int`s. */
  const SUPPORT_DELETE: bv32 := 1 << 0
  const SUPPORT_ROTATE: bv32 := 1 << 1
  const SUPPORT_SHARE: bv32 := 1 << 2
  const SUPPORT_CROP: bv32 := 1 << 3
  const SUPPORT_SHOW_ON_MAP: bv32 := 1 << 4
  const SUPPORT_SETAS: bv32 := 1 << 5
  const SUPPORT_FULL_IMAGE: bv32 := 1 << 6
  const SUPPORT_PLAY: bv32 := 1 << 7
  const SUPPORT_CACHE: bv32 := 1 << 8
  const SUPPORT_EDIT: bv32 := 1 << 9
  const SUPPORT_INFO: bv32 := 1 << 10
  const SUPPORT_TRIM: bv32 := 1 << 11
  const SUPPORT_UNLOCK: bv32 := 1 << 12
  const SUPPORT_BACK: bv32 := 1 << 13
  const SUPPORT_ACTION: bv32 := 1 << 14
  const SUPPORT_CAMERA_SHORTCUT: bv32 := 1 << 15
  const SUPPORT_MUTE: bv32 := 1 << 16
  const SUPPORT_PRINT: bv32 := 1 << 17
  const SUPPORT_DRM_INFO: bv32 := 1 << 18
  const SUPPORT_ALL: bv32 := 0xffff_ffff

  /** The operation flags in declaration order. */
  const SUPPORT_FLAGS: seq<bv32> := [
    SUPPORT_DELETE, SUPPORT_ROTATE, SUPPORT_SHARE, SUPPORT_CROP,
    SUPPORT_SHOW_ON_MAP, SUPPORT_SETAS, SUPPORT_FULL_IMAGE, SUPPORT_PLAY,
    SUPPORT_CACHE, SUPPORT_EDIT, SUPPORT_INFO, SUPPORT_TRIM, SUPPORT_UNLOCK,
    SUPPORT_BACK, SUPPORT_ACTION, SUPPORT_CAMERA_SHORTCUT, SUPPORT_MUTE,
    SUPPORT_PRINT, SUPPORT_DRM_INFO]

  /** The values of `getMediaType()`. */
  const MEDIA_TYPE_UNKNOWN: int := 1
  const MEDIA_TYPE_IMAGE: int := 2
  const MEDIA_TYPE_VIDEO: int := 4
  const MEDIA_TYPE_DRM_VIDEO: int := 5
  const MEDIA_TYPE_DRM_IMAGE: int := 6
  const MEDIA_TYPE_ALL: int := ((MEDIA_TYPE_IMAGE as bv32) | (MEDIA_TYPE_VIDEO as bv32)) as int

  const MEDIA_TYPE_IMAGE_STRING: string := "image"
  const MEDIA_TYPE_VIDEO_STRING: string := "video"
  const MEDIA_TYPE_ALL_STRING: string := "all"

  const CACHE_FLAG_NO: int := 0
  const CACHE_FLAG_SCREENNAIL: int := 1
  const CACHE_FLAG_FULL: int := 2

  const CACHE_STATUS_NOT_CACHED: int := 0
  const CACHE_STATUS_CACHING: int := 1
  const CACHE_STATUS_CACHED_SCREENNAIL: int := 2
  const CACHE_STATUS_CACHED_FULL: int := 3

  /** The 32-bit word with only bit `k` set. */
  function Bit(k: nat): bv32
    requires k < 32
  {
    (1 as bv32) << k
  }

  /** Each operation flag is the single bit at its own position. */
  lemma SupportFlagsAreBits()
    ensures |SUPPORT_FLAGS| == 19
    ensures forall k :: 0 <= k < |SUPPORT_FLAGS| ==> SUPPORT_FLAGS[k] == Bit(k)
  {
  }

  lemma SingleBitsDisjoint(j: nat, k: nat)
    requires j < k < 32
    ensures Bit(j) & Bit(k) == 0
  {
  }

  lemma AllHasBit(k: nat)
    requires k < 32
    ensures SUPPORT_ALL & Bit(k) == Bit(k)
  {
  }

  /** The operation flags are pairwise disjoint, and `SUPPORT_ALL` contains
      every one of them. */
  lemma SupportFlagsDistinct()
    ensures forall j, k :: 0 <= j < k < |SUPPORT_FLAGS| ==> SUPPORT_FLAGS[j] & SUPPORT_FLAGS[k] == 0
    ensures forall k :: 0 <= k < |SUPPORT_FLAGS| ==> SUPPORT_ALL & SUPPORT_FLAGS[k] == SUPPORT_FLAGS[k]
  {
    SupportFlagsAreBits();
    forall j, k | 0 <= j < k < |SUPPORT_FLAGS|
      ensures SUPPORT_FLAGS[j] & SUPPORT_FLAGS[k] == 0
    {
      SingleBitsDisjoint(j, k);
    }
    forall k | 0 <= k < |SUPPORT_FLAGS|
      ensures SUPPORT_ALL & SUPPORT_FLAGS[k] == SUPPORT_FLAGS[k]
    {
      AllHasBit(k);
    }
  }

  /** The bitwise union of image and video is the DRM-image code, so the two
      constants coincide. */
  lemma MediaTypeAllIsDrmImage()
    ensures MEDIA_TYPE_ALL == 6 == MEDIA_TYPE_DRM_IMAGE
  {
  }

  // ---------------------------------------------------------------------------
  // The media-type codec
  // ---------------------------------------------------------------------------

  /** `getTypeFromString`: the three names, anything else an
      `IllegalArgumentException` carrying the text. */
  function TypeFromString(s: string): (r: Result<int>)
    ensures r.Ok? <==> s == MEDIA_TYPE_ALL_STRING || s == MEDIA_TYPE_IMAGE_STRING || s == MEDIA_TYPE_VIDEO_STRING
    ensures s == MEDIA_TYPE_ALL_STRING ==> r == Ok(MEDIA_TYPE_ALL)
    ensures s == MEDIA_TYPE_IMAGE_STRING ==> r == Ok(MEDIA_TYPE_IMAGE)
    ensures s == MEDIA_TYPE_VIDEO_STRING ==> r == Ok(MEDIA_TYPE_VIDEO)
    ensures r.Err? ==> r.error == IllegalArgument(s)
  {
    if s == MEDIA_TYPE_ALL_STRING then Ok(MEDIA_TYPE_ALL)
    else if s == MEDIA_TYPE_IMAGE_STRING then Ok(MEDIA_TYPE_IMAGE)
    else if s == MEDIA_TYPE_VIDEO_STRING then Ok(MEDIA_TYPE_VIDEO)
    else Err(IllegalArgument(s))
  }

  /** `getTypeString`: the three codes, anything else an
      `IllegalArgumentException` without a message. */
  function TypeString(t: int): (r: Result<string>)
    ensures r.Ok? <==> t == MEDIA_TYPE_IMAGE || t == MEDIA_TYPE_VIDEO || t == MEDIA_TYPE_ALL
    ensures t == MEDIA_TYPE_IMAGE ==> r == Ok(MEDIA_TYPE_IMAGE_STRING)
    ensures t == MEDIA_TYPE_VIDEO ==> r == Ok(MEDIA_TYPE_VIDEO_STRING)
    ensures t == MEDIA_TYPE_ALL ==> r == Ok(MEDIA_TYPE_ALL_STRING)
    ensures r.Err? ==> r.error == IllegalArgument("")
  {
    if t == MEDIA_TYPE_IMAGE then Ok(MEDIA_TYPE_IMAGE_STRING)
    else if t == MEDIA_TYPE_VIDEO then Ok(MEDIA_TYPE_VIDEO_STRING)
    else if t == MEDIA_TYPE_ALL then Ok(MEDIA_TYPE_ALL_STRING)
    else Err(IllegalArgument(""))
  }

  /** Printing a parsed name gives the name back. */
  lemma TypeFromStringThenString(s: string)
    requires TypeFromString(s).Ok?
    ensures TypeString(TypeFromString(s).value) == Ok(s)
  {
  }

  /** Parsing a printed code gives the code back. */
  lemma TypeStringThenFromString(t: int)
    requires TypeString(t).Ok?
    ensures TypeFromString(TypeString(t).value) == Ok(t)
  {
  }

  /** Because the codes coincide, the DRM-image code prints as "all". */
  lemma DrmImagePrintsAsAll()
    ensures TypeString(MEDIA_TYPE_DRM_IMAGE) == Ok(MEDIA_TYPE_ALL_STRING)
    ensures TypeString(MEDIA_TYPE_DRM_VIDEO).Err? && TypeString(MEDIA_TYPE_UNKNOWN).Err?
  {
  }

  // ---------------------------------------------------------------------------
  // Objects and the world
  // ---------------------------------------------------------------------------

  /** The concrete class of an object, as far as the model distinguishes:
      `Item` is any subclass of `MediaItem`, `EmptyAlbumSet` the Picasa
      source's album set, and `Generic` any other subclass. */
  datatype MediaClass = Generic | Item | EmptyAlbumSet

  /** Whether an object of this class passes a `(MediaItem)` cast. */
  predicate IsMediaItem(c: MediaClass) {
    c == Item
  }

  /** `MediaObject`: its path and its data version. */
  datatype MediaObject = MediaObject(path: PathTree.NodeId, dataVersion: int, cls: MediaClass)

  /** `getPath`, `getDataVersion` and the base-class answers of
      `getSupportedOperations`, `getMediaType` and `getCacheFlag`. */
  function GetPath(o: MediaObject): (r: PathTree.NodeId)
    ensures r == o.path
  {
    o.path
  }

  function GetDataVersion(o: MediaObject): (r: int)
    ensures r == o.dataVersion
  {
    o.dataVersion
  }

  /** No operation is supported: not one `SUPPORT_` bit is set. */
  function GetSupportedOperations(o: MediaObject): (r: bv32)
    ensures r & SUPPORT_ALL == 0
  {
    0
  }

  /** The unknown type, which has no name. */
  function GetMediaType(o: MediaObject): (r: int)
    ensures r == MEDIA_TYPE_UNKNOWN && TypeString(r).Err?
  {
    MEDIA_TYPE_UNKNOWN
  }

  function GetCacheFlag(o: MediaObject): (r: int)
    ensures r == CACHE_FLAG_NO
  {
    CACHE_FLAG_NO
  }

  /** The path table, the objects created so far, the ones still reachable,
      and the static `sVersionSerial`. */
  datatype WorldState = WorldState(
    tree: PathTree.Tree,
    objects: map<PathTree.ObjectId, MediaObject>,
    live: set<PathTree.ObjectId>,
    nextObject: PathTree.ObjectId,
    versionSerial: int)

  /** Object ids are handed out in order; every object names a node of the
      table; only created objects are reachable; a bound node is the path of
      the object bound to it; and every reachable object is still the one
      its path is bound to. */
  ghost predicate WorldValid(w: WorldState) {
    && (forall o :: o in w.objects ==> o < w.nextObject)
    && (forall o {:trigger w.objects[o]} :: o in w.objects ==> w.objects[o].path in w.tree.nodes)
    && w.live <= w.objects.Keys
    && (forall id {:trigger w.tree.nodes[id]} :: id in w.tree.nodes && w.tree.nodes[id].binding.Some? ==>
          w.tree.nodes[id].binding.value in w.objects
          && w.objects[w.tree.nodes[id].binding.value].path == id)
    && (forall o :: o in w.live ==> w.tree.nodes[w.objects[o].path].binding == Some(o))
    && w.versionSerial >= 0
  }

  type World = w: WorldState | WorldValid(w)
    witness WorldState(PathTree.InitialTree(), map[], {}, 0, 0)

  /** The world at process start: the bare path table and a zero counter. */
  function InitialWorld(): (w: World)
    ensures w.objects == map[] && w.live == {} && w.versionSerial == 0
    ensures w.tree == PathTree.InitialTree()
  {
    WorldState(PathTree.InitialTree(), map[], {}, 0, 0)
  }

  /** `path.getObject()` in this world. */
  function ObjectAt(w: World, path: PathTree.NodeId): (r: Option<PathTree.ObjectId>)
    ensures r.Some? ==> r.value in w.live && r.value in w.objects && w.objects[r.value].path == path
  {
    PathTree.GetObject(w.tree, path, w.live)
  }

  /** Two reachable objects never share a path. */
  lemma OneLiveObjectPerPath(w: World, a: PathTree.ObjectId, b: PathTree.ObjectId)
    requires a in w.live && b in w.live
    requires w.objects[a].path == w.objects[b].path
    ensures a == b
  {
  }

  /** A reachable object is what its path answers. */
  lemma LiveObjectIsFound(w: World, o: PathTree.ObjectId)
    requires o in w.live
    ensures ObjectAt(w, w.objects[o].path) == Some(o)
  {
  }

  /** Interning a path string in the world's table (`Path.fromString`). */
  function Intern(w: World, s: string): (r: Result<(World, PathTree.NodeId)>)
    ensures r.Ok? <==> PathTree.FromString(w.tree, s).Ok?
    ensures r.Ok? ==> (r.value.0 == w.(tree := PathTree.FromString(w.tree, s).value.0)
      && r.value.1 == PathTree.FromString(w.tree, s).value.1)
    ensures r.Ok? ==> forall p :: p in w.tree.nodes ==> ObjectAt(r.value.0, p) == ObjectAt(w, p)
  {
    var found :- PathTree.FromString(w.tree, s);
    var t' := found.0;
    var w' := w.(tree := t');
    ExtendKeepsValid(w, t');
    Ok((w', found.1))
  }

  /** Adding nodes to the table keeps the world consistent. */
  lemma ExtendKeepsValid(w: World, t': PathTree.Tree)
    requires PathTree.Extends(w.tree, t')
    ensures WorldValid(w.(tree := t'))
  {
    var w' := w.(tree := t');
    forall p | p in t'.nodes && t'.nodes[p].binding.Some?
      ensures t'.nodes[p].binding.value in w.objects && w.objects[t'.nodes[p].binding.value].path == p
    {
      assert p in w.tree.nodes;
    }
    forall o | o in w.live ensures t'.nodes[w.objects[o].path].binding == Some(o) {
      assert w.tree.nodes[w.objects[o].path].binding == Some(o);
    }
    ValidFromParts(w');
  }

  // ---------------------------------------------------------------------------
  // Version numbers
  // ---------------------------------------------------------------------------

  /** `nextVersionNumber`: pre-increment of the static counter. */
  function NextVersionNumber(w: World): (r: (World, int))
    ensures r.1 > w.versionSerial
    ensures r.0.versionSerial == r.1
    ensures r.0 == w.(versionSerial := r.1)
  {
    var v := w.versionSerial + 1;
    (w.(versionSerial := v), v)
  }

  /** The numbers `n` successive calls return. */
  function Versions(w: World, n: nat): (r: seq<int>)
    ensures |r| == n
    decreases n
  {
    if n == 0 then []
    else
      var next := NextVersionNumber(w);
      [next.1] + Versions(next.0, n - 1)
  }

  /** Successive calls count up by one from the current counter: strictly
      increasing, and from a fresh process the `k`-th call returns `k`. */
  lemma {:induction false} VersionsCountUp(w: World, n: nat)
    ensures forall k :: 0 <= k < n ==> Versions(w, n)[k] == w.versionSerial + k + 1
    ensures forall j, k :: 0 <= j < k < n ==> Versions(w, n)[j] < Versions(w, n)[k]
    decreases n
  {
    if n > 0 {
      VersionsCountUp(NextVersionNumber(w).0, n - 1);
      assert forall k :: 1 <= k < n ==> Versions(w, n)[k] == Versions(NextVersionNumber(w).0, n - 1)[k - 1];
    }
  }

  lemma VersionsStartAtOne(n: nat)
    ensures forall k :: 0 <= k < n ==> Versions(InitialWorld(), n)[k] == k + 1
  {
    VersionsCountUp(InitialWorld(), n);
  }

  // ---------------------------------------------------------------------------
  // Construction and reclamation
  // ---------------------------------------------------------------------------

  /** `new MediaObject(path, version)`: `path.setObject(this)` first, so a
      path that still has a reachable object fails the assertion and no
      object comes into being; otherwise the new object is bound to the
      path and reachable. */
  function NewMediaObject(w: World, path: PathTree.NodeId, version: int, cls: MediaClass): (r: Result<(World, PathTree.ObjectId)>)
    requires path in w.tree.nodes
    ensures r.Err? <==> ObjectAt(w, path).Some?
    ensures r.Err? ==> r.error == AssertionFailed
    ensures r.Ok? ==> r.value.1 !in w.objects
    ensures r.Ok? ==> r.value.0.objects == w.objects[r.value.1 := MediaObject(path, version, cls)]
    ensures r.Ok? ==> r.value.0.live == w.live + {r.value.1}
    ensures r.Ok? ==> r.value.0.versionSerial == w.versionSerial
    ensures r.Ok? ==> ObjectAt(r.value.0, path) == Some(r.value.1)
    ensures r.Ok? ==> r.value.0.tree.nodes.Keys == w.tree.nodes.Keys
  {
    var o := w.nextObject;
    var bound := PathTree.SetObject(w.tree, path, o, w.live);
    if bound.Err? then Err(AssertionFailed)
    else
      var w': WorldState := WorldState(bound.value, w.objects[o := MediaObject(path, version, cls)], w.live + {o}, o + 1, w.versionSerial);
      BindKeepsValid(w, path, version, cls, bound.value);
      assert WorldValid(w');
      Ok((w', o))
  }

  /** Constructing an object changes what no other path answers. */
  lemma NewMediaObjectLeavesOthers(w: World, path: PathTree.NodeId, version: int, cls: MediaClass, p: PathTree.NodeId)
    requires path in w.tree.nodes && NewMediaObject(w, path, version, cls).Ok?
    requires p != path
    ensures ObjectAt(NewMediaObject(w, path, version, cls).value.0, p) == ObjectAt(w, p)
  {
    var t' := PathTree.SetObject(w.tree, path, w.nextObject, w.live).value;
    if p in w.tree.nodes {
      assert t'.nodes[p] == w.tree.nodes[p];
      if w.tree.nodes[p].binding.Some? {
        assert w.tree.nodes[p].binding.value in w.objects;
      }
    }
  }

  /** Constructing an object leaves the shape of the table, and so every
      node's segments, as they were. */
  lemma NewMediaObjectKeepsSegments(w: World, path: PathTree.NodeId, version: int, cls: MediaClass, p: PathTree.NodeId)
    requires path in w.tree.nodes && NewMediaObject(w, path, version, cls).Ok?
    requires p in w.tree.nodes
    ensures p in NewMediaObject(w, path, version, cls).value.0.tree.nodes
    ensures PathTree.SegmentsOf(NewMediaObject(w, path, version, cls).value.0.tree, p) == PathTree.SegmentsOf(w.tree, p)
  {
    var t' := PathTree.SetObject(w.tree, path, w.nextObject, w.live).value;
    assert NewMediaObject(w, path, version, cls).value.0.tree == t';
    PathTree.SegmentsOfSameShape(w.tree, t', p);
  }

  /** Binding a fresh object to a path with no reachable object keeps the
      world consistent. */
  lemma BindKeepsValid(w: World, path: PathTree.NodeId, version: int, cls: MediaClass, t': PathTree.Tree)
    requires path in w.tree.nodes && ObjectAt(w, path).None?
    requires PathTree.SetObject(w.tree, path, w.nextObject, w.live) == Ok(t')
    ensures WorldValid(WorldState(t', w.objects[w.nextObject := MediaObject(path, version, cls)],
                                  w.live + {w.nextObject}, w.nextObject + 1, w.versionSerial))
    ensures w.nextObject !in w.objects
    ensures PathTree.GetObject(t', path, w.live + {w.nextObject}) == Some(w.nextObject)
  {
    var o := w.nextObject;
    var w' := WorldState(t', w.objects[o := MediaObject(path, version, cls)], w.live + {o}, o + 1, w.versionSerial);
    assert o !in w.objects;
    BindKeepsPaths(w, path, version, cls, t');
    BindKeepsBindings(w, path, version, cls, t');
    BindKeepsLive(w, path, version, cls, t');
    ValidFromParts(w');
  }

  /** The consistency conditions one by one. */
  lemma ValidFromParts(w: WorldState)
    requires forall o :: o in w.objects ==> o < w.nextObject
    requires forall o :: o in w.objects ==> w.objects[o].path in w.tree.nodes
    requires w.live <= w.objects.Keys
    requires forall id :: id in w.tree.nodes && w.tree.nodes[id].binding.Some? ==>
               w.tree.nodes[id].binding.value in w.objects
               && w.objects[w.tree.nodes[id].binding.value].path == id
    requires forall o :: o in w.live ==> w.tree.nodes[w.objects[o].path].binding == Some(o)
    requires w.versionSerial >= 0
    ensures WorldValid(w)
  {
  }

  /** After binding, every object still names a node of the table. */
  lemma BindKeepsPaths(w: World, path: PathTree.NodeId, version: int, cls: MediaClass, t': PathTree.Tree)
    requires path in w.tree.nodes && ObjectAt(w, path).None?
    requires PathTree.SetObject(w.tree, path, w.nextObject, w.live) == Ok(t')
    ensures var objects' := w.objects[w.nextObject := MediaObject(path, version, cls)];
      forall q :: q in objects' ==> objects'[q].path in t'.nodes
  {
    var objects' := w.objects[w.nextObject := MediaObject(path, version, cls)];
    forall q | q in objects' ensures objects'[q].path in t'.nodes {
      if q != w.nextObject {
        assert w.objects[q].path in w.tree.nodes;
      }
    }
  }

  /** After binding, every bound node is the path of the object bound to it. */
  lemma BindKeepsBindings(w: World, path: PathTree.NodeId, version: int, cls: MediaClass, t': PathTree.Tree)
    requires path in w.tree.nodes && ObjectAt(w, path).None?
    requires PathTree.SetObject(w.tree, path, w.nextObject, w.live) == Ok(t')
    ensures var objects' := w.objects[w.nextObject := MediaObject(path, version, cls)];
      forall id :: id in t'.nodes && t'.nodes[id].binding.Some? ==>
        t'.nodes[id].binding.value in objects' && objects'[t'.nodes[id].binding.value].path == id
  {
    var objects' := w.objects[w.nextObject := MediaObject(path, version, cls)];
    forall id | id in t'.nodes && t'.nodes[id].binding.Some?
      ensures t'.nodes[id].binding.value in objects' && objects'[t'.nodes[id].binding.value].path == id
    {
      if id != path {
        assert t'.nodes[id] == w.tree.nodes[id];
      }
    }
  }

  /** After binding, every reachable object, the new one included, is the one
      its path is bound to. */
  lemma BindKeepsLive(w: World, path: PathTree.NodeId, version: int, cls: MediaClass, t': PathTree.Tree)
    requires path in w.tree.nodes && ObjectAt(w, path).None?
    requires PathTree.SetObject(w.tree, path, w.nextObject, w.live) == Ok(t')
    ensures var objects' := w.objects[w.nextObject := MediaObject(path, version, cls)];
      forall q :: q in w.live + {w.nextObject} ==> t'.nodes[objects'[q].path].binding == Some(q)
  {
    var o := w.nextObject;
    var objects' := w.objects[o := MediaObject(path, version, cls)];
    forall q | q in w.live + {o}
      ensures t'.nodes[objects'[q].path].binding == Some(q)
    {
      if q != o {
        assert w.tree.nodes[w.objects[q].path].binding == Some(q);
        if w.objects[q].path == path {
          assert false;
        }
      }
    }
  }

  /** The collector reclaims `o`: it stops being reachable. */
  function Reclaim(w: World, o: PathTree.ObjectId): (r: World)
    ensures r.live == w.live - {o}
    ensures r.tree == w.tree && r.objects == w.objects
    ensures o in w.live ==> ObjectAt(r, w.objects[o].path) == None
    ensures forall p :: ObjectAt(r, p) == if ObjectAt(w, p) == Some(o) then None else ObjectAt(w, p)
  {
    var w' := WorldState(w.tree, w.objects, w.live - {o}, w.nextObject, w.versionSerial);
    assert WorldValid(w') by {
      forall q | q in w'.live
        ensures w'.tree.nodes[w'.objects[q].path].binding == Some(q)
      {
        assert q in w.live;
      }
    }
    w'
  }

  /** The base class answers: the constructor's version, no operations, an
      unknown media type and no caching. */
  lemma ConstructedDefaults(w: World, path: PathTree.NodeId, version: int)
    requires path in w.tree.nodes && NewMediaObject(w, path, version, Generic).Ok?
    ensures var w' := NewMediaObject(w, path, version, Generic).value.0;
      var o := NewMediaObject(w, path, version, Generic).value.1;
      && GetPath(w'.objects[o]) == path
      && GetDataVersion(w'.objects[o]) == version
      && GetSupportedOperations(w'.objects[o]) == 0
      && GetMediaType(w'.objects[o]) == MEDIA_TYPE_UNKNOWN
      && GetCacheFlag(w'.objects[o]) == CACHE_FLAG_NO
  {
  }

  /** A second object on a path trips the assertion while the first is
      reachable, and succeeds once the first has been reclaimed. */
  lemma SecondObjectOnPath(w: World, path: PathTree.NodeId, v1: int, v2: int, cls: MediaClass)
    requires path in w.tree.nodes && NewMediaObject(w, path, v1, cls).Ok?
    ensures var w' := NewMediaObject(w, path, v1, cls).value.0;
      var o := NewMediaObject(w, path, v1, cls).value.1;
      && NewMediaObject(w', path, v2, cls) == Err(AssertionFailed)
      && NewMediaObject(Reclaim(w', o), path, v2, cls).Ok?
  {
  }
}
