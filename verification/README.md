# Gallery paths, path matching and media sources in Dafny

This project models the identifier and dispatch layer of the Gallery data
package.

- **Path.** Media objects are named by interned paths: a process-wide tree in
  which `getChild` returns one canonical node per (parent, segment) pair.
  Literals such as `/picasa/all` are split at top-level `/` (braces group)
  and joined back by `toString`. Each node holds a one-slot weak binding to
  the object living on it.
- **PathMatcher.** A trie from pattern segments to an integer kind. At each
  level `match` prefers the literal child and falls back to the `*` child,
  capturing the segment, and never backtracks.
- **MediaObject.** The constructor binds the new object to its path. The
  module also holds the global version counter, the media-type codec and the
  flag constants.
- **MediaSource.mapMediaItems.** Resolves a batch of paths in order. It
  reuses a live binding, otherwise asks `createMediaObject`, and skips the
  items whose construction throws. Each resolved object is cast to
  `MediaItem` outside the `try`, so an object of another class ends the
  batch with a `ClassCastException`.
- **PicasaSource.** A concrete source whose matcher knows three album-set
  patterns. Its `createMediaObject` builds an empty album set on those and
  rejects every other path. An empty album set is a `MediaSet`, so the
  inherited `mapMediaItems` throws at the first item it has to create.

Everything is a pure function over immutable values:

- `PathTree.Tree` is the intern table, a map from node ids to nodes. It is a
  subset type that carries the parent/child linking invariant.
- `MediaObjects.World` puts together the table, the objects created so far,
  the set of objects still reachable (the garbage collector's view) and the
  version counter.
- A Java exception becomes the `Err` case of `Errors.Result`. `null`
  becomes `None`.

The files are:

- `errors.dfy` (results and the exceptions).
- `decimal.dfy` (`String.valueOf` and `Integer.parseInt`/`Long.parseLong`
  for ASCII digits).
- `path_syntax.dfy` (the splitters and joiners of `Path`).
- `path_tree.dfy` (the intern table).
- `path_matcher.dfy`.
- `media_object.dfy`.
- `media_source.dfy`.
- `picasa_source.dfy`.
- `path_examples.dfy` (worked instances).

A few behaviours of the code are easy to misread; the model keeps them as
written:

- The root node's own segment is `"ROOT"` (`new Path(null, "ROOT")`), while
  `clearAll` would install a root whose segment is `""`. `getSuffix` of the
  root therefore answers `"ROOT"`.
- `*` is an ordinary key of a matcher node's child map, not a separate
  wildcard slot. So a path segment that is literally `*` follows the `*`
  child as a literal and is not captured.
- `splitSequence("")` fails on `charAt(0)` with an index error before its
  own "bad sequence" check.
- The brace depth of the splitters may go negative, so `}{` is accepted as
  balanced.

The constants are the source's. One consequence: `MEDIA_TYPE_ALL`
(`IMAGE | VIDEO`) equals `MEDIA_TYPE_DRM_IMAGE` (6), so the DRM-image code
prints as `"all"`.

## Model

| member | source | states |
|---|---|---|
| PathSyntax.ScanSegment | src/com/android/gallery3d/data/Path.java:160-167 | the brace-counting scan of one segment never stops past the end of the text |
| PathSyntax.Split | src/com/android/gallery3d/data/Path.java:150-181 | `split("")` is `[]`; a non-empty literal not starting with `/` is "malformed path"; the only other failure is "unbalanced brace"; every returned segment scans alone to its end at depth 0 |
| PathSyntax.SplitSequence | src/com/android/gallery3d/data/Path.java:186-214 | `""` fails with an index error; a string not wrapped in `{` and `}` is "bad sequence"; the only other failure is "unbalanced brace"; every part scans alone to its end at depth 0 |
| PathSyntax.ScanStopsAtDelimiter | src/com/android/gallery3d/data/Path.java:162-167 | a scan that stops before the end stops on the delimiter at depth 0 |
| PathSyntax.ScanToEndLastChar | src/com/android/gallery3d/data/Path.java:162-167 | a scan that runs to the end at depth 0 did not end on a delimiter |
| PathSyntax.ScanConcat | src/com/android/gallery3d/data/Path.java:162-167 | a scan crossing all of `x` continues into `y` from the depth it reached |
| PathSyntax.ScanPrefix | src/com/android/gallery3d/data/Path.java:162-167 | scanning only the part a scan walked over repeats the same walk |
| PathSyntax.PlainScan | src/com/android/gallery3d/data/Path.java:162-167 | text with no brace and no delimiter scans to its end without changing the depth |
| PathSyntax.SplitBodyParts | src/com/android/gallery3d/data/Path.java:157-176 | every segment the outer loop cuts is a valid segment |
| PathSyntax.SplitBodyErrors | src/com/android/gallery3d/data/Path.java:169-171 | the outer loop fails only with "unbalanced brace" on the whole literal |
| PathSyntax.SplitBodyThenPrefixed | src/com/android/gallery3d/data/Path.java:157-176 | writing the cut segments back, each behind the delimiter, rebuilds the text except for one dropped trailing delimiter |
| PathSyntax.InterleaveThenSplitBody | src/com/android/gallery3d/data/Path.java:157-176 | valid parts written with delimiters between them, the last one non-empty, are cut back into exactly those parts |
| PathSyntax.SplitThenJoin | src/com/android/gallery3d/data/Path.java:150-181 | joining what `split` returned gives the literal less one trailing `/` |
| PathSyntax.SplitThenJoinExact | src/com/android/gallery3d/data/Path.java:150-181 | `split` then join gives the literal back exactly when it is empty or does not end in `/` |
| PathSyntax.JoinThenSplit | src/com/android/gallery3d/data/Path.java:150-181 | `split` of the joined segments gives them back when all are valid and the last is non-empty |
| PathSyntax.JoinSequenceThenSplit | src/com/android/gallery3d/data/Path.java:186-214 | `splitSequence` of `{a,b,c}` gives `[a, b, c]` back for valid parts with a non-empty last one |
| PathSyntax.SplitSequenceThenJoin | src/com/android/gallery3d/data/Path.java:186-214 | rejoining what `splitSequence` returned rebuilds the literal, less one trailing top-level `,` |
| Decimal.NatToString | src/com/android/gallery3d/data/Path.java:72-79 | the decimal text of a number is a non-empty run of digits |
| Decimal.DigitsOfNat | src/com/android/gallery3d/data/Path.java:72-79 | the digits printed for `n` have the value `n` |
| Decimal.ParseInteger | src/com/android/gallery3d/data/PathMatcher.java:70-76 | succeeds exactly on a numeral (an optional `-` or `+`, then at least one ASCII digit) whose signed value lies inside the bounds, and then returns that value; every failure is a number-format error carrying the text |
| Decimal.ParseIntegerOfIntToString | src/com/android/gallery3d/data/PathMatcher.java:70-76 | parsing the printed form of any in-bounds number gives the number back |
| Decimal.IntToStringInjective | src/com/android/gallery3d/data/Path.java:72-79 | two numbers print the same only if they are equal |
| Decimal.ParseIntNonNumerals | src/com/android/gallery3d/data/PathMatcher.java:70-72 | `"abc"`, `"+"` and `"12x"` are rejected |
| Decimal.ParseIntSignAndZeros | src/com/android/gallery3d/data/PathMatcher.java:70-72 | `"+7"` and `"007"` read as 7 |
| Decimal.ParseIntegerRange | src/com/android/gallery3d/data/PathMatcher.java:70-76 | the printed form of a number parses exactly when the number is inside the bounds, and is a number-format error otherwise |
| PathTree.InitialTree | src/com/android/gallery3d/data/Path.java:27 | the table starts with the root alone |
| PathTree.GetChild | src/com/android/gallery3d/data/Path.java:40-62 | the child has the receiver as parent and the segment as its own, and is filed under it; on a hit the table is unchanged; on a miss exactly one new unbound node is added; existing nodes keep their parents, segments, children and bindings |
| PathTree.AddChildKeepsValid | src/com/android/gallery3d/data/Path.java:58-59 | filing a new node keeps the table linked and adds exactly that node |
| PathTree.GetChildNumber | src/com/android/gallery3d/data/Path.java:72-79 | the child for a number is filed under exactly `String.valueOf` of it, text that `Long.parseLong` reads back as that number |
| PathTree.GetParent | src/com/android/gallery3d/data/Path.java:65-69 | the parent is absent exactly for the root, and otherwise files the node among its children |
| PathTree.SegmentsOf | src/com/android/gallery3d/data/Path.java:133-146 | the segments from the root are empty exactly for the root |
| PathTree.FromSegments | src/com/android/gallery3d/data/Path.java:124-127 | folding `getChild` over segments reaches a node whose segments are the start's plus those, and only extends the table |
| PathTree.ChildSegments | src/com/android/gallery3d/data/Path.java:40-62 | the child's segments are the parent's plus its own segment |
| PathTree.FromString | src/com/android/gallery3d/data/Path.java:121-130 | `fromString` fails exactly when `split` does, with its error; otherwise it only extends the table and the node's segments are the split of the literal |
| PathTree.SegmentsOfExtends | src/com/android/gallery3d/data/Path.java:29-30 | growing the table never changes an existing node's segments |
| PathTree.SegmentsOfSameShape | src/com/android/gallery3d/data/Path.java:29-31 | changing only bindings never changes any node's segments |
| PathTree.ChildUnique | src/com/android/gallery3d/data/Path.java:51-59 | two non-root nodes with the same parent and segment are the same node |
| PathTree.SegmentsOfInjective | src/com/android/gallery3d/data/Path.java:40-62 | two nodes with the same segments from the root are the same node (canonical identity) |
| PathTree.GetChildInterned | src/com/android/gallery3d/data/Path.java:51-56 | a second `getChild` with the same segment returns the same node and changes nothing |
| PathTree.FromSegmentsOfNode | src/com/android/gallery3d/data/Path.java:121-130 | walking a node's own segments from the root finds that node and creates nothing |
| PathTree.FromStringThenToString | src/com/android/gallery3d/data/Path.java:102-130 | `toString(fromString(s))` is `s` less one trailing `/`, so `s` itself for a canonical literal |
| PathTree.ToStringThenFromString | src/com/android/gallery3d/data/Path.java:102-130 | `fromString(toString(p))` is `p` with the table unchanged, when `p`'s segments are valid and the last is non-empty |
| PathTree.PrefixWalk | src/com/android/gallery3d/data/Path.java:227-229 | the climb ends at a node just below the root whose segments are the first segment of the start |
| PathTree.PrefixWalkIsAncestor | src/com/android/gallery3d/data/Path.java:227-229 | the climb ends at an ancestor-or-self of the start |
| PathTree.AncestorSegmentsPrefix | src/com/android/gallery3d/data/Path.java:133-146 | an ancestor's segments are a prefix of its descendant's |
| PathTree.GetPrefixPath | src/com/android/gallery3d/data/Path.java:221-232 | on the root it is `IllegalStateException`; otherwise an ancestor-or-self just below the root holding the path's first segment |
| PathTree.PrefixPathUnique | src/com/android/gallery3d/data/Path.java:221-232 | the prefix path is the only ancestor-or-self just below the root |
| PathTree.GetPrefix | src/com/android/gallery3d/data/Path.java:216-219 | `""` for the root, otherwise the first segment of the path |
| PathTree.GetSuffix | src/com/android/gallery3d/data/Path.java:235-238 | the node's own segment: the last of its segments, `"ROOT"` for the root |
| PathTree.ToString | src/com/android/gallery3d/data/Path.java:102-112 | the root prints as `""`; every other path is non-empty and starts with `/` |
| PathTree.ToStringOfChild | src/com/android/gallery3d/data/Path.java:102-112 | a child prints as its parent's text, a `/` and its own segment |
| PathTree.GetObject | src/com/android/gallery3d/data/Path.java:93-97 | an object is answered exactly when one is bound and still reachable, and it is the bound one |
| PathTree.Rebind | src/com/android/gallery3d/data/Path.java:88 | only the binding of the one node changes |
| PathTree.SetObject | src/com/android/gallery3d/data/Path.java:82-90 | fails the assertion exactly when the slot holds a reachable object; otherwise binds the object and leaves the shape and every other node as they were |
| PathTree.SetThenGetObject | src/com/android/gallery3d/data/Path.java:82-97 | after `setObject(o)`, `getObject` answers `o` while `o` is reachable and nothing once it is not |
| PathTree.RebindAfterReclaim | src/com/android/gallery3d/data/Path.java:82-90 | a second `setObject` succeeds once the first object is reclaimed and fails while it is reachable |
| PathTree.EqualsIgnoringCase | src/com/android/gallery3d/data/Path.java:115-118 | equal lengths and every character pair equal after lower-casing |
| PathTree.PathEqualsIgnoreCaseOwnString | src/com/android/gallery3d/data/Path.java:115-118 | a path equals its own literal, and its literal upper-cased, ignoring case |
| PathTree.PathEqualsIgnoreCase | src/com/android/gallery3d/data/Path.java:115-118 | true exactly when the path's text and `p` have the same length and agree character by character after lower-casing |
| PathMatcher.GetChild | src/com/android/gallery3d/data/PathMatcher.java:102-105 | a child is answered exactly when one is filed under the segment |
| PathMatcher.AddChild | src/com/android/gallery3d/data/PathMatcher.java:82-99 | the existing child for a known segment, a fresh `NOT_FOUND` node otherwise |
| PathMatcher.SetKind | src/com/android/gallery3d/data/PathMatcher.java:108-110 | the kind is replaced and the children are kept |
| PathMatcher.SetKindThenGetKind | src/com/android/gallery3d/data/PathMatcher.java:108-115 | `getKind` answers what the last `setKind` stored, `setKind` keeps every child, and storing the node's own kind changes nothing |
| PathMatcher.Add | src/com/android/gallery3d/data/PathMatcher.java:34-43 | `add` fails exactly when `split` of the pattern does; afterwards the pattern's own segments match the kind with no captures; the captures are untouched |
| PathMatcher.Match | src/com/android/gallery3d/data/PathMatcher.java:45-63 | the trie is unchanged, the captures are replaced by those of this walk from an empty list, and the kind is the walk's |
| PathMatcher.GetVar | src/com/android/gallery3d/data/PathMatcher.java:66-68 | the capture at the index, or an index error exactly when it is out of range |
| PathMatcher.GetIntVar | src/com/android/gallery3d/data/PathMatcher.java:70-72 | an index error for a bad index; otherwise succeeds exactly when the capture is a numeral inside the `int` range, with its value, and fails with a number-format error carrying the capture |
| PathMatcher.GetLongVar | src/com/android/gallery3d/data/PathMatcher.java:74-76 | an index error for a bad index; otherwise succeeds exactly when the capture is a numeral inside the `long` range, with its value, and fails with a number-format error carrying the capture |
| PathMatcher.InsertThenWalk | src/com/android/gallery3d/data/PathMatcher.java:34-63 | after inserting a pattern, walking its own segments gives its kind and adds no capture |
| PathMatcher.AddTwiceLastWins | src/com/android/gallery3d/data/PathMatcher.java:34-43 | re-adding a pattern overwrites its kind |
| PathMatcher.InsertResolve | src/com/android/gallery3d/data/PathMatcher.java:34-43 | after `add` every prefix of the pattern exists, the pattern has the new kind, other prefixes keep theirs, and every other key sequence resolves as before |
| PathMatcher.EmptyResolvesOnlyItself | src/com/android/gallery3d/data/PathMatcher.java:78-105 | a fresh node has no descendants and kind `NOT_FOUND` |
| PathMatcher.BuildResolve | src/com/android/gallery3d/data/PathMatcher.java:34-43 | the trie built by a list of `add` calls has a node exactly at the prefixes of the added patterns, each with the kind last added for it |
| PathMatcher.LastKindFound | src/com/android/gallery3d/data/PathMatcher.java:34-43 | a kind other than `NOT_FOUND` stored for a pattern came from an `add` of exactly that pattern |
| PathMatcher.WalkAgreesWithRefWalk | src/com/android/gallery3d/data/PathMatcher.java:45-63 | from any node of a built trie, the trie walk equals the literal-first, then `*`, no-backtracking walk stated on the added patterns |
| PathMatcher.MatchAgreesWithReference | src/com/android/gallery3d/data/PathMatcher.java:45-63 | `match` on a trie built by `add` calls equals that pattern-level walk |
| PathMatcher.WalkCaptures | src/com/android/gallery3d/data/PathMatcher.java:49-61 | the captures are exactly the segments taken through `*`, in order, also when the walk stops at a dead end; an early stop answers `NOT_FOUND`; a literal `*` segment is never captured |
| PathMatcher.FoundKindComesFromPattern | src/com/android/gallery3d/data/PathMatcher.java:45-63 | a found kind was added with a pattern that continues the route taken and covers the rest of the path |
| PathMatcher.MatchFoundIsCovered | src/com/android/gallery3d/data/PathMatcher.java:45-63 | a kind other than `NOT_FOUND` was added with a pattern that covers the path position by position, literally or through `*` |
| PathMatcher.StrictPrefixNotFound | src/com/android/gallery3d/data/PathMatcher.java:45-63 | with one pattern added, every shorter path answers `NOT_FOUND` |
| PathMatcher.AddThenMatchPath | src/com/android/gallery3d/data/PathMatcher.java:34-63 | `match(fromString(p))` after `add(p, k)` answers `k` and leaves no captures |
| PathExamples.SplitEmpty | src/com/android/gallery3d/data/Path.java:151-152 | `split("")` is `[]` |
| PathExamples.SplitRootOnly | src/com/android/gallery3d/data/Path.java:156-176 | `split("/")` is `[]` |
| PathExamples.SplitNoLeadingSlash | src/com/android/gallery3d/data/Path.java:153-155 | `split("a/b")` is "malformed path" |
| PathExamples.SplitKeepsBracedGroup | src/com/android/gallery3d/data/Path.java:157-176 | `split("/a/{b,c}/d")` is `["a", "{b,c}", "d"]` |
| PathExamples.SplitDoubleSlash | src/com/android/gallery3d/data/Path.java:157-176 | `split("//a")` is `["", "a"]` |
| PathExamples.SplitTrailingSlash | src/com/android/gallery3d/data/Path.java:157-176 | `split("/a/")` is `["a"]` |
| PathExamples.SplitUnbalanced | src/com/android/gallery3d/data/Path.java:160-171 | `split("/a/{b/c")` is "unbalanced brace" |
| PathExamples.SplitSequenceThree | src/com/android/gallery3d/data/Path.java:186-214 | `splitSequence("{foo,bar,baz}")` is `["foo", "bar", "baz"]` |
| PathExamples.SplitSequenceEmpty | src/com/android/gallery3d/data/Path.java:186-214 | `splitSequence("{}")` is `[]` |
| PathExamples.SplitSequenceNeedsBraces | src/com/android/gallery3d/data/Path.java:189-191 | a missing outer brace is "bad sequence" |
| PathExamples.LiteralBeforeWildcard | src/com/android/gallery3d/data/PathMatcher.java:49-60 | with `pic/*` to 1 and `pic/all` to 2: `pic/all` gives 2, `pic/42` gives 1 capturing `42`, `pic` gives `NOT_FOUND` |
| PathExamples.NoBacktracking | src/com/android/gallery3d/data/PathMatcher.java:50-58 | with `a/b/c` and `a/*/d`, `a/b/d` is `NOT_FOUND` though `a/*/d` would cover it |
| MediaObjects.SupportFlagsAreBits | src/com/android/gallery3d/data/MediaObject.java:28-46 | the 19 operation flags are the single bits 0 to 18 in order |
| MediaObjects.SupportFlagsDistinct | src/com/android/gallery3d/data/MediaObject.java:28-47 | the operation flags are pairwise disjoint and `SUPPORT_ALL` contains each |
| MediaObjects.MediaTypeAllIsDrmImage | src/com/android/gallery3d/data/MediaObject.java:51-56 | `MEDIA_TYPE_ALL` is 6, the same code as `MEDIA_TYPE_DRM_IMAGE` |
| MediaObjects.TypeFromString | src/com/android/gallery3d/data/MediaObject.java:166-171 | `"all"` gives 6, `"image"` 2 and `"video"` 4; it succeeds on no other text, which throws `IllegalArgumentException` with the text |
| MediaObjects.TypeString | src/com/android/gallery3d/data/MediaObject.java:174-181 | 2 prints as `"image"`, 4 as `"video"` and 6 as `"all"`; every other code throws `IllegalArgumentException` |
| MediaObjects.TypeFromStringThenString | src/com/android/gallery3d/data/MediaObject.java:166-181 | printing a parsed name gives the name back |
| MediaObjects.TypeStringThenFromString | src/com/android/gallery3d/data/MediaObject.java:166-181 | parsing a printed code gives the code back |
| MediaObjects.DrmImagePrintsAsAll | src/com/android/gallery3d/data/MediaObject.java:174-181 | the DRM-image code prints as `"all"`; the DRM-video and unknown codes throw |
| MediaObjects.InitialWorld | src/com/android/gallery3d/data/MediaObject.java:75 | no objects, nothing reachable, counter 0, the bare path table |
| MediaObjects.ObjectAt | src/com/android/gallery3d/data/Path.java:93-97 | an answered object is reachable and has this path |
| MediaObjects.OneLiveObjectPerPath | src/com/android/gallery3d/data/MediaObject.java:87-91 | two reachable objects never share a path |
| MediaObjects.LiveObjectIsFound | src/com/android/gallery3d/data/MediaObject.java:87-91 | a reachable object is what its path answers |
| MediaObjects.Intern | src/com/android/gallery3d/data/Path.java:121-130 | interning fails exactly when `fromString` does, changes only the table, and no existing path changes its answer |
| MediaObjects.ExtendKeepsValid | src/com/android/gallery3d/data/Path.java:40-62 | growing the table keeps the world consistent |
| MediaObjects.NextVersionNumber | src/com/android/gallery3d/data/MediaObject.java:161-163 | the result exceeds the old counter and is the new counter; nothing else changes |
| MediaObjects.VersionsCountUp | src/com/android/gallery3d/data/MediaObject.java:161-163 | successive calls return the counter plus 1, 2, 3 and so on, strictly increasing |
| MediaObjects.VersionsStartAtOne | src/com/android/gallery3d/data/MediaObject.java:75 | from process start the `k`-th call returns `k` |
| MediaObjects.NewMediaObject | src/com/android/gallery3d/data/MediaObject.java:87-91 | fails the assertion exactly when the path holds a reachable object; otherwise a fresh object with this path and version is created, reachable and bound to the path, and the table keeps its nodes |
| MediaObjects.NewMediaObjectLeavesOthers | src/com/android/gallery3d/data/MediaObject.java:87-91 | constructing an object changes the answer of no other path |
| MediaObjects.NewMediaObjectKeepsSegments | src/com/android/gallery3d/data/MediaObject.java:87-91 | constructing an object leaves every node and its segments as they were |
| MediaObjects.BindKeepsValid | src/com/android/gallery3d/data/MediaObject.java:87-91 | binding a fresh object to a path with no reachable object keeps the world consistent |
| MediaObjects.Reclaim | src/com/android/gallery3d/data/Path.java:93-97 | after the collector reclaims `o`, only the path bound to `o` stops answering it |
| MediaObjects.ConstructedDefaults | src/com/android/gallery3d/data/MediaObject.java:87-147 | a new object reports its path and version, no operations, unknown media type and no caching |
| MediaObjects.GetPath | src/com/android/gallery3d/data/MediaObject.java:94-96 | the path the object was made with |
| MediaObjects.GetDataVersion | src/com/android/gallery3d/data/MediaObject.java:141-143 | the version the object was made with |
| MediaObjects.GetSupportedOperations | src/com/android/gallery3d/data/MediaObject.java:99-101 | no `SUPPORT_` bit is set |
| MediaObjects.GetMediaType | src/com/android/gallery3d/data/MediaObject.java:132-134 | the unknown type, which has no name |
| MediaObjects.GetCacheFlag | src/com/android/gallery3d/data/MediaObject.java:145-147 | `CACHE_FLAG_NO` |
| MediaObjects.SecondObjectOnPath | src/com/android/gallery3d/data/Path.java:82-90 | a second object on a path fails while the first is reachable and succeeds once it is reclaimed |
| MediaSources.SourceDefaults | src/com/android/gallery3d/data/MediaSource.java:33-71 | the prefix is the constructor's; no path for a URI, no default set, zero cache sizes |
| MediaSources.GetPrefix | src/com/android/gallery3d/data/MediaSource.java:38-40 | the prefix the source was made with |
| MediaSources.FindPathByUri | src/com/android/gallery3d/data/MediaSource.java:43-45 | no path for any URI |
| MediaSources.GetDefaultSetOf | src/com/android/gallery3d/data/MediaSource.java:59-61 | no default set for any item |
| MediaSources.GetTotalUsedCacheSize | src/com/android/gallery3d/data/MediaSource.java:64-66 | zero |
| MediaSources.GetTotalTargetCacheSize | src/com/android/gallery3d/data/MediaSource.java:69-71 | zero |
| MediaSources.ResolveOne | src/com/android/gallery3d/data/MediaSource.java:96-107 | a live object is used as is with the world unchanged; otherwise the factory's result, a thrown exception giving no object |
| MediaSources.ReuseIgnoresFactory | src/com/android/gallery3d/data/MediaSource.java:99-100 | with a live object the step is the same whatever the factory, and changes nothing |
| MediaSources.Run | src/com/android/gallery3d/data/MediaSource.java:91-114 | the loop yields one outcome per item |
| MediaSources.MapMediaItems | src/com/android/gallery3d/data/MediaSource.java:91-114 | if no resolved object fails the `(MediaItem)` cast, the loop leaves the world of the recursive run and makes the `consume` calls of all its outcomes; otherwise it throws at the first item whose object fails the cast, with the world that item's step left and the calls of the items before it |
| MediaSources.CastsPassIff | src/com/android/gallery3d/data/MediaSource.java:91-112 | `CastsPass(k)`, which the loop uses to record that it got past the first `k` casts, holds exactly when none of those items fails the `(MediaItem)` cast |
| MediaSources.BadCastStep | src/com/android/gallery3d/data/MediaSource.java:98-112 | the cast of item `n` fails exactly when the step from the world before it yields an object that is not a `MediaItem` |
| MediaSources.ConsumedAreResolved | src/com/android/gallery3d/data/MediaSource.java:108-112 | the `consume` calls are exactly the resolved items, in input order, each with the item's own id and its object |
| MediaSources.ConsumedIff | src/com/android/gallery3d/data/MediaSource.java:108-112 | a resolved item has one `consume` call, made for its position, carrying its id and object; an item that did not resolve has no call |
| MediaSources.RunAppend | src/com/android/gallery3d/data/MediaSource.java:94-113 | later items start from the world the earlier ones left |
| MediaSources.RunStep | src/com/android/gallery3d/data/MediaSource.java:94-113 | item `n`'s outcome is one step from the world the first `n` items left |
| MediaSources.AllLiveReused | src/com/android/gallery3d/data/MediaSource.java:99-100 | when every path has a live object the world is unchanged and each item gets its path's object |
| MediaSources.FailingFactoryConsumesOnlyLive | src/com/android/gallery3d/data/MediaSource.java:101-105 | with a factory that always throws the world is unchanged and each item gets only its path's live object, if any |
| Picasa.PatternsSplit | src_pd/com/android/gallery3d/picasasource/PicasaSource.java:62-64 | the three patterns split into `picasa` and `all`, `image` or `video` |
| Picasa.NewPicasaSource | src_pd/com/android/gallery3d/picasasource/PicasaSource.java:55-65 | the prefix is `"picasa"`, there are no captures, and (by its type) the matcher is the trie of the three patterns |
| Picasa.ConstructorTrie | src_pd/com/android/gallery3d/picasasource/PicasaSource.java:61-64 | the three `add` calls build exactly that trie |
| Picasa.MatchAlbumSet | src_pd/com/android/gallery3d/picasasource/PicasaSource.java:61-64 | the matcher answers `PICASA_ALBUMSET` exactly for the three album-set paths and `NOT_FOUND` for every other |
| Picasa.CreateMediaObject | src_pd/com/android/gallery3d/picasasource/PicasaSource.java:85-92 | any other path is "bad path" with its text and changes nothing; an album-set path draws a version number, fails the assertion exactly when the path holds a reachable object, and otherwise creates an empty album set bound to the path with that version |
| Picasa.NewAlbumSet | src_pd/com/android/gallery3d/picasasource/PicasaSource.java:88 | the version number is drawn even when the construction then fails |
| Picasa.MapMediaItems | src/com/android/gallery3d/data/MediaSource.java:91-114 | the inherited loop with `getObject` as lookup, this source's `createMediaObject` and the cast against the objects' classes |
| Picasa.BatchItemResolves | src_pd/com/android/gallery3d/picasasource/PicasaSource.java:85-92 | in a batch an item resolves to an object exactly when its path holds a live object or is an album-set path |
| Picasa.CreatedAlbumSetFailsCast | src/com/android/gallery3d/data/MediaSource.java:98-112 | an item whose object this source had to create fails the `(MediaItem)` cast, because an `EmptyAlbumSet` is a `MediaSet`; an item that passes the cast resolved to the live object its path already held |
| Picasa.CreatedFailsCast | src_pd/com/android/gallery3d/picasasource/PicasaSource.java:67-92 | whatever the factory makes for a path with no live object is an album set, which is not a `MediaItem` |
| Picasa.CreatedAlbumSet | src_pd/com/android/gallery3d/picasasource/PicasaSource.java:67-82 | a created album set is named `"picasa"` and reloads to the version drawn for it, above every earlier one |
| Picasa.GetName | src_pd/com/android/gallery3d/picasasource/PicasaSource.java:73-75 | an empty album set is named `"picasa"` |
| Picasa.Reload | src_pd/com/android/gallery3d/picasasource/PicasaSource.java:78-80 | reloading an empty album set answers its own data version |
| Picasa.IsPicasaImage | src_pd/com/android/gallery3d/picasasource/PicasaSource.java:98-100 | no object is a Picasa image |
| Picasa.AlbumPath | src_pd/com/android/gallery3d/picasasource/PicasaSource.java:52 | `ALBUM_PATH` is a node with segments `picasa`, `all` that prints as `/picasa/all` |
| Picasa.InternAllPattern | src_pd/com/android/gallery3d/picasasource/PicasaSource.java:52 | `fromString("/picasa/all")` succeeds and prints back as itself |
| Picasa.CreateTwice | src_pd/com/android/gallery3d/picasasource/PicasaSource.java:85-92 | on a free album-set path the first creation succeeds; a second one while it is reachable fails the assertion and only draws a version number |

## Left out

- Threads: `synchronized (Path.class)`, `DataManager.LOCK` and the
  synchronized `nextVersionNumber`. Each operation is modelled as atomic.
- Garbage collection: the `WeakReference` in each node is a binding plus
  the world's set of reachable objects. `MediaObjects.Reclaim` takes an
  object out of that set; when the collector runs is not modelled.
- `IdentityCache`: it is not part of this model. A node's children are a
  plain map, so the model does not drop children the cache may lose.
- `clearAll`, `dumpAll` and all logging: debugging aids with no
  effect on the modelled state.
- The class hierarchy below `MediaObject`: only as much of it as the
  `(MediaItem)` cast needs. `MediaObjects.MediaClass` tells a `MediaItem`
  subclass (`Item`) from an `EmptyAlbumSet` and from any other subclass,
  and a `consume` call carries the object id.
- `Uri`, `Context`, `ParcelFileDescriptor`, `GalleryApp`, `pause` and
  `resume`: platform types and no-op hooks. `FindPathByUri` takes the URI
  as plain text.
- `createMediaObject` in `MediaSource` is abstract: the loop takes it as a
  parameter.
- The `UnsupportedOperationException` stubs of `MediaObject` and
  `PicasaSource`, `getPanoramaSupport`, `getDetails`, and the no-op static
  helpers of `PicasaSource`: they carry no state and no logic.
- `MediaSet` is not part of this model. `EmptyAlbumSet` is an object of
  class `EmptyAlbumSet` constructed through the `MediaObject` constructor.
- MediaObjects.NextVersionNumber: does not model the 64-bit wrap-around of
  `sVersionSerial`, because about 2^63 calls would be needed to reach it.
- Decimal.ParseInteger: reads ASCII digits only. The non-ASCII Unicode
  digits that `Integer.parseInt` also accepts are not modelled.
- PathTree.EqualsIgnoringCase: folds ASCII letters only, not the full
  Unicode case mapping of `String.equalsIgnoreCase`.
- PathTree.PathEqualsIgnoreCase: inherits the ASCII-only folding of
  `PathTree.EqualsIgnoringCase`.
- PathMatcher.GetIntVar and PathMatcher.GetLongVar: inherit the ASCII-only
  digits of `Decimal.ParseInteger`.
- Picasa.CreateMediaObject: the captures that `match` leaves in the
  source's matcher are not kept. `createMediaObject` never reads them, and
  the value model of the source is not updated by the call. The answer for
  a node id that is not in the table (`BadPath("")`) has no Java
  counterpart, since every Java `Path` is in the tree.
