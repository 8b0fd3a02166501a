# rmKit UV: a verified model of its discrete core

rmKit UV is a Blender add-on of UV tools. This project models in Dafny the parts of it that are discrete logic rather than floating-point numerics, and proves properties of them:

- **The hotspot atlas file (`.hot`)** (`HotFile`, `BigEndian`, `Utf8`). The file is big-endian. A MAT chunk holds the material groups and a HOT chunk holds the hotspots. Reading is modelled as loops that thread an offset through a byte buffer. Writing is modelled as the bytes the file receives. The round trip is proved, along with the offset accounting and every failure path.
- **Rectangles and hotspots** (`Bounds`, `Hotspots`):
  - `Bounds2d` is a class. Its constructor, `inset` and the material-aspect setter change its fields. Its arithmetic (clamp, normalized, inside, overlap, area) is functions on a `Rect` value.
  - The 16-bit fixed-point encoding of rectangles and the area filter of `Hotspot`.
  - `Hotspot.nearest`.
- **The hotspot database edits** (`HotspotDatabase`). The save-hotspot and reference-hotspot operators edit two parallel lists, material groups and hotspots.
- **The rectangularize operator's topology helpers**, over an abstract half-edge mesh (`HalfEdge`):
  - boundary classification and the boundary-chain walk (`Boundary`);
  - the greedy shortest path that cuts cylinders open (`ShortestPath`);
  - the seam-aware relaxation patches and their relax-vertex registry (`Relax`);
  - the index bookkeeping of the LSCM solve: triangle fans, pins, free-column compaction, write-back (`LscmIndex`);
  - the bounding box and refit (`BBox`);
  - the corner-segment accumulation (`CornerSegments`).
- **UV loop and ring selection** (`LoopRing`). These are recursive walks that use loop tags as their visited set.
- **Move to furthest** (`MoveToFurthest`) and **seam by angle** (`SeamByAngle`). Both are in-place passes over a UV array and an edge-flag array.

Mesh topology is an immutable datatype of index sequences: loop to next, previous, vertex, edge and face; edge to faces; vertex to edges, faces and loops. Tag bits and UVs, which the source updates in place, are arrays. Coordinates and lengths are exact reals. UV comparisons are exact.

## Model

| member | source | states |
|---|---|---|
| BBox.Extent | rectangularize.py:147-153 | every point lies inside the folded box; each bound is its ±99999.0 start value or the matching coordinate of some point |
| BBox.BBoxFromPoints | rectangularize.py:146-157 | the result is the unit square, or a box holding every point that is wider and taller than the epsilon; with a non-negative epsilon it is never flat |
| BBox.BBoxDegenerate | rectangularize.py:145-156 | with a non-negative epsilon and every point inside the ±99999.0 start values, points that spread by at most epsilon in x or in y (none at all included) give the unit square |
| BBox.BBoxKept | rectangularize.py:145-157 | conversely, points inside the start values that spread by more than epsilon in both x and y keep their folded box: it holds every point, is wider and taller than epsilon, and each of its four sides touches a point |
| BBox.FitIdentity | rectangularize.py:167-196 | the refit matrix with the current box equal to the initial box leaves every point where it is |
| BBox.FitCorners | rectangularize.py:167-196 | without `uniform`, the refit maps the current box's min and max corners onto the initial box's |
| BBox.CornerUVs | rectangularize.py:163-164 | the UVs of a face's first n corners, in winding order |
| BBox.GatherUVs | rectangularize.py:161-164 | the gathered coordinates are every corner UV of the faces, face by face |
| BBox.FitToBBox | rectangularize.py:160-202 | fails exactly when the initial width is zero (the division of line 178); otherwise every corner of the faces gets the refit of its old UV, once, and every other UV is unchanged |
| BBox.FitFace | rectangularize.py:197-202 | one face's corners move to their refit UVs; the corners of other faces keep their state |
| BigEndian.PackU32 | hotspot.py:589 | '>I' packs a number below 2^32 into exactly four bytes |
| BigEndian.UnpackU32 | hotspot.py:75 | '>I' reads a value below 2^32, and succeeds exactly when four bytes remain at the offset |
| BigEndian.PackU16 | hotspot.py:141-144 | '>H' packs a number below 2^16 into exactly two bytes |
| BigEndian.UnpackU16 | hotspot.py:385 | '>H' reads a value below 2^16, and succeeds exactly when two bytes remain at the offset |
| BigEndian.Digits32 | hotspot.py:589 | the four packed bytes, most significant first, spell the number back |
| BigEndian.U32At | hotspot.py:75 | a packed '>I' found at an offset unpacks to the same number (round trip) |
| BigEndian.U16At | hotspot.py:385 | a packed '>H' found at an offset unpacks to the same number (round trip) |
| Bounds.HasAreaIff | hotspot.py:183-184 | the area is positive exactly when width and height are both positive or both negative |
| Bounds.FoldCovers | hotspot.py:124-127 | the min/max fold covers its start and every point, and each bound is the start's or some point's |
| Bounds.BoundsOfCovers | hotspot.py:114-127 | no points give the unit square; otherwise min <= every point <= max, and each bound is attained by a point |
| Bounds.InsidePositive | hotspot.py:245-247 | a rectangle that strictly contains a point has positive width, height and area |
| Bounds.OverlapFacts | hotspot.py:249-259 | overlap and overlapping area are symmetric; ordered overlapping rectangles have non-negative overlapping area; a contained rectangle overlaps with its own area |
| Bounds.TwoPoints | hotspot.py:218 | rebuilding bounds from a rectangle's two corners re-sorts them into min and max |
| Bounds.ClampInUnit | hotspot.py:217-233 | a clamped rectangle is ordered and lies in the unit square |
| Bounds.ClampKeepsUnit | hotspot.py:217-233 | clamping leaves an ordered rectangle of the unit square unchanged (unless its min is on the far edge) |
| Bounds.NormalizedCentered | hotspot.py:235-243 | a normalized rectangle is ordered, keeps its width and height, and has its center in [0,1)² |
| Bounds.InsetShrinks | hotspot.py:331-335 | inset keeps the center, shrinks the width by 2·f·aspect and the height by 2·f |
| Bounds.Fixed | hotspot.py:141-144 | int(x·32768) truncated toward zero and wrapped by c_ushort is below 2^16 |
| Bounds.RectBytes | hotspot.py:140-144 | a rectangle's bytes are exactly eight, min x, min y, max x, max y |
| Bounds.FixedOnGrid | hotspot.py:141-144 | a multiple of 1/32768 in [0,1] survives the fixed-point encoding and decoding unchanged |
| Bounds.Bounds2d.constructor | hotspot.py:114-132 | the new bounds are the fold of the points (the unit square without points); material aspect and the cached orientation follow the keyword argument |
| Bounds.Bounds2d.SetMaterialAspect | hotspot.py:212-215 | the corners stay; the aspect is stored and the orientation recomputed from it |
| Bounds.Bounds2d.Inset | hotspot.py:331-335 | the corners become the inset rectangle; aspect and orientation are untouched |
| Bounds.Bounds2d.Clamp | hotspot.py:217-233 | a fresh object holding the clamped rectangle, with default aspect |
| Bounds.Bounds2d.Normalized | hotspot.py:235-243 | a fresh object holding the normalized rectangle, with default aspect |
| Hotspots.PositiveAppend | hotspot.py:343-345 | the area filter distributes over concatenation, so kept rectangles keep their order |
| Hotspots.PositiveExact | hotspot.py:343-345 | exactly the rectangles of positive area are kept, none is invented, and an all-positive list is kept whole |
| Hotspots.NewHotspot | hotspot.py:339-350 | the new hotspot has the given name and the rectangles of positive area |
| Hotspots.RectsBytes | hotspot.py:371-372 | the rectangles' bytes are eight per rectangle |
| Hotspots.HotspotBytes | hotspot.py:369-373 | the byte form exists exactly when the count fits '>I', and is 4 + 8n bytes long |
| Hotspots.RectsAt | hotspot.py:384-389 | n rectangles read from n consecutive 8-byte records |
| Hotspots.Unpack | hotspot.py:380-390 | the loop returns what the reading specification gives: the hotspot of the rectangles read and the offset past them, or failure when bytes run out |
| Hotspots.RectRoundTrip | hotspot.py:380-390 | an ordered rectangle with grid corners is read back equal from its own bytes |
| Hotspots.RectsBytesEach | hotspot.py:371-372 | rectangle i's bytes sit 8·i bytes into the rectangles' bytes |
| Hotspots.UnpackOk | hotspot.py:380-390 | a count, room for that many records and the records read give the unnamed hotspot of their positive rectangles |
| Hotspots.UnpackRoundTrip | hotspot.py:369-390 | a hotspot's bytes, wherever they sit, unpack to its rectangles of positive area and move the offset past 4 + 8n bytes |
| Hotspots.Wrap | hotspot.py:472-473 | u and v reduced into [0,1), each by a whole number |
| Hotspots.LeastIsMin | hotspot.py:482-486 | the running strict minimum is at most its start and every element, and is one of them |
| Hotspots.FirstInside | hotspot.py:479-481 | the first rectangle strictly containing the point, or none exactly when no rectangle does |
| Hotspots.Best | hotspot.py:477-489 | the chosen index is among the first n, or 0 |
| Hotspots.BestIsNearest | hotspot.py:477-489 | the chosen rectangle has the least corner distance, every earlier one is strictly farther, and without any near one it is the first |
| Hotspots.Nearest | hotspot.py:470-491 | none exactly for a hotspot without rectangles; else the first rectangle containing the reduced point, or the first of least corner distance |
| Hotspots.NearestCorner | hotspot.py:482-486 | the corner loop returns the capped least squared corner distance |
| HalfEdge.Mesh.OtherVert | rectangularize.py:24 | the other end of an edge, given either end |
| HalfEdge.SharedEdge | rectangularize.py:284-289 | none exactly when no edge of p1 lists p2 among its faces; otherwise one of p1's edges |
| HalfEdge.FirstEdgeWithFace | rectangularize.py:285-289 | the first edge of the list whose faces include p, or none exactly when no edge does |
| HalfEdge.SharedEdgeSymmetric | rectangularize.py:284-289 | on a mesh whose edge-face lists agree with the loops, whether two faces share an edge does not depend on the order they are asked in |
| Boundary.AnyOtherUntagged | rectangularize.py:245-247 | true exactly when some face of the edge other than the loop's own is untagged |
| Boundary.IsBoundaryIff | rectangularize.py:241-248 | a loop is on the boundary iff its edge is a seam or a mesh boundary, or another face of the edge is untagged |
| Boundary.GetBoundaryLoops | rectangularize.py:250-256 | the result is exactly the boundary loops of the given faces |
| Boundary.OtherFace | rectangularize.py:85-87 | the face the for/break leaves behind: a face of the edge, and not the loop's own face when another exists |
| Boundary.LoopOnEdge | rectangularize.py:88-91 | the first loop of the face on the edge, or none exactly when no loop is on it |
| Boundary.Across | rectangularize.py:84-91 | the loop across lies on the same edge, in the face the scan leaves behind |
| Boundary.AcrossLeavesFace | rectangularize.py:85-87 | away from the mesh boundary the loop across lies in another face |
| Boundary.NextBoundaryLoop | rectangularize.py:80-95 | returns the next loop itself when that is a boundary loop; on a consistently wound mesh the result starts at the vertex where the loop ends |
| Boundary.NextStepKeepsVert | rectangularize.py:88-90 | crossing and stepping forward keeps the walk at the vertex it turns around |
| Boundary.PrevStepKeepsVert | rectangularize.py:107-109 | crossing and stepping backward keeps the walk ending at the vertex it turns around |
| Boundary.AllEndAtExtend | rectangularize.py:110 | appending a loop that ends at the vertex keeps every collected loop ending there |
| Boundary.PrevBoundaryLoops | rectangularize.py:98-115 | the list starts with the previous loop, is only that loop when it is a boundary loop, and on a consistently wound mesh every loop in it ends where the given loop starts |
| Boundary.ChainLast | rectangularize.py:128-131 | a loop starting where the chain ends extends the chain at the end |
| Boundary.ChainFirst | rectangularize.py:134-138 | a loop ending where the chain starts extends the chain at the start |
| Boundary.PlaceLast | rectangularize.py:129-131 | appending a still-tagged loop and untagging it keeps the chain's invariant |
| Boundary.PlaceFirst | rectangularize.py:136-138 | inserting a still-tagged loop at the front and untagging it keeps the chain's invariant |
| Boundary.TagLoops | rectangularize.py:120-121 | afterwards a loop is tagged iff it was tagged before or is in the list |
| Boundary.GrowChain | rectangularize.py:127-138 | one round keeps the chain's invariant and its chaining |
| Boundary.SortLoopChain | rectangularize.py:118-143 | the chain holds the first loop, has no repetitions, draws on the given loops (or loops tagged on entry), untags exactly the placed loops, and meets vertex to vertex on a consistently wound mesh |
| Boundary.SortedChainBound | rectangularize.py:118-143 | without extra tagged loops the chain is no longer than the given loops |
| ShortestPath.Neighbor | rectangularize.py:24 | the vertex across an edge of `c` is another vertex joined to `c` by an edge |
| ShortestPath.MeasureStep | rectangularize.py:38-39 | untagging the current vertex and moving to a tagged neighbour lowers the termination measure by one |
| ShortestPath.MeasurePositive | rectangularize.py:19-20 | the measure of the starting state is at least one |
| ShortestPath.SetTags | rectangularize.py:7-8 | afterwards the vertices of the list carry the given tag and every other vertex keeps its tag |
| ShortestPath.StartDistances | rectangularize.py:11-14 | the table has a key for each listed vertex and the source; the source maps to 0 and every other key to the float maximum |
| ShortestPath.NeighborsOf | rectangularize.py:23-24 | one neighbour per edge of `c`, in edge order, each another vertex |
| ShortestPath.Relax | rectangularize.py:21-35 | distances keep their keys and never rise; every lowered one is the current distance plus an edge length; each tagged neighbour ends at most that offer; the chosen neighbour is none exactly when no tagged neighbour is below the float maximum, otherwise the first tagged neighbour of least distance |
| ShortestPath.Expand | rectangularize.py:18-41 | the expansion keeps the keys, keeps the source at 0, keeps every distance between 0 and where it started, only untags, and takes fewer steps than the measure of its starting state |
| ShortestPath.NearestEnd | rectangularize.py:43-50 | none exactly when no end vertex is below the float maximum; otherwise the first end vertex of least distance |
| ShortestPath.PrevNeighbor | rectangularize.py:56-67 | none exactly when no untagged neighbour with a distance lies strictly below `v`; otherwise the first such neighbour of least distance |
| ShortestPath.BelowShrinks | rectangularize.py:63 | stepping to a vertex of smaller distance leaves fewer vertices below it (the walk terminates) |
| ShortestPath.ChainSnoc | rectangularize.py:68-71 | extending the walk by a candidate neighbour keeps it a chain of edges with strictly falling distances |
| ShortestPath.WalkBack | rectangularize.py:52-71 | the walk is empty iff it starts at the source, starts at the given vertex, never contains the source, is a chain of edges with falling distances, and ends beside the source or where no candidate is left |
| ShortestPath.ReversedChain | rectangularize.py:72-77 | the reversed walk starts at the source, ends at the start vertex, and after the source rises in distance one edge at a time |
| ShortestPath.ShortestPath | rectangularize.py:6-77 | empty exactly when no end vertex was reached; otherwise it runs from the source to a reached end vertex along edges with rising distances and clears every tag; the expansion takes at most as many steps as there are vertices |
| Relax.Register | rectangularize.py:261-281 | the registry after an answer: the chosen entry gains the polygon, or one new entry for the vertex is appended; other entries are unchanged |
| Relax.RegisterOk | rectangularize.py:268-281 | registering at the first entry that takes the polygon keeps the registry well formed (positions, ranges, one entry per untagged vertex) |
| Relax.UntaggedVertexOnce | rectangularize.py:278-280 | a vertex off the seams has at most one relax vertex |
| Relax.JoinsSomePolygon | rectangularize.py:273-277 | true exactly when some polygon of the set shares no edge with `p` or shares a non-seam edge first |
| Relax.Registry.constructor | rectangularize.py:259 | the registry starts empty |
| Relax.Registry.GetRelaxVert | rectangularize.py:267-281 | the answer is the first entry that takes the polygon at the vertex, or a new entry; the registry is updated accordingly and stays well formed |
| Relax.Registry.Clear | rectangularize.py:332 | the registry is empty afterwards |
| Relax.TagSeamEnds | rectangularize.py:293-299 | afterwards a vertex is tagged iff it was tagged before or ends a seam edge of one of the polygons |
| Relax.Consider | rectangularize.py:318-327 | the polygon is tagged and queued exactly when it was untagged, is one of the polygons and the fill may spread to it; otherwise nothing changes |
| Relax.SeamEndStep | rectangularize.py:294-299 | the seam ends of one more polygon are those before plus the seam ends among its loops |
| Relax.ScanAround | rectangularize.py:317-327 | the worklist only grows; the faces added are exactly the untagged polygons around the vertex that the fill may reach, and exactly they become tagged |
| Relax.GrowsTrans | rectangularize.py:276-279 | registry growth is transitive |
| Relax.CornersExtend | rectangularize.py:313-315 | one more corner mapped to an entry of its vertex holding the polygon extends the relax polygon |
| Relax.RelaxPolyGrows | rectangularize.py:312-315 | a relax polygon stays valid while the registry grows |
| Relax.ProcessPolygon | rectangularize.py:312-327 | the registry stays well formed and grows; the relax polygon maps every corner of `p`; newly queued faces were untagged polygons of the list and exactly they become tagged |
| Relax.FillMeasure | rectangularize.py:309-327 | the worklist measure does not rise when faces move from untagged to queued |
| Relax.FillStep | rectangularize.py:310-329 | processing a popped polygon moves it to the visited ones, queues the newly tagged, and keeps the visited polygons distinct |
| Relax.QueuedTagged | rectangularize.py:326-327 | queued polygons are tagged |
| Relax.AllMappedGrows | rectangularize.py:329 | every visited polygon keeps its relax polygon as the registry grows |
| Relax.GrowStart | rectangularize.py:304-307 | tagging the start polygon and queueing it establishes the fill invariant |
| Relax.GrowStep | rectangularize.py:309-329 | one turn of the worklist loop keeps the fill invariant and lowers its measure |
| Relax.GrowPatch | rectangularize.py:301-329 | the start polygon is visited, every visited polygon is visited once, was untagged and is in the list, exactly the visited ones become tagged, and each has a relax polygon over a well-formed registry |
| Relax.YieldSkip | rectangularize.py:302-303 | an already tagged polygon yields nothing |
| Relax.YieldStep | rectangularize.py:304-332 | the patch grown from an untagged polygon is appended and its faces are tagged |
| Relax.LscmPatches | rectangularize.py:292-332 | seam ends are tagged; every polygon untagged on entry lands in exactly one patch and no other polygon does; each patch is well formed; the registry is empty afterwards |
| LscmIndex.Fan | rectangularize.py:348-352 | three indices per fan triangle: n-2 triangles for n >= 3 corners, none otherwise |
| LscmIndex.FanIndex | rectangularize.py:350-352 | triangle t of the fan is (rp[0], rp[t+1], rp[t+2]) |
| LscmIndex.FanPrefix | rectangularize.py:351-352 | the first n fan triangles hold 3n indices |
| LscmIndex.FanPrefixIndex | rectangularize.py:351-352 | triangle t of the first n is (rp[0], rp[t+1], rp[t+2]) |
| LscmIndex.PatchTriangles | rectangularize.py:346-352 | the triangle list is the fans of the relax polygons, in order |
| LscmIndex.AppendFan | rectangularize.py:350-352 | the list gains exactly the fan of the polygon |
| LscmIndex.TrisLength | rectangularize.py:386 | a patch yields three indices per triangle, so `tcount` is exact |
| LscmIndex.TrisCorners | rectangularize.py:347-352 | every triangle index is a corner of one of the patch's relax polygons |
| LscmIndex.PatchCornersInRegistry | rectangularize.py:400-405 | in a well-formed patch every triangle index names a registry entry, so the coordinate lookups are in range |
| LscmIndex.FindPin | rectangularize.py:366-374 | true exactly when a loop of the vertex inside one of its polygons is pinned |
| LscmIndex.PinnedOfExact | rectangularize.py:363-374 | the pinned positions are exactly the entries with a pin, strictly increasing, with no repetition |
| LscmIndex.ChoosePins | rectangularize.py:363-383 | none exactly for an empty registry (the IndexError); the pinned positions when there are at least two, otherwise the first and last entry |
| LscmIndex.PinsDistinct | rectangularize.py:377-388 | the chosen pins of a registry of at least two entries are at least two distinct positions in it |
| LscmIndex.SingleEntryPins | rectangularize.py:377-383 | a registry of one entry has fewer than two pinned positions, so its pins are that entry twice and coincide |
| LscmIndex.CountPinsBelow | rectangularize.py:433-436 | the count is the number of pins below the position |
| LscmIndex.Free | rectangularize.py:471-477 | lists exactly the unpinned positions below n |
| LscmIndex.FreeIncreasing | rectangularize.py:471 | the unpinned positions come in increasing order |
| LscmIndex.BelowStep | rectangularize.py:433-436 | with distinct pins, raising the bound by one counts n once if it is a pin |
| LscmIndex.BelowZero | rectangularize.py:433-436 | no pin lies below zero |
| LscmIndex.BelowAll | rectangularize.py:433-436 | when every pin lies below n all pins count |
| LscmIndex.FreeColumns | rectangularize.py:437-438 | the k-th unpinned position gets column k, and there are n minus the pins below n of them |
| LscmIndex.ColumnBijection | rectangularize.py:433-440 | `vidx - pin_count` maps the unpinned positions one-to-one onto the free columns 0 .. vcount-1 |
| LscmIndex.ColumnInRange | rectangularize.py:437-440 | an unpinned position's column indexes the free matrices |
| LscmIndex.ScatterSkip | rectangularize.py:476-477 | a pinned position writes nothing |
| LscmIndex.ScatterWrite | rectangularize.py:478-483 | an unpinned position writes its column into the u of every loop it claims |
| LscmIndex.ScatterU | rectangularize.py:470-483 | with the v axis constrained, every loop claimed by an unpinned relax vertex takes u from its last claimant's column; v and unclaimed loops are untouched |
| LscmIndex.WriteClaimed | rectangularize.py:478-483 | exactly the loops the relax vertex claims get the new u, keeping their v |
| CornerSegments.SumAppend | rectangularize.py:690 | the running sum distributes over concatenation |
| CornerSegments.SplitStep | rectangularize.py:685-690 | one step of the walk either opens a segment at a corner or extends the last one by the step's length |
| CornerSegments.AddToLast | rectangularize.py:690 | only the last segment changes, by the added length |
| CornerSegments.SplitSum | rectangularize.py:679-690 | the segments between corners add up to the whole perimeter |
| CornerSegments.SplitCount | rectangularize.py:685-686 | when the walk starts on a corner there is one segment per corner met, at least one |
| CornerSegments.IndexOf | rectangularize.py:681 | `list.index`: none exactly when the value is absent, otherwise the first position holding it |
| CornerSegments.ModWrap | rectangularize.py:683 | below twice the count, `%` is at most one subtraction |
| CornerSegments.Step | rectangularize.py:683 | the walk's position is in range and wraps around once |
| CornerSegments.WalkedStep | rectangularize.py:682-683 | each step adds exactly its own position to the walked ones |
| CornerSegments.Rotated | rectangularize.py:682-688 | one length per sorted loop, in walk order |
| CornerSegments.CornerFlags | rectangularize.py:685 | one corner flag per sorted loop, in walk order |
| CornerSegments.Lengths | rectangularize.py:689 | one length per sorted loop, in list order |
| CornerSegments.RotatedSum | rectangularize.py:682-690 | walking once around from any start visits every length once, so the total is the same |
| CornerSegments.CornerDistances | rectangularize.py:677-690 | fails exactly when the corner list is empty or its first corner is not a boundary loop; otherwise the edge lengths land at their own positions and the segments are the running sums between corners in walk order |
| CornerSegments.Walk | rectangularize.py:682-690 | the walk's two lists are the lengths in list order and the split of the rotated lengths at the corners |
| CornerSegments.CornerDistancesSum | rectangularize.py:677-697 | the segments add up to the perimeter and there is one per corner met, at least one |
| HotFile.TagsEncode | hotspot.py:5-6 | the chunk tags are the UTF-8 bytes of "MAT" and "HOT" |
| HotFile.ReadTag | hotspot.py:70 | reading a tag fails with struct.error exactly when fewer than three bytes remain and otherwise fails only with a decode error; a tag read holds one to three characters |
| HotFile.ReadString | hotspot.py:83-87 | a name fails with struct.error when its size field does not fit, and only with struct.error or a decode error; a name read ends after its size field and as many bytes as that field says, inside the buffer |
| HotFile.ReadGroup | hotspot.py:79-88 | a group fails with struct.error when its count field does not fit; a group read holds as many names as its count field says |
| HotFile.ReadTagExact | hotspot.py:70-72 | a three-byte tag reads as a name exactly when the bytes are that name's encoding |
| HotFile.StringsErr | hotspot.py:82-87 | once a name fails to read, reading more names fails the same way |
| HotFile.GroupsErr | hotspot.py:78-88 | once a group fails to read, reading more groups fails the same way |
| HotFile.GroupFails | hotspot.py:78-88 | a failure inside any group is the failure of the whole chunk |
| HotFile.LoadStrings | hotspot.py:82-87 | the inner loop over one group's names computes exactly the names' specification, failures included |
| HotFile.ChunkHeaderAt | hotspot.py:70-76 | a chunk's tag and count, written wherever they sit, read back as the chunk's name and count |
| HotFile.LoadMatSubchunk | hotspot.py:59-89 | the loop over groups, with `LoadStrings` as its inner loop, computes exactly the chunk's specification, failures included |
| HotFile.StringsAdvance | hotspot.py:82-87 | reading k names yields k names and advances by 4 bytes plus the bytes of each |
| HotFile.GroupsAdvance | hotspot.py:78-88 | reading k groups yields k groups and advances by their count fields and names |
| HotFile.MatAdvance | hotspot.py:59-89 | a MAT chunk loads only when its tag bytes are "MAT"; it yields as many groups as its count, ending after 7 header bytes and the groups |
| HotFile.ReadHotspots | hotspot.py:107-109 | reading k hotspots yields k of them |
| HotFile.ReadHotspotsMore | hotspot.py:107-109 | reading k hotspots, the last one after the rest, yields k of them |
| HotFile.HotSpec | hotspot.py:92-110 | a HOT chunk that loads yields as many hotspots as its count field says |
| HotFile.HotTagged | hotspot.py:100-102 | a HOT chunk loads only when its tag bytes are "HOT" |
| HotFile.HotspotsErr | hotspot.py:107-109 | once a hotspot fails to unpack, reading more fails the same way |
| HotFile.LoadHotChunk | hotspot.py:92-110 | the loop computes exactly the chunk's specification, failures included |
| HotFile.ReadHotFile | hotspot.py:604-619 | reads the MAT chunk when the file starts with one, then the HOT chunk when one follows; other tags leave the lists empty |
| HotFile.WriteBytes | hotspot.py:582-601 | fails with the RuntimeError exactly when the two lists differ in length, with struct.error exactly when they agree but a count or size exceeds '>I', and otherwise writes 14 bytes of chunk headers plus the groups' and hotspots' bytes, starting with "MAT" |
| HotFile.StringsBytesLength | hotspot.py:592-595 | a group's names take 4 bytes each plus as many as each size field says |
| HotFile.GroupsBytesLength | hotspot.py:590-595 | the groups take 4 bytes each plus their names' bytes |
| HotFile.HotspotsBytesLength | hotspot.py:600-601 | the hotspots take 4 + 8n bytes each |
| HotFile.WriteHotFileAsWritten | hotspot.py:582-601 | succeeds exactly for lists of one length whose counts and character counts fit '>I', and writes 14 header bytes plus the groups, each name taking as many bytes as it has characters, plus the hotspots |
| HotFile.WriteHotFile | hotspot.py:582-601 | with sizes in bytes: succeeds exactly for lists of one length whose counts and byte counts fit '>I', and writes 14 header bytes plus the groups and the hotspots |
| HotFile.Fit | hotspot.py:595 | `'>{n}s'` packs exactly n bytes, the first n of the input when it is long enough |
| HotFile.ReadStringOk | hotspot.py:83-87 | a size field and that many bytes decoding to s read as s |
| HotFile.StringAt | hotspot.py:83-87 | a name written with its byte count reads back as itself |
| HotFile.StringsSnoc | hotspot.py:82-87 | all names but the last read back, then the last: all read back |
| HotFile.StringsAt | hotspot.py:82-87 | a group's names, written wherever they sit, read back |
| HotFile.ReadGroupOk | hotspot.py:79-88 | a count field, then that many names: the group reads back |
| HotFile.GroupAt | hotspot.py:79-88 | a group written wherever it sits reads back as itself |
| HotFile.GroupsSnoc | hotspot.py:78-88 | all groups but the last read back, then the last: all read back |
| HotFile.GroupsAt | hotspot.py:78-88 | the groups written wherever they sit read back |
| HotFile.HotspotsSnoc | hotspot.py:107-109 | all hotspots but the last read back, then the last: all read back |
| HotFile.HotspotsAt | hotspot.py:107-109 | the hotspots written wherever they sit read back unnamed, with their rectangles of positive area |
| HotFile.Reloaded | hotspot.py:108 | one reloaded hotspot per written one |
| HotFile.FileRoundTrip | hotspot.py:582-619 | a file written with byte-count sizes reads back as the same material groups and the reloaded hotspots, for rectangles on the 1/32768 grid of [0,1] |
| HotFile.MatSpecOk | hotspot.py:59-89 | the tag "MAT", a count and that many groups load as those groups |
| HotFile.HotSpecOk | hotspot.py:92-110 | the tag "HOT", a count and that many hotspots load as those hotspots |
| HotFile.MatChunkAt | hotspot.py:59-89 | the written MAT chunk, wherever it sits, loads as its groups |
| HotFile.HotChunkAt | hotspot.py:92-110 | the written HOT chunk, wherever it sits, loads as its hotspots, unnamed and of positive area |
| HotFile.SizingsAgree | hotspot.py:593 | for ASCII names, counting characters and counting bytes write the same file |
| HotFile.GroupsAgree | hotspot.py:590-595 | for ASCII names the two sizings write the same group bytes |
| HotFile.StringsAgree | hotspot.py:592-595 | for ASCII names the two sizings write the same name bytes |
| HotFile.AsciiRoundTrip | hotspot.py:582-619 | with ASCII names, the file as written reads back as written |
| HotFile.NonAsciiWritten | hotspot.py:593-595 | the name "é" is written with size 1 and only its first byte |
| HotFile.NonAsciiUnreadable | hotspot.py:604-613 | a file starting with that chunk fails with a UnicodeDecodeError |
| HotFile.NonAsciiNameLost | hotspot.py:582-619 | the file written for the material "é" cannot be read back |
| Utf8.EncodeChar | hotspot.py:595 | a code point takes one to four bytes, one exactly when it is ASCII |
| Utf8.DecodeCharAt | hotspot.py:85 | a decoded code point takes at least one byte, within the range |
| Utf8.Groups | hotspot.py:595 | a number splits into 6-bit groups and back |
| Utf8.DecodeEncodeChar | hotspot.py:85 | one encoded code point decodes back whole, whatever follows it |
| Utf8.DecodeEncodeAt | hotspot.py:85 | a string's encoding, wherever it sits, decodes back to the string |
| Utf8.DecodeEncode | hotspot.py:85 | decoding undoes encoding for every string |
| Utf8.EncodeLength | hotspot.py:593 | a string's encoding is at least as long as the string, exactly as long iff it is ASCII |
| Utf8.Ungroup | hotspot.py:85 | a quotient and a 6-bit group come apart again |
| Utf8.EncodeTwo | hotspot.py:85 | a two-byte code point encodes to the bytes it was assembled from |
| Utf8.EncodeThree | hotspot.py:85 | a three-byte code point encodes to the bytes it was assembled from |
| Utf8.EncodeFour | hotspot.py:85 | a four-byte code point encodes to the bytes it was assembled from |
| Utf8.EncodeDecodeChar | hotspot.py:85 | a decoded code point encodes back to exactly the bytes it was read from |
| Utf8.EncodeDecodeAt | hotspot.py:85 | whatever decodes in place is, in place, the encoding of what it decodes to |
| Utf8.EncodeDecode | hotspot.py:85 | whatever decodes re-encodes to the same bytes |
| MoveToFurthest.ExtremesBound | move_to_furthest_uv.py:152-165 | the extremes bound every UV of the group and never pass the accumulators' starting values |
| MoveToFurthest.ExtremesAttained | move_to_furthest_uv.py:152-165 | each extreme is its starting value or a coordinate of some UV of the group |
| MoveToFurthest.AlignAll | move_to_furthest_uv.py:170-185 | the UV array keeps its length |
| MoveToFurthest.GroupExtremes | move_to_furthest_uv.py:151-168 | the first loop computes the extremes of the group's UVs and writes nothing |
| MoveToFurthest.AlignedTwice | move_to_furthest_uv.py:172-185 | aligning a point twice against the same extremes changes nothing more |
| MoveToFurthest.Written | move_to_furthest_uv.py:170-185 | the partially written array keeps its length |
| MoveToFurthest.WrittenStep | move_to_furthest_uv.py:170-185 | writing one more loop extends the written part by that loop |
| MoveToFurthest.AlignGroup | move_to_furthest_uv.py:151-185 | the array afterwards is every group loop aligned against the extremes of the UVs before any write |
| MoveToFurthest.UpDownSetV | move_to_furthest_uv.py:172-175 | 'up' and 'down' set v of every group loop to the extreme v and keep u |
| MoveToFurthest.LeftRightSetU | move_to_furthest_uv.py:176-179 | 'left' and 'right' set u of every group loop to the extreme u and keep v |
| MoveToFurthest.MidpointDirections | move_to_furthest_uv.py:167-183 | 'vertical' and 'horizontal' move every group loop to the midpoint along one axis and keep the other |
| MoveToFurthest.OutsideAndUnknownUnchanged | move_to_furthest_uv.py:170-185 | loops outside the group are never written, and an unknown direction writes nothing |
| MoveToFurthest.ExtremesInRange | move_to_furthest_uv.py:152-165 | a non-empty group inside the starting values has its extremes inside them too |
| MoveToFurthest.ConstantV | move_to_furthest_uv.py:162-165 | a constant in-range v is both v extremes |
| MoveToFurthest.ConstantU | move_to_furthest_uv.py:158-161 | a constant in-range u is both u extremes |
| MoveToFurthest.ExtremesAfterAlign | move_to_furthest_uv.py:151-185 | recomputed after an alignment, the extreme along the aligned axis is the value written |
| MoveToFurthest.AlignIdempotent | move_to_furthest_uv.py:151-185 | applying the same direction twice gives the result of applying it once, for coordinates inside the starting values |
| MoveToFurthest.AlignTwiceOutOfRange | move_to_furthest_uv.py:151-185 | outside the starting values a second 'horizontal' pass moves a single loop at u = 2e8 again, from 149999999.95 to 124999999.925 |
| SeamByAngle.SeamFor | seambyangle.py:78-89 | a processed edge becomes a seam only when its angle is steep and non-zero and some switch is on |
| SeamByAngle.SetSeamsByAngle | seambyangle.py:70-89 | every edge ends with the flag decided from its old flag, selection and angle; edges without two faces (no angle) or unselected keep theirs |
| SeamByAngle.UntouchedEdgesKeepSeam | seambyangle.py:71-76 | unselected edges and edges without exactly two faces keep their flag |
| SeamByAngle.BothSwitches | seambyangle.py:88-89 | with both switches, a seam iff the angle is steep and non-zero |
| SeamByAngle.ConcaveOnly | seambyangle.py:78-86 | with only the concave switch, a seam iff the angle is negative and steep |
| SeamByAngle.ConvexOnly | seambyangle.py:78-86 | with only the convex switch, a seam iff the angle is positive and steep |
| SeamByAngle.NeitherSwitch | seambyangle.py:79-82 | with neither switch every processed edge loses its seam |
| SeamByAngle.SeamAfterIdempotent | seambyangle.py:70-89 | running the pass twice gives the flags of running it once |
| LoopRing.ContinuousSymmetric | loopringuv.py:15-23 | with exact UV equality, whether two faces are continuous across an edge does not depend on their order |
| LoopRing.MeshBoundaryIsUvBoundary | loopringuv.py:5-12 | a loop on a mesh boundary edge is always a UV boundary |
| LoopRing.BoundaryBothSides | loopringuv.py:5-23 | the two loops of an edge between two faces agree on whether it is a UV boundary |
| LoopRing.TallyLoopsOk | loopringuv.py:33-45 | counting more loops keeps the remembered edges among the vertex's edges, each counted, and adds at most one per loop |
| LoopRing.TallyFacesOk | loopringuv.py:32-45 | the count at a corner bounds the continuous edges remembered, all of them edges of the vertex |
| LoopRing.CountFace | loopringuv.py:33-45 | the inner loop carries the count over the loops of one face exactly as `TallyLoops` over the face's loops does |
| LoopRing.CountUvEdges | loopringuv.py:28-45 | the count is the number of UV edges coming out of the corner |
| LoopRing.WalkStep | loopringuv.py:26 | a loop walk steps to the next loop forward and the previous loop backward, both for the pivot whose edge it crosses and for the loop it appends after a loop of another face on that edge |
| LoopRing.Corner | loopringuv.py:26-30 | the forward walk counts at the next loop, the backward walk at the loop itself |
| LoopRing.Opposite | loopringuv.py:113 | the loop across a quad is a loop of the mesh |
| LoopRing.InLinks | loopringuv.py:47-62 | every step a walk may take is one of its links |
| LoopRing.FreshUntagged | loopringuv.py:61 | tagging loops never adds untagged ones |
| LoopRing.FreshTrans | loopringuv.py:61-63 | two walks one after the other tag fresh loops, each once |
| LoopRing.ReachedTrans | loopringuv.py:63 | loops reached by a recursive walk rooted at an appended loop are reached from the first root |
| LoopRing.SuffixSnoc | loopringuv.py:62 | appending to the group extends its suffix and keeps its prefix |
| LoopRing.SuffixJoin | loopringuv.py:63 | the group after a recursive call is the group before it plus the call's additions |
| LoopRing.GrownNone | loopringuv.py:47-49 | returning the group unchanged tags nothing |
| LoopRing.Appended | loopringuv.py:57-62 | tagging and appending an untagged loop reached by a step keeps the walk's invariant and lowers the number of untagged loops |
| LoopRing.Continued | loopringuv.py:63 | a walk continued by a recursive one rooted in it keeps the invariant and never raises the number of untagged loops |
| LoopRing.PivotClosed | loopringuv.py:50-63 | once the other faces of the pivot's edge are scanned, every step from the loop ends at a tagged loop |
| LoopRing.NoStepFrom | loopringuv.py:47-49 | with a count other than 3 or 4, or a pivot on a UV boundary, the walk has no step from the loop |
| LoopRing.Take | loopringuv.py:57-63 | tagging an untagged follower, appending it and recursing: the follower comes right after the group, the whole is one walk from the pivot, and every step from an appended loop ends at a tagged loop |
| LoopRing.TakeGrown | loopringuv.py:61-63 | tagging and appending one loop and walking on from it is one walk from the pivot, closed wherever the recursive walk is closed |
| LoopRing.LoopWalk | loopringuv.py:25-106 | the group keeps its prefix and gains only loops untagged before, each once, each one step from the start or from a loop appended before it; exactly the appended loops become tagged; every step the walk may take from the start or from an appended loop ends at a tagged loop, so no loop of the UV loop is left behind; nothing is appended unless the corner has 3 or 4 UV edges and the pivot is not a UV boundary |
| LoopRing.ScanFaces | loopringuv.py:50-63 | the scan over the other faces of the pivot's edge keeps the walk's invariant; afterwards, in every such face, the follower of each loop on the edge that passes the count-3 boundary test is tagged, and every step from an appended loop ends at a tagged loop |
| LoopRing.ScanFace | loopringuv.py:53-63 | the scan over one face's loops keeps the walk's invariant; afterwards the follower of each of its loops on the pivot's edge that passes the count-3 boundary test is tagged, and every step from an appended loop ends at a tagged loop |
| LoopRing.RingWalk | loopringuv.py:109-131 | the ring keeps the group's prefix and gains only untagged loops, each once and each reached by a step; it adds nothing when the face is not a quad or the opposite loop is tagged, and otherwise first adds the opposite loop, and the opposite loop is tagged afterwards on any quad; when it was untagged and its edge is manifold, every loop across that edge in a face whose UVs continue the quad's ends tagged |
| LoopRing.RingEdge | loopringuv.py:119-129 | the scan over the faces of the opposite loop's edge keeps the ring's invariant; on a manifold edge every loop across it in a face whose UVs continue the start's face ends tagged |
| LoopRing.RingFace | loopringuv.py:122-129 | the scan over one face keeps the ring's invariant, and the current loop is the start or a loop of this face that is tagged (appended by the ring unless the scan stopped on it); a face whose UVs do not continue the start's face changes nothing; one that does, across a manifold edge, ends with its loops on the edge tagged |
| LoopRing.RingCross | loopringuv.py:124-129 | the body for one loop of the face: the walk stops exactly when the loop was already tagged, changing nothing; otherwise the loop is appended next and the ring goes on from it, keeping the ring's invariant |
| LoopRing.RingTake | loopringuv.py:127-129 | tagging an untagged loop reached by a step, appending it and recursing: the loop comes right after the group and the whole is one ring from the parent |
| LoopRing.CrossingsTagged | loopringuv.py:119-126 | on a manifold edge one tagged loop of another face tags every crossing from the loop: there is only one other face and one loop of it on the edge |
| LoopRing.OtherFace | loopringuv.py:119-121 | a manifold edge has at most one face besides a given one |
| LoopRing.RingFaceOnly | loopringuv.py:122-126 | on a manifold edge a tagged loop of the face is its only loop on the edge, so the face's loops on the edge are tagged |
| HotspotDatabase.RemoveFirst | hotspot.py:847-848 | the guarded removal `if mat_name in matgrp: matgrp.remove(mat_name)` leaves a list without the name unchanged; the guard keeps the ValueError of `list.remove` from occurring |
| HotspotDatabase.RemoveFirstCount | hotspot.py:848 | removing a present name shortens the list by one and takes away exactly one occurrence |
| HotspotDatabase.RemoveFirstDeletes | hotspot.py:848 | what is removed is the first occurrence, and nothing else moves |
| HotspotDatabase.Without | hotspot.py:850-851 | `list.pop(i)` drops exactly element i and shifts the rest |
| HotspotDatabase.FirstGroupWith | hotspot.py:846-852 | the loop with `break` finds the first group naming the material, or none when no group does |
| HotspotDatabase.SaveSpec | hotspot.py:845-869 | parallel lists stay parallel and the save succeeds; a successful save ends with the group [mat] and the new hotspot |
| HotspotDatabase.SaveFails | hotspot.py:849-851 | the save fails exactly when the emptied group has no hotspot at its index (the IndexError of pop) |
| HotspotDatabase.OccurrencesAppend | hotspot.py:868 | counting a name distributes over appended groups |
| HotspotDatabase.OccurrencesUpdate | hotspot.py:848 | replacing a group changes the count by that group's difference |
| HotspotDatabase.OccurrencesWithout | hotspot.py:850 | dropping a group takes away its names |
| HotspotDatabase.OccurrencesZero | hotspot.py:847 | the count is zero exactly when no group names the material |
| HotspotDatabase.SaveMovesName | hotspot.py:845-869 | a save removes one occurrence if some group named the material and adds one; a material named at most once before is named exactly once after |
| HotspotDatabase.RefSpec | hotspot.py:1661-1669 | the reference fails exactly for an index below minus the length (the IndexError) and otherwise keeps the number of groups |
| HotspotDatabase.RefMovesName | hotspot.py:1661-1669 | with each group naming the material at most once, it ends named once in the chosen group, or nowhere when the index is past the end |
| HotspotDatabase.Database.constructor | hotspot.py:843 | the database starts as the lists read from the file |
| HotspotDatabase.Database.Save | hotspot.py:845-869 | the state becomes the save's specification when it succeeds and is unchanged when it fails; parallel lists always succeed and stay parallel |
| HotspotDatabase.Database.Reference | hotspot.py:1661-1669 | the groups become the reference's specification when it succeeds and are unchanged otherwise; the hotspots never change |

## Left out

- Floating point: coordinates, lengths and distances are exact reals, so rounding is not modelled. `rmlib.util.FLOAT_EPSILON` is not part of this model; it is a parameter `epsilon`. `AlmostEqual_v2` is exact equality.
- The LSCM numerics (rectangularize.py:386-468): the law-of-cosines projection, the complex weights, the block matrices and `lstsq`. The solution `x` is an input to `LscmIndex.ScatterU`.
- LscmIndex.ScatterU: writes u only. `constrain_axis` is fixed at 1 in the source, so the other two branches of the write-back are dead code.
- LscmIndex.ChoosePins: returns the pinned registry positions only. The pinned UV coordinates (`pinned_uv_coords`) feed only the numerics.
- MoveToFurthest.AlignIdempotent: holds only for coordinates strictly inside ±99999999.9, the accumulators' starting values. Outside them a second pass can move the UVs again; MoveToFurthest.AlignTwiceOutOfRange gives one such input.
- `GetPinCornersByAngle` (atan2 angle sorting). The corner loops are an input to `CornerSegments.CornerDistances`. What the operator does with the segment lengths afterwards (`dir_lookup`, the pinning) is floating-point layout and is left out.
- Edge lengths are inputs: square roots of 3D coordinates. This applies to `ShortestPath` (one per edge) and `CornerSegments` (one per loop).
- Hotspots.Nearest: compares squared corner distances, with the starting distance squared. For exact reals a square root keeps their order, so the choice is the same.
- `Bounds2d.transform`, `Hotspot.match`, `image_from_hotspot`, the previews and the random rotation and flip are not part of this model. They are matrix arithmetic, randomness and UI.
- File I/O: `open`, `read`, `write`, `get_hotfile_path` and `write_default_file`. The file is its byte sequence.
- HotFile.WriteBytes: `struct.error` and `UnicodeDecodeError` become `Fault` values. A file written up to a failing `struct.pack` is modelled as no bytes at all (`Err`), not as a partial file.
- HotspotDatabase.RefSpec: `int(img_name)` is not modelled; the parsed index is the parameter `idx`. Negative indices follow Python's indexing from the end.
- The operators' `execute`/`invoke`/`poll` code: selection modes, context, undo, the `bpy.ops` calls and UI panels. Each modelled operator starts from its group of loops, faces or edges.
- `edge_face_angle` (normals and cross products) is not part of this model. The signed angle is an input, with `None` for an edge without exactly two faces.
- rmlib collaborators (`group_vertices`, `island`, `chain`, `border_loops`, `from_selection`) are not part of this model. Their results are inputs.
- `force_boundary` of `uvedge_loop_fwd`/`uvedge_loop_rev` is passed along but never read, so it is omitted.
- LoopRing.LoopWalk: recursion depth is not modelled. CPython's default limit of 1000 frames makes the source raise RecursionError on a UV loop of about a thousand loops (the recursive calls at loopringuv.py:63 and :104); the model walks on. The same holds for LoopRing.RingWalk (loopringuv.py:129).
- LoopRing.RingWalk: the guarantee that every loop across the opposite loop's edge ends tagged is stated only for manifold edges (at most two faces, one loop of each face on the edge). On other edges the scan compares later faces with the face of the loop it last took, and the contract claims only the walk's invariant there.
- LoopRing.RingEdge: the same manifold condition as `RingWalk`.
- LoopRing.LoopWalk: models both `uvedge_loop_fwd` and `uvedge_loop_rev`. They differ only in which neighbouring loops they use, which a `Walk` value selects.
- Boundary.NextBoundaryLoop: the walk is cut off after as many steps as the mesh has loops, so termination is provable. The contract does not claim that the loop returned is a boundary loop, because a walk around a vertex with no boundary would not stop in the source.
- Boundary.PrevBoundaryLoops: the same step bound as `NextBoundaryLoop`.
- BBox.FitToBBox: requires the faces to be distinct, and the loops of each face to be distinct. A face listed twice would be moved twice in the source.
- Set `pop` in `lscm_patches` takes an arbitrary element, which is modelled with `:|`. Which patch order results is not pinned down. `Relax.GrowPatch` states what holds for every order.
- Helper methods stand for the inner loops of the source functions. They are `LoadStrings`, `Walk`, `AppendFan`, `WriteClaimed`, `CountFace`, `ScanFaces`, `ScanFace`, `RingEdge`, `RingFace`, `FitFace`, `NearestCorner` and `GatherUVs`. `Take`, `RingCross` and `RingTake` stand for the loop bodies that tag a loop, append it and recurse. The loop and ring walks recurse, as in the source, with no depth bound.
- Blender's own code is not part of this model: `BMesh` topology queries beyond the index arrays, and `bmesh.update_edit_mesh`.

## Findings

| source | as written | input that shows it | evidently intended | confidence | as-written member | corrected member |
|---|---|---|---|---|---|---|
| hotspot.py:593-595 | the size field of a material name is `len(mat)`, its number of characters, and `'>{size}s'` then cuts the UTF-8 bytes to that many | the material groups `[["é"]]` with one hotspot: the size field says 1 and only the byte 0xC3 of "é" is written, so reading the file back raises UnicodeDecodeError | the size field holds the number of UTF-8 bytes, so every name reads back | not executed | HotFile.NonAsciiNameLost | HotFile.FileRoundTrip |
