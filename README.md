# ptex-tools: half-edge mesh, face adjacency and tool helpers in Dafny

This project models the core of the ptex-tools utilities.

**The adjacency engine.** It turns a polygon soup into per-quad ptex face records. The soup is `nverts`, the vertex count of each face, and `verts`, the flattened vertex indices. The engine works in four stages:
- **Build.** Every face is added as a ring of half-edges in pre-sized arenas. Opposite half-edges are paired through a map keyed by directed vertex pairs.
- **Subdivide.** Every face that is not a quad is split into one quad per corner. Each quad's vertices are the corner, the midpoint of its edge, the face centre and the midpoint of the previous edge. A midpoint is shared with an already split neighbour.
- **Resolve adjacency.** The adjacent link of each quad edge is resolved, redirecting through subfaces.
- **Emit.** One record (`adjfaces[4]`, `adjedges[4]`, `isSubface`) is written per quad, at its ptex index.

`mesh.cpp` and `make_constant.cpp` hold the same engine text, so one model serves both. The closed-form counts and the topology comparison of two record arrays are modelled too.

**The tool helpers:**
- **Merge tool:** the ':'-separated merged-file list, path-prefix stripping, the adjacency-id shift, the in-place channel strip, the input compatibility check, the running face and mesh offsets, and the checks of a remerge.
- **Reverse tool:** the edge-id swap, the face-record reversal and the texel-block transpose.
- `strbasename`.
- The OBJ line tokenizer.

**Modelling choices.**
- Arenas are `array`s of `Edge`/`Face` values. Links are arena indices, with -1 as null.
- `MeshBuilder` is a class whose methods update the arenas, the edge map (a `map<(int, int), int>`) and the `nextEdge`/`nextFace` counters in place.
- The layout `build_mesh` produces is deterministic, so it is given in closed form (module `Layout`). Each builder method and loop is proved to produce it: the stages are predicates (`Build.InputAdded`, `Subdiv.Stage`, `Adjacency.AdjDone`, `Mesh.Built`) that the loops keep.
- The pairing done by the edge map is a pure function (`Pairing.Run`) over the sequence of directed pairs. Its properties are proved once and reused.

Modules, in dependency order:
- `Counts` (counts.dfy)
- `HalfEdge` (halfedge.dfy)
- `Pairing` (pairing.dfy)
- `Layout` (layout.dfy)
- `Builder` (builder.dfy)
- `Build` (build.dfy)
- `Subdiv` (subdiv.dfy)
- `Adjacency` (adjacency.dfy)
- `Mesh` (mesh.dfy)
- `FaceInfos` (faceinfo.dfy)
- `ObjReader` (objreader.dfy)
- `Merge` (merge.dfy)
- `Reverse` (reverse.dfy)
- `Helpers` (helpers.dfy)

## Model

| member | source | states |
|---|---|---|
| Counts.CountMeshElems | src/ptex_utils/mesh.cpp:6-24 | ptex faces, arena faces and arena edges are the per-face sums (1/1/4 for a quad, nv/nv+1/5nv otherwise); total faces = nfaces + subfaces and total edges = Σnv + 4·subfaces |
| Counts.FacesSplit | src/ptex_utils/mesh.cpp:14-22 | the faces before face f are f input faces plus their subfaces |
| Counts.EdgesSplit | src/ptex_utils/mesh.cpp:14-22 | the edges before face f are its corner offset plus four per subface |
| Counts.MaxVertex | src/ptex_utils/mesh.cpp:33-35 | the running maximum is at least 0, bounds every vertex seen, and is 0 or one of them |
| Counts.CountMeshVertices | src/ptex_utils/mesh.cpp:26-39 | fvcount = Σnv; vcount = max(0, largest vertex) + 1, so every vertex index is below vcount |
| Counts.LastVertex | src/ptex_utils/mesh.cpp:117-129 | the largest of 0 and all vertex indices, bounding each of them |
| Counts.CountPtexFaces | src/ptex_utils/mesh.cpp:273-281 | the same ptex face count count_mesh_elems gives, non-negative for non-negative counts |
| Counts.MakeConstantCounts | src/ptex_utils/make_constant.cpp:317-339 | the fused loop gives the same five counts as count_mesh_elems and count_mesh_vertices |
| Counts.OffsetMono | src/ptex_utils/mesh.cpp:263-268 | corner offsets grow with the face index |
| HalfEdge.HalfMesh.constructor | src/ptex_utils/mesh.hpp:37-44 | exactly nfaces face and nedges edge records, all in their default state (null links, ptex index -1, not a subface) |
| HalfEdge.SuccPred | src/ptex_utils/mesh.hpp:46-53 | ring successor and predecessor stay in the ring and undo each other |
| HalfEdge.NextVert | src/ptex_utils/mesh.hpp:56-60 | null when the edge has no opposite |
| HalfEdge.NextVertNull | src/ptex_utils/mesh.hpp:56-60 | next_vert is null iff there is no opposite, and otherwise is next(opposite(e)) |
| HalfEdge.PrevVert | src/ptex_utils/mesh.hpp:62-65 | null iff the previous edge has no opposite |
| HalfEdge.NextVertOfPrevVert | src/ptex_utils/mesh.hpp:56-65 | with involutive opposites, next_vert undoes prev_vert |
| HalfEdge.AdjacentFace | src/ptex_utils/mesh.hpp:67-73 | -1 when the adjacent link is null |
| HalfEdge.AdjacentFaceNull | src/ptex_utils/mesh.hpp:67-73 | -1 iff the adjacent link is null, when adjacent faces have ptex indices |
| HalfEdge.AdjacentEdge | src/ptex_utils/mesh.hpp:75-81 | 0 when the adjacent link is null |
| Pairing.Run | src/ptex_utils/mesh.cpp:53-66 | marking edges in order gives one opposite slot per edge, with map values indexing the edges |
| Pairing.RunSound | src/ptex_utils/mesh.cpp:53-66 | every opposite is -1 or another edge, and every map entry names an edge with that pair |
| Pairing.MapGrows | src/ptex_utils/mesh.cpp:63-65 | entries are never removed or overwritten (emplace keeps the first) |
| Pairing.StepMatch | src/ptex_utils/mesh.cpp:58-62 | a found reversed pair links both edges and keeps the partner invariants |
| Pairing.StepInsert | src/ptex_utils/mesh.cpp:63-65 | no reversed pair: the pair is inserted, no opposite changes, invariants kept |
| Pairing.RunPartners | src/ptex_utils/mesh.cpp:53-66 | with unique directed pairs, each opposite is the partner edge or -1 when there is none; the map holds a pair iff no earlier edge holds its reverse |
| Pairing.PartnerIff | src/ptex_utils/mesh.cpp:53-66 | opposite(x) == y iff y holds x's reversed pair; -1 iff no edge does |
| Pairing.OppositeInvolution | src/ptex_utils/mesh.cpp:58-62 | opposite(opposite(e)) == e |
| Pairing.LocalPartner | src/ptex_utils/mesh.cpp:53-66 | two edges with reversed pairs that are each unique are linked both ways, whatever else repeats |
| Layout.FaceOfUnique | src/ptex_utils/mesh.cpp:263-268 | each corner of the flattened list belongs to exactly one face |
| Layout.InPairs | src/ptex_utils/mesh.cpp:55-57 | the directed pair of each input corner is (its vertex, the next corner's vertex) |
| Layout.InOpps | src/ptex_utils/mesh.cpp:53-66 | the input opposites are -1 or another corner |
| Layout.SubLayoutFits | src/ptex_utils/mesh.cpp:14-22 | every subface record, its four edges and its ptex index lie within the counted arenas and in its face's block |
| Layout.Mid | src/ptex_utils/mesh.cpp:156-164 | a midpoint is a new vertex (above every input vertex), taken over from the opposite corner when that is already split |
| Layout.MidShared | src/ptex_utils/mesh.cpp:156-164 | two corners that are each other's opposite in split faces get one midpoint, unless one of them is corner 0 of the other's face |
| Layout.MidCornerZeroApart | src/ptex_utils/mesh.cpp:156-164 | corner 0 of a split face opposite another corner of the same face gets a different, smaller midpoint: the shared edge is split twice |
| Layout.FreshIncrease | src/ptex_utils/mesh.cpp:177-195 | fresh vertex numbers strictly increase: centre < fresh midpoint < every later number, and < every later centre |
| Layout.CenterIncrease | src/ptex_utils/mesh.cpp:177-179 | each split face takes a centre of its own, later faces larger ones |
| Builder.MeshBuilder.constructor | src/ptex_utils/mesh.cpp:42-50 | empty edge map and both counters 0, on the given mesh |
| Builder.MeshBuilder.AddEdge | src/ptex_utils/mesh.cpp:68-74 | returns the old next_edge, increments it, and sets that edge's vertex only |
| Builder.Marking | src/ptex_utils/mesh.cpp:53-66 | marking edge e keeps the marked invariant; only e and an earlier edge holding the reversed pair change, and only their opposites |
| Builder.MarkMatch | src/ptex_utils/mesh.cpp:58-62 | when the reversed pair is in the map, its edge is earlier and the two are linked both ways |
| Builder.MarkNoMatch | src/ptex_utils/mesh.cpp:63-65 | otherwise the pair is emplaced and no edge changes |
| Builder.MarkedOpposites | src/ptex_utils/mesh.cpp:53-66 | after marking n edges every opposite is -1 or another marked edge, and every map value names an edge with that key |
| Builder.MeshBuilder.MarkOpposite | src/ptex_utils/mesh.cpp:53-66 | the new edges and map are exactly one marking step |
| Builder.Linking | src/ptex_utils/mesh.cpp:86-100 | the ring linking touches only edges first..last-1 |
| Builder.MeshBuilder.LinkRing | src/ptex_utils/mesh.cpp:86-100 | the edges first..last-1 form a next/prev ring with fv = position and face = face id |
| Builder.MeshBuilder.MarkStep | src/ptex_utils/mesh.cpp:101-103 | one marking step keeps the marked invariant and the opposite frame |
| Builder.MeshBuilder.MarkRange | src/ptex_utils/mesh.cpp:101-103 | all ring edges are marked; older edges only gain links to new edges with reversed pairs |
| Builder.MeshBuilder.MarkFace | src/ptex_utils/mesh.cpp:76-105 | the face record gets its index, flag and first edge; the ring is linked and marked |
| Builder.MeshBuilder.AddEdges | src/ptex_utils/mesh.cpp:110-112 | k consecutive edges get the face's vertices; next_edge grows by k |
| Builder.MeshBuilder.AllocFace | src/ptex_utils/mesh.cpp:110-112 | the face's k edges are appended at next_edge with its vertices and no links; the face counter, edge map and face records are unchanged |
| Builder.MeshBuilder.AddFace | src/ptex_utils/mesh.cpp:107-115 | the k new edges form the ring of the new face (next = i+1 mod k, prev its inverse, fv = i, first = edge 0); next_edge += k, next_face += 1; older edges change only by gaining reversed-pair opposites; the builder invariant holds |
| Builder.AddFaceFacts | src/ptex_utils/mesh.cpp:107-115 | the builder invariant, the new face record, the ring and the old edges after add_face |
| Build.InputPairsMatch | src/ptex_utils/mesh.cpp:263-268 | after all input faces are added, the arena's directed pairs are the input's |
| Build.AddInputFace | src/ptex_utils/mesh.cpp:264-268 | adding input face i keeps the earlier faces and lays out face i at its offset |
| Build.AddInputLoop | src/ptex_utils/mesh.cpp:263-268 | after the loop every input face is laid out at its offset and the counters stand at Σnv and nfaces |
| Build.AddInputFaces | src/ptex_utils/mesh.cpp:263-268 | all input faces are laid out; counters at Σnv and nfaces; opposites are the pairing of the input pairs |
| Build.InputOpposites | src/ptex_utils/mesh.cpp:263-268 | the input corners' opposites are those the pairing gives |
| Subdiv.Split | src/ptex_utils/mesh.cpp:156-164 | returns the corner's midpoint and advances the counter only when the midpoint is fresh |
| Subdiv.AddSubface | src/ptex_utils/mesh.cpp:197-205 | a subface ring of four edges is added with its ptex index and parent link |
| Subdiv.AddCorner | src/ptex_utils/mesh.cpp:183-190 | the subface [corner, mid, centre, previous mid] is added at its slot; the stage advances |
| Subdiv.RingStep | src/ptex_utils/mesh.cpp:181-195 | one ring iteration: midpoint, subface of the previous corner, counters and stage advanced |
| Subdiv.RingExit | src/ptex_utils/mesh.cpp:181-195 | the ring walk returns to the first edge exactly after the last corner |
| Subdiv.RingLoop | src/ptex_utils/mesh.cpp:180-195 | the walk makes the subfaces of corners 1..nv-1 in order |
| Subdiv.FaceStart | src/ptex_utils/mesh.cpp:177-180 | the centre is fresh and the first split gives corner 0's midpoint |
| Subdiv.FaceFinish | src/ptex_utils/mesh.cpp:197-205 | corner 0's subface is made last; the counters reach the next face's slots |
| Subdiv.SubdivFace | src/ptex_utils/mesh.cpp:176-206 | a split face gets its nv subfaces with consecutive ptex indices, the face keeping -1 |
| Subdiv.QuadFace | src/ptex_utils/mesh.cpp:173-175 | a quad gets the next ptex index itself |
| Subdiv.HandleFace | src/ptex_utils/mesh.cpp:170-206 | one round of the face loop: a quad takes the next ptex index, any other face is split; the stage moves to the next face |
| Subdiv.SubdivLoop | src/ptex_utils/mesh.cpp:169-207 | after the loop every face is handled, with the vertex and ptex counters at their final values |
| Subdiv.SubdivFaces | src/ptex_utils/mesh.cpp:169-207 | after the face loop the arenas are exactly full (edges = total_edges, faces = total_faces) and the ptex counter equals count_ptex_faces |
| Subdiv.SubVerts | src/ptex_utils/mesh.cpp:183-190 | the subface of corner x has vertices [x.v, mid(x), centre, mid(prev x)], the last three new |
| Adjacency.AcrossLink | src/ptex_utils/mesh.cpp:216-219 | the link through an opposite: the opposite itself, or edge 3 of the subface of next(opposite) when that face is split, or null; assign_subface_adjacency repeats the same redirect at mesh.cpp:133-136 |
| Adjacency.PrevLink | src/ptex_utils/mesh.cpp:137-140 | prev_vert of the parent, or edge 0 of its subface when that face is split, or null |
| Adjacency.SubAdj | src/ptex_utils/mesh.cpp:131-151 | subface edges 0..3 get the opposite-derived link, their own opposite twice, and the prev_vert-derived link |
| Adjacency.SubfaceEdges | src/ptex_utils/mesh.cpp:142-145 | e1..e4 are edges 0..3 of the parent's subface, in ring order |
| Adjacency.AssignSubfaceAdjacency | src/ptex_utils/mesh.cpp:131-151 | sets exactly the four adjacent links of the parent's subface |
| Adjacency.ResolveCorner | src/ptex_utils/mesh.cpp:208-226 | visiting a corner resolves exactly the edges it owns |
| Adjacency.ResolveFace | src/ptex_utils/mesh.cpp:208-226 | visiting a face's ring resolves its corners |
| Adjacency.ResolveStep | src/ptex_utils/mesh.cpp:212-224 | one visit of the ring walk resolves the current corner and moves to the next corner of the face |
| Adjacency.ResolveAdjacency | src/ptex_utils/mesh.cpp:208-226 | the final edges are the split mesh with every adjacent link resolved and nothing else changed |
| Adjacency.AllResolved | src/ptex_utils/mesh.cpp:208-226 | once every corner is visited, each edge holds exactly its resolved adjacent link |
| Adjacency.SplitNeighboursMutual | src/ptex_utils/make_constant.cpp:229-247 | across an edge shared by two split faces, subface edge 0 on one side and subface edge 3 on the other are each other's adjacent |
| Adjacency.QuadNeighboursMutual | src/ptex_utils/mesh.cpp:214-221 | across an edge shared by two kept quads, each corner's adjacent is the other's corner |
| Adjacency.QuadSplitOneWay | src/ptex_utils/mesh.cpp:133-136 | where a kept quad meets a split face, both halves of the split edge (edge 0 of subface(x), edge 3 of subface(next x)) point at the quad's corner, which points back only at the second: adjacency is not mutual at such a T-junction |
| Mesh.SubdivMesh | src/ptex_utils/mesh.cpp:153-227 | leaves the built mesh: split layout, in-arena links, opposites from the edge map, adjacency resolved |
| Mesh.BuildMesh | src/ptex_utils/mesh.cpp:260-270 | from empty arenas of the counted sizes, produces the built mesh |
| Mesh.PtexOfFace | src/ptex_utils/mesh.cpp:168-206 | a face's ptex index is -1 exactly on split input faces, is below count_ptex_faces, and is the face's own slot; is_subface exactly on subfaces |
| Mesh.OwnerHasPtex | src/ptex_utils/mesh.cpp:168-206 | every ptex index 0..count-1 is carried by its owning face |
| Mesh.SubSidePairs | src/ptex_utils/mesh.cpp:183-205 | edge 1 of subface(j) runs midpoint(j) → centre and edge 2 of subface(next j) runs centre → midpoint(j): reversed directed pairs on distinct edges |
| Mesh.SubfaceSidesMutual | src/ptex_utils/mesh.cpp:147-149 | when no directed pair repeats in the split mesh, edge 1 of subface(j) and edge 2 of subface(next j) are each other's opposite and each other's adjacent |
| Mesh.PtexNumbering | src/ptex_utils/mesh.cpp:168-206 | in the built mesh, ptex indices are dense and one-to-one over the quads; split input faces keep -1 |
| FaceInfos.InfoOf | src/ptex_utils/mesh.cpp:236-253 | a record has four adjacent faces and edges and the face's subface flag |
| FaceInfos.PtexFacesIn | src/ptex_utils/make_constant.cpp:286-287 | the faces with a ptex index, increasing, and all of them |
| FaceInfos.WriteData | src/ptex_utils/make_constant.cpp:279-306 | one record per face with ptex index ≥ 0, written at that index, in arena order |
| FaceInfos.WriteFace | src/ptex_utils/make_constant.cpp:286-303 | one face visited: the records written so far grow by this face's record exactly when it has a ptex index |
| FaceInfos.RecordsStep | src/ptex_utils/make_constant.cpp:286-303 | one face visited: a record is appended iff the face has a ptex index |
| FaceInfos.FilledSlots | src/ptex_utils/mesh.cpp:230-257 | each slot holds the record of the last face with that ptex index; slots no face uses are unchanged |
| FaceInfos.FillFaceInfos | src/ptex_utils/mesh.cpp:230-257 | the output array is the filled one |
| FaceInfos.OwnersFilled | src/ptex_utils/mesh.cpp:230-257 | with dense numbering, slot p holds the record of the face owning p |
| FaceInfos.BuiltEmittable | src/ptex_utils/mesh.cpp:236-249 | the built mesh can be read by fill_faceinfos: every link followed is in the arena |
| FaceInfos.BuiltFacts | src/ptex_utils/mesh.cpp:283-296 | the built mesh can be emitted, numbers its ptex faces densely, and links only to edges of ptex faces |
| FaceInfos.NewMesh | src/ptex_utils/mesh.cpp:287-293 | the counted arenas are allocated and built into the mesh of the input |
| FaceInfos.LinkTarget | src/ptex_utils/mesh.cpp:208-226 | every resolved adjacent link lands on a quad edge with fv in 0..3 of a face with a ptex index |
| FaceInfos.RecordRange | src/ptex_utils/mesh.hpp:67-81 | record entries: adjfaces in -1..ptex_faces-1, adjedges in 0..3, and adjedges 0 on a boundary |
| FaceInfos.ComputeAdjacency | src/ptex_utils/mesh.cpp:283-296 | out[p] is the record of the quad with ptex index p for every p below count_ptex_faces; the rest of out is untouched |
| FaceInfos.FillOwners | src/ptex_utils/mesh.cpp:295 | over a densely numbered mesh, slot p receives the record of the face owning p and later slots are untouched |
| FaceInfos.TopologyMatch | src/ptex_utils/mesh.cpp:298-320 | true iff for every record the adjedges and subface flags agree and each adjacent face is -1 on both sides or equal after the offsets |
| FaceInfos.TopologyMatchAsWritten | src/ptex_utils/mesh.cpp:298-320 | the same with a -1 slot of the first file accepted against anything |
| FaceInfos.BoundaryMismatchAccepted | src/ptex_utils/mesh.cpp:309-311 | a boundary against a neighbour is accepted as written and rejected by the corrected test |
| FaceInfos.MatchesRefines | src/ptex_utils/mesh.cpp:298-320 | the corrected test accepts no more than the as-written one, and both agree when the second file keeps every boundary |
| FaceInfos.MatchesItself | src/ptex_utils/mesh.cpp:298-320 | a record array matches itself under equal offsets |
| Merge.SplitNames | src/ptex_utils/ptex_merge.cpp:379-390 | appends the ':'-separated pieces, keeping empty leading and inner pieces and dropping an empty last one |
| Merge.JoinNames | src/ptex_utils/ptex_merge.cpp:351-362 | the names joined with ':', of the reserved length Σ|name| + count - 1 |
| Merge.SplitJoin | src/ptex_utils/ptex_merge.cpp:346-390 | splitting the join gives the names back when no name holds ':' and the last is non-empty |
| Merge.JoinSplit | src/ptex_utils/ptex_merge.cpp:346-390 | joining the split of a non-empty string not ending in ':' gives it back |
| Merge.SplitNoColon | src/ptex_utils/ptex_merge.cpp:379-390 | no piece holds ':' |
| Merge.StripPrefix | src/ptex_utils/ptex_merge.cpp:218-239 | with prefix a leading run of the path's components, prefix + result = path; otherwise the path is returned |
| Merge.ShiftFace | src/ptex_utils/ptex_merge.cpp:148-151 | shifting keeps the adjacent edges and subface flag |
| Merge.ShiftFaceProperties | src/ptex_utils/ptex_merge.cpp:148-151 | -1 stays -1 and only -1 maps to -1; shifting by 0 is the identity and shifts compose |
| Merge.ShiftedMatches | src/ptex_utils/ptex_merge.cpp:146-151 | the shifted records of a file match the originals at the file's offset |
| Merge.MemMove | src/ptex_utils/ptex_merge.cpp:168 | the bytes at dst become the old bytes at src, the rest unchanged |
| Merge.StripChannels | src/ptex_utils/ptex_merge.cpp:163-172 | pixel k holds the first s bytes of old d-byte pixel k, and bytes from n·s on are unchanged |
| Merge.CheckPtx | src/ptex_utils/ptex_merge.cpp:67-91 | passes iff mesh type equal, enough channels and alpha equal unless -1; a failure names the file |
| Merge.CheckPtxProperties | src/ptex_utils/ptex_merge.cpp:67-91 | the first file passes against the options taken from it; passing is kept with fewer channels or any alpha |
| Merge.Shifted | src/ptex_utils/ptex_merge.cpp:60-61 | every vertex index is moved by the offset |
| Merge.AppendedMeshOk | src/ptex_utils/ptex_merge.cpp:55-62 | appending a consistent mesh with indices shifted by the position count / 3 keeps the merged mesh consistent |
| Merge.AppendMesh | src/ptex_utils/ptex_merge.cpp:37-65 | a file with mesh data has counts, shifted indices and positions appended and its face count returned; otherwise nothing changes and 0 is returned |
| Merge.InputInfo.constructor | src/ptex_utils/ptex_merge.cpp:19-29 | no faces, merging meshes, empty offsets and mesh |
| Merge.InputInfo.Add | src/ptex_utils/ptex_merge.cpp:30-34 | appends one face offset and one mesh offset |
| Merge.InputInfo.AppendInputAsWritten | src/ptex_utils/ptex_merge.cpp:93-115 | as written: the merged-mesh flag read at line 104 never changes; a file taken while meshes are merged sets only `options.merge_mesh` (to whether it had a mesh), otherwise `options` is kept; offsets, count and appended mesh on 0; the mesh unchanged when none is appended; nothing changed on -1 |
| Merge.InputInfo.AppendInput | src/ptex_utils/ptex_merge.cpp:93-115 | 0 iff the file opened and passed the check; then its offset is the old face count, the count grows by its faces, its mesh (counts, indices shifted by the position count / 3, positions) is appended while meshes are merged, and the mesh flag is cleared by a file without a mesh; -1 changes no field and not the mesh |
| Merge.RunningOffsets | src/ptex_utils/ptex_merge.cpp:110-112 | offset i is the sum of the face counts before i |
| Merge.AppendInputs | src/ptex_utils/ptex_merge.cpp:93-115 | all inputs pass iff 0; then each offset is the faces before it, the count is the total, and the mesh flag is set iff every file has a mesh |
| Merge.MeshFlagAsWrittenMismatch | src/ptex_utils/ptex_merge.cpp:104-107 | two calls of the as-written append_input, a 2-face file without a mesh then a 3-face file with a 3-face mesh: the flag stays set and a 3-face mesh is kept for a 5-face texture; two calls of the corrected one clear the flag |
| Merge.MergedMeshCoversFaces | src/ptex_utils/ptex_merge.cpp:104-112 | with the corrected flag, the merged mesh has one face per face of the merged texture |
| Merge.RemergedOffsets | src/ptex_utils/ptex_merge.cpp:460-463 | a newer input records its stored offset, the others 0 |
| Merge.RemergeInputs | src/ptex_utils/ptex_merge.cpp:440-466 | 0 iff every newer input opens, passes and fits: room up to offsets[i+1] when it is not the last input, and room up to num_faces for every input; otherwise the code of the first unusable input: -1 if it does not open, 2 if it opened but fails the check or its slot |
| Merge.RemergeChecks | src/ptex_utils/ptex_merge.cpp:392-467 | missing file or time → -1; the options and face count come from the merged file; names are split; offset count ≠ name count → -1; then as RemergeInputs, the first unusable input deciding between -1 and 2 |
| Merge.RunningOffsetsFit | src/ptex_utils/ptex_merge.cpp:453-454 | a file no larger than the one merged at slot i fits the slot the merge recorded |
| Reverse.SwapEdge | src/ptex_utils/ptex_reverse.cpp:4-12 | bottom↔left, right↔top; always an edge id |
| Reverse.ReverseRecord | src/ptex_utils/ptex_reverse.cpp:64-72 | adjfaces'[k] = adjfaces[3-k] and adjedges'[k] = swap_edge(adjedges[3-k]); flag kept |
| Reverse.ReverseRecordTwice | src/ptex_utils/ptex_reverse.cpp:4-12 | reversing twice restores a record with valid edge ids |
| Reverse.ReverseAll | src/ptex_utils/ptex_reverse.cpp:62-72 | each record is reversed |
| Reverse.ReverseAllTwice | src/ptex_utils/ptex_reverse.cpp:62-72 | reversing a file twice restores it |
| Reverse.ReversePreservesConsistency | src/ptex_utils/ptex_reverse.cpp:62-72 | if every link points back (face g edge e names f and k), it still does after reversal |
| Reverse.ReversedRes | src/ptex_utils/ptex_reverse.cpp:84-87 | a constant face keeps its resolution, any other has u and v swapped; the size is kept |
| Reverse.TexelSourceOf | src/ptex_utils/ptex_reverse.cpp:20-24 | output block i·v+j comes from input block j·u+i |
| Reverse.SwapData | src/ptex_utils/ptex_reverse.cpp:18-27 | out is the block transpose of data; data is not modified |
| Reverse.TransposedTwice | src/ptex_utils/ptex_reverse.cpp:18-27 | transposing u×v then v×u restores the data |
| Reverse.WriteOffsetAsWritten | src/ptex_utils/ptex_reverse.cpp:23 | as written, input texel (i, j) goes to offset (i·u + j)·data_size, a row stride of u; never negative |
| Reverse.AsWrittenSquareAgrees | src/ptex_utils/ptex_reverse.cpp:18-27 | on a square face (u = v) every byte the as-written loop writes gets the byte the corrected transpose puts there |
| Reverse.SwapDataAsWrittenOverruns | src/ptex_utils/ptex_reverse.cpp:23 | as written, for u=2, v=1 block (1,0) is written at offset 2, outside the face's two blocks, where the transpose puts it at 1 |
| Helpers.StrBasename | src/ptex_utils/helpers.cpp:5-16 | "." for the empty path; else the last component with trailing '/'s dropped |
| Helpers.BasenameShape | src/ptex_utils/helpers.cpp:9-15 | a non-empty piece of the path; "/" for all slashes, otherwise slash-free |
| Helpers.BasenameOfJoin | src/ptex_utils/helpers.cpp:9-15 | the base name of dir/name followed by slashes is name |
| ObjReader.ObjMesh.constructor | src/ptex_utils/objreader.cpp:39-45 | an empty mesh |
| ObjReader.SkipSpace | src/ptex_utils/objreader.cpp:5-9 | the text after its longest prefix of ' ', '\t', '\r' |
| ObjReader.GetToken | src/ptex_utils/objreader.cpp:11-18 | old text = blanks ++ token ++ blanks ++ rest; the token is a maximal blank-free run ('\n' included); empty iff all blanks |
| ObjReader.ParseLine | src/ptex_utils/objreader.cpp:20-37 | always 0; the mesh is untouched; no token exactly for a blank line or one ending (NUL or '\n') after the blanks |

## Left out

- Ptex library I/O is not modelled: opening and writing textures, metadata reads and writes, `append_ptexture`'s data copying, `write_meta_block`, and the `ptex_merge`/`ptex_remerge`/`ptex_reverse`/`make_constant` orchestration. Opened files are `Texture` values; a file that cannot be opened is `None`.
- Conversion between data types (`ConvertToFloat`/`ConvertFromFloat`) is floating point in a foreign library.
- Filesystem calls (`absolute`, `current_path`, `last_write_time`) are not modelled. A remerge takes the write times as a map from names to times and the openable files as a map from names to textures; `searchdir / name` is a lookup by name. `strip_prefix` works on sequences of path components.
- The user callback that can interrupt a merge calls out of the code.
- Counters are unbounded integers: int32 overflow of the counts, offsets and vertex numbers is not modelled.
- `FaceInfo.adjedges` is a packed 2-bit field in ptex; it is a sequence of four ints here. The record's resolution is the placeholder `Res(0,0)` and is left out.
- The data buffers of `ptex_reverse` are not modelled beyond one face's transpose. That includes the `realloc` at ptex_reverse.cpp:79, which reallocates `data` a second time instead of `outdata`.
- `parse_obj`'s file reading loop is I/O. A null `strbasename` argument is modelled as the empty string (both give ".").
- Mesh.BuildMesh: the input must have non-zero vertex counts and exactly Σnv vertex indices. The source takes a raw array and reads only the first Σnv indices: it reads out of bounds when there are fewer, and ignores any beyond them, so the model's `verts` is that prefix. Opposite links are proved to be the partners only when each directed vertex pair occurs at most once. With repeated pairs the model still follows the map's first-write-wins behaviour exactly, but no partner property is claimed.
- HalfEdge.PrevVert, HalfEdge.AdjacentFace and HalfEdge.AdjacentEdge: their contracts give only the null cases. The non-null results are the field reads themselves, checked through FaceInfos.RecordRange and FaceInfos.LinkTarget.
- No lemma computes the records of a concrete mesh such as an isolated triangle or an isolated quad. Their adjacency is stated for all meshes by Mesh.SubfaceSidesMutual (inner sides of subfaces), Adjacency.SplitNeighboursMutual, Adjacency.QuadNeighboursMutual and Adjacency.QuadSplitOneWay (across input edges), and their numbering by Mesh.PtexNumbering.
- Adjacency is not symmetric for every face: at a kept quad next to a split face the source links one way only (Adjacency.QuadSplitOneWay).
- Mesh.SubfaceSidesMutual requires that no directed vertex pair repeats in the split mesh. In a face such as [a, b, a, c, d] two corners share a midpoint and an inner pair repeats; the edge map's first entry then decides the links.
- Merge.StripChannels requires at least one pixel when channels are dropped. With zero pixels the source's loop starts past its end and never stops.
- The data type and data-size bookkeeping (`DataSize`, `data_type`) is left out; pixel and block sizes are parameters.

## Findings

| source | as written | input that shows it | evidently intended | confidence | as-written member | corrected member |
|---|---|---|---|---|---|---|
| src/ptex_utils/mesh.cpp:310 | inside `if (nface.adjfaces[f] == -1)` the same `nface` slot is tested again, so a boundary in the first file is accepted against any neighbour in the second | one record with adjfaces [-1,-1,-1,-1] against one with [5,-1,-1,-1], same adjedges and flag, offsets 0 | test `mface.adjfaces[f] == -1` | high (not executed) | FaceInfos.TopologyMatchAsWritten, FaceInfos.BoundaryMismatchAccepted | FaceInfos.TopologyMatch, FaceInfos.MatchesRefines |
| src/ptex_utils/ptex_merge.cpp:107 | the flag set is `info.options.merge_mesh`, while line 104 tests `info.merge_mesh`, which therefore never clears | a first file of 2 faces without mesh data, then one of 3 faces with a 3-face mesh: the merged mesh has 3 faces for a 5-face texture | clear `info.merge_mesh` when a file has no mesh | high (not executed) | Merge.InputInfo.AppendInputAsWritten, Merge.MeshFlagAsWrittenMismatch | Merge.InputInfo.AppendInput, Merge.AppendInputs, Merge.MergedMeshCoversFaces |
| src/ptex_utils/ptex_reverse.cpp:23 | output block offset `(i*u_size+j)*data_size` strides by u instead of v | u=2, v=1: block (i=1, j=0) is written at offset 2, outside the u·v blocks written out for the face, and block 1 keeps stale data; with u=1024, v=256 the largest offset, 1023·1024+255 blocks, is past the 512·512-block buffer | `(i*v_size+j)*data_size`, the v×u transpose | high (not executed) | Reverse.WriteOffsetAsWritten, Reverse.SwapDataAsWrittenOverruns | Reverse.SwapData, Reverse.TransposedTwice |
