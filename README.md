# Skirt bones and rigid joints, modelled in Dafny

Two Blender scripts turn a cloth skirt into a physics rig for an MMD model.

- `skirt_bones.py` works on the skirt mesh:
  1. It builds the vertex neighbour map from the mesh edges.
  2. It climbs from vertex 0 to a local top, the root.
  3. It walks the top ridge from there, always taking the first unvisited vertex among the two highest neighbours.
  4. From every third ridge vertex it descends a column, always stepping to the lowest neighbour, until it reaches a vertex with exactly three neighbours.
  5. It keeps every second vertex of each column.
  6. On that grid it places an empty `SE_c_r` at each kept vertex below the top of a column.
  7. It adds a bone `SB_c_r` from row r to row r + 1, parented to `SB_c_(r-1)`.
  8. It puts an IK constraint on every bone, aimed at the empty at the bone's tail.
- `add_rigid_joints.py` works on the armature:
  1. It finds the bones whose names match `SB_([0-9]+)_([0-9])` and places them in a matrix `bone_mat[i][j]`.
  2. It creates one box-shaped dynamic rigid body `Rigid_SB_i_j` per cell.
  3. Per cell it creates two locked joints:
     - a vertical joint `Joint_SB_V_i_j` between (i, j-1) and (i, j);
     - a horizontal joint `Joint_SB_H_i_j` between (i, j) and the same row of the next chain, where the last chain wraps round to chain 0.

The model keeps the combinatorial core of both scripts:

- the graph walks;
- the index arithmetic;
- the names the scripts generate and parse;
- the order in which things are created.

It leaves out the geometry and the Blender calls. Modules:

- `Wrappers`: the Option and Result types.
- `Decimal`: decimal formatting of indices (`f"{n}"`), `int()` of a digit run, and the injectivity of the `P{i}_{j}` names.
- `GridOrder`: grid cells and the row-major order of the nested loops.
- `Finite`: sizes of finite sets, for the termination and fuel arguments.
- `Adjacency`: the `neighbors` map and `sort_neighbors`.
- `GridExtract`: the ascent to the root, the ridge walk, the column descent, and sub-sampling with `[::n]`.
- `Skeleton`: the empties, bones and IK constraints.
- `SkirtBones`: the first script end to end.
- `BonePattern`: the name pattern and `find_target_bone_matrix`, plus the grid size and the KeyError / ZeroDivisionError paths of the second script.
- `RigidJoints`: the rigid bodies and joints, and the second script end to end.

Most loops of the scripts are `method`s proved equal to a ghost specification function, with the properties the scripts rely on stated as lemmas about those functions. The edge loop and the ridge walk are proved against the properties that define their result instead: `AdjacencyOf` for the neighbour map, which `AdjacencyUnique` shows determines it, and `RidgeSoFar` for the ridge.

## Model

| member | source | states |
|---|---|---|
| Adjacency.Nbrs | skirt_bones.py:36 | `neighbors[v]` on the defaultdict: v's neighbour set, empty for a vertex no edge touches; `BuildNeighbors` states that u is in it exactly when an edge joins u and v |
| Adjacency.BuildNeighbors | skirt_bones.py:27-32 | the map it builds holds v in the set of u exactly when some edge joins u and v in either direction, and it is `NeighborsOf(edges)` |
| Adjacency.AdjacencyUnique | skirt_bones.py:27-32 | any map that relates exactly the joined vertices, with no empty entry, is `NeighborsOf(edges)`: the edges determine `neighbors` |
| Adjacency.NeighborsOfAdjacency | skirt_bones.py:27-32 | `NeighborsOf(edges)` relates exactly the vertices some edge joins, has no empty entry, and is symmetric and closed |
| Adjacency.AdjacencySymmetric | skirt_bones.py:27-32 | the neighbour relation is symmetric, and every neighbour is itself a key of the map |
| Adjacency.HighestExists | skirt_bones.py:40 | a non-empty neighbour set has a highest member under the (elevation, index) order |
| Adjacency.RankingExists | skirt_bones.py:34-41 | every neighbour set has a ranking that lists each neighbour once, strictly descending by (elevation, index) |
| Adjacency.RankingUnique | skirt_bones.py:40 | two such rankings of the same set are equal, so the sorted list is determined by the set |
| Adjacency.RankExtremes | skirt_bones.py:40 | the first entry of the ranking is above every other neighbour and the last entry is below every other neighbour |
| Adjacency.SortDescending | skirt_bones.py:40 | `sorted(..., reverse=True)` returns a permutation of its input in descending tuple order |
| Adjacency.DistinctCounts | skirt_bones.py:36-39 | a list without repeats holds each element at most once as a multiset |
| Adjacency.SortedRanks | skirt_bones.py:34-41 | the sorted list of (elevation, neighbour) pairs is a descending ranking of the neighbour set |
| Adjacency.SortNeighbors | skirt_bones.py:34-41 | `sort_neighbors` returns the unique descending ranking of the vertex's neighbours, empty for a vertex without neighbours |
| GridExtract.HigherShrinks | skirt_bones.py:52-53 | moving to a strictly higher vertex shrinks the set of vertices above the current one, so the ascent ends |
| GridExtract.AscentClimbs | skirt_bones.py:44-56 | the ascent starts at the start vertex, steps each time to the highest neighbour, which lies strictly higher, and stops where no neighbour is higher |
| GridExtract.AscendFindsLocalMax | skirt_bones.py:44-56 | a successful ascent ends at a vertex with neighbours, none higher than it, and no lower than the start |
| GridExtract.AscendFailsOnlyAtStart | skirt_bones.py:50 | on a symmetric neighbour map the `lst_nei_z[0]` IndexError can occur only at the start vertex, and it occurs exactly when that vertex has no neighbours |
| GridExtract.FindRoot | skirt_bones.py:44-56 | the `while True` ascent loop returns what the ascent specification returns |
| GridExtract.Cands | skirt_bones.py:62 | the candidates are the vertices of the first two ranked entries, or of all of them when there are fewer |
| GridExtract.FirstNew | skirt_bones.py:62-69 | the `for ... else` finds nothing exactly when every candidate is listed; otherwise it finds the first unlisted candidate |
| GridExtract.RidgePrefix | skirt_bones.py:58-69 | two ridge walks from the same root agree on their common length: each step of the walk is determined by the vertices before it |
| GridExtract.RidgeStep | skirt_bones.py:62-66 | vertex n of a ridge walk is the first unlisted candidate of its first n vertices |
| GridExtract.RidgeOutgrows | skirt_bones.py:58-69 | once the walk stops, no ridge walk from the same root is longer |
| GridExtract.RidgeUnique | skirt_bones.py:58-69 | the finished ridge walk from a root is unique, so the ridge is determined by the mesh |
| GridExtract.RidgeExtend | skirt_bones.py:63-66 | appending the first new candidate keeps the ridge starting at the root, free of repeats, with each step among the two highest neighbours of the previous vertex |
| GridExtract.WalkRidge | skirt_bones.py:58-69 | the ridge starts at the root and has no repeats; each vertex is the first unvisited of the two highest neighbours of the one before; it stops when both candidates are visited |
| GridExtract.DescentShape | skirt_bones.py:81-89 | each descent step goes to the lowest neighbour; the descent stops at the first vertex with exactly three neighbours and takes at most fuel steps |
| GridExtract.ColumnShape | skirt_bones.py:79-89 | a column starts at its top, has at least two vertices, moves to the lowest neighbour at each step, and only its last vertex below the top has three neighbours |
| GridExtract.FuelMonotone | skirt_bones.py:81-89 | giving a finished descent at least as much fuel as it used steps yields the same path |
| GridExtract.LowestUnique | skirt_bones.py:83 | the lowest neighbour, `lst_nei_zv[-1]`, is unique |
| GridExtract.DescentReplays | skirt_bones.py:81-89 | once the descent revisits a vertex it replays its path from the first visit |
| GridExtract.DescentDistinct | skirt_bones.py:81-89 | a finished descent visits each vertex once, all of them vertices with neighbours, so it takes at most as many steps as there are such vertices |
| GridExtract.FuelSuffices | skirt_bones.py:81-89 | whenever some number of steps lets the descent finish, the model's bound gives the same column: the bound never cuts short a descent the script completes |
| GridExtract.NoTerminalIsEndless | skirt_bones.py:81-89 | when the bounded descent reports `NoTerminal`, the descent does not finish with any number of steps, so the script loops forever |
| GridExtract.DescendColumn | skirt_bones.py:79-89 | the descent loop returns the column specification, including its IndexError and its non-termination bound |
| GridExtract.EveryLength | skirt_bones.py:91 | `s[::n]` keeps ceil(len(s) / n) elements |
| GridExtract.EveryAt | skirt_bones.py:91 | element k of `s[::n]` is `s[k*n]` |
| GridExtract.Every | skirt_bones.py:78 | `s[::n]`; its contract is stated by `EveryPicks` |
| GridExtract.EveryPicks | skirt_bones.py:78 | `s[::n]` has length ceil(len(s) / n) and its element k is `s[k*n]` |
| GridExtract.BuildColumns | skirt_bones.py:77-91 | there is one column per `N_STEP_HORI`-th ridge vertex, each the column descent sub-sampled by `N_STEP_VERT`; the first failing descent is the error returned |
| GridExtract.ColumnsOnRidge | skirt_bones.py:77-91 | the columns start on ridge vertices `N_STEP_HORI` apart and are just enough to cover the ridge |
| GridExtract.ExtractionSound | skirt_bones.py:44-91 | the ascent's end, the finished ridge walk and the column loop's result make up an extraction (`ExtractedFrom`) |
| GridExtract.ExtractionFacts | skirt_bones.py:44-91 | in an extraction from the edges the root has neighbours, none higher, and is no lower than vertex 0; the ridge starts at the root without repeats; column c starts at ridge vertex 3c |
| GridExtract.ExtractionExclusive | skirt_bones.py:44-91 | no mesh both yields an extraction and satisfies `ExtractionFails`, so a run fails exactly when the ascent or some column descent of the unique ridge fails |
| GridExtract.ExtractGrid | skirt_bones.py:27-91 | a successful run is the extraction of the mesh: the root is the ascent's end from vertex 0, the ridge is the full walk from it, and column c is the descent from ridge vertex 3c with every second vertex kept; a failed run is explained by `ExtractionFails`: the ascent failed with that error, or the descent of some column seeded by the full ridge walk is the first to fail with it; vertex 0 without edges always gives the IndexError |
| Skeleton.SlotsFacts | skirt_bones.py:107-108 | the nested loops visit exactly the in-range (column, row) pairs, in strictly increasing order |
| Skeleton.BoneFor | skirt_bones.py:164-169 | the bone from row r to row r + 1 of column c; its contract is stated by `BonesCover` and `BoneParents` |
| Skeleton.EmptyFor | skirt_bones.py:112-115 | the empty at row r of column c; its contract is stated by `EmptiesCover` |
| Skeleton.IkFor | skirt_bones.py:176-184 | the IK constraint of bone (c, r); its contract is stated by `IkTargetsResolve` |
| Skeleton.BonesCover | skirt_bones.py:154-169 | there is one bone per pair of consecutive kept vertices of a column, from row r to row r + 1, and no other |
| Skeleton.BoneNamesDistinct | skirt_bones.py:164 | no two bones share a name |
| Skeleton.BoneParents | skirt_bones.py:168-169 | every parent named is an earlier bone whose tail is this bone's head; unparented bones start at the top of a column |
| Skeleton.EmptiesCover | skirt_bones.py:107-115 | there is one empty per kept vertex below the top of a column, and no other |
| Skeleton.EmptyNamesDistinct | skirt_bones.py:115 | no two empties share a name |
| Skeleton.IkTargetsResolve | skirt_bones.py:174-184 | there is one IK constraint per bone, with 50 iterations and chain count 1; its target names an existing empty placed at the bone's tail |
| Skeleton.AddEmpties | skirt_bones.py:107-115 | the empty loop creates exactly the empties of the specification, in loop order |
| Skeleton.AddBones | skirt_bones.py:154-169 | the bone loop creates exactly the bones of the specification, in loop order |
| Skeleton.AddConstraints | skirt_bones.py:174-184 | the pose loop creates exactly the constraints of the specification, in loop order |
| Skeleton.BuildRig | skirt_bones.py:107-184 | the three loops together produce the rig of the specification |
| SkirtBones.BuildSkirtRig | skirt_bones.py:27-184 | a successful run yields the extraction of the mesh and the rig of its columns; a failed run is explained by `ExtractionFails` (a failing ascent, or a first failing column descent, with that error); a failing ascent gives its error; vertex 0 without edges aborts before anything is created |
| Decimal.Value | add_rigid_joints.py:37 | `int()` of a digit group; `ValueOfShow` states that it reads back the index `str` wrote |
| Decimal.Show | skirt_bones.py:164 | `str(n)`: a non-empty run of digits; its value is stated by `ValueOfShow` |
| Decimal.PairName | add_rigid_joints.py:18-19 | the name `P{i}_{j}`; its contract is stated by `PairNameInjective` and `PairNamesApart` |
| Decimal.ValueOfShow | add_rigid_joints.py:37 | `int()` of the decimal rendering of n is n |
| Decimal.ShowStartsWithLeadingDigit | add_rigid_joints.py:17 | the rendering of n starts with its leading digit, which is n itself below 10 |
| Decimal.ShowInjective | skirt_bones.py:164 | different indices render differently |
| Decimal.RunEndAfterDigits | add_rigid_joints.py:17 | a greedy `[0-9]+` run over a rendered number followed by `_` ends exactly at the `_` |
| Decimal.PairNameInjective | add_rigid_joints.py:18-19 | a name `P{i}_{j}` determines i and j |
| Decimal.PairNamesApart | add_rigid_joints.py:18-19 | names with different prefixes, neither a prefix of the other, never collide |
| BonePattern.MatchAt | add_rigid_joints.py:17 | the greedy match at one position; its contract is stated by `MatchAtCorrect` |
| BonePattern.Search | add_rigid_joints.py:34-36 | `re.search(NAME_PATTERN, name)` and `m.groups()`; its contract is stated by `SearchLeftmost` |
| BonePattern.MatchAtCorrect | add_rigid_joints.py:17 | the matcher at a position fails exactly when the pattern cannot match there, and otherwise returns the groups of the greedy match |
| BonePattern.SearchFromCorrect | add_rigid_joints.py:34 | the search from p finds the groups of the leftmost match at or after p, and fails exactly when there is none |
| BonePattern.SearchLeftmost | add_rigid_joints.py:34-36 | `re.search` finds the groups of the leftmost match, and fails exactly when the name has none |
| BonePattern.NameRoundTrip | add_rigid_joints.py:34-37 | the bone named `SB_c_r` by the bone script parses back as (c, r) for rows below 10, and as (c, leading digit of r) otherwise |
| BonePattern.MatrixStep | add_rigid_joints.py:37 | one more bone sets its own cell and leaves every other cell as it was |
| BonePattern.MatrixCells | add_rigid_joints.py:33-37 | a cell is filled exactly when some bone name parses to it |
| BonePattern.MatrixLast | add_rigid_joints.py:37 | a filled cell holds the last bone whose name parses to it |
| BonePattern.MatrixRowsFilled | add_rigid_joints.py:32-37 | every row index present holds at least one bone |
| BonePattern.MatrixContents | add_rigid_joints.py:29-39 | a cell is filled exactly when some name parses to it, and it holds the last such name |
| BonePattern.MatrixRows | add_rigid_joints.py:29-39 | a row index is present exactly when some name parses to that row |
| BonePattern.FindTargetBoneMatrix | add_rigid_joints.py:29-39 | the loop over the bones builds exactly the matrix of the specification |
| BonePattern.FirstMissing | add_rigid_joints.py:120-123 | nothing is returned exactly when every listed cell is filled; otherwise the first unfilled cell in list order |
| BonePattern.BelowFacts | add_rigid_joints.py:120 | `range(n)` holds n indices, exactly those below n |
| BonePattern.RowOf | add_rigid_joints.py:37 | `bone_mat[i]` on the defaultdict: row i, empty when absent, so the assignment creates the row; `MatrixStep` states the row keys and the cell stored |
| BonePattern.NumJ | add_rigid_joints.py:113 | `len(bone_mat[0])` on the defaultdict; its contract is stated by `GridCorrect` |
| BonePattern.GridOf | add_rigid_joints.py:112-123 | NUM_I, NUM_J and the first error of the cell reads; its contract is stated by `GridCorrect` |
| BonePattern.GridCorrect | add_rigid_joints.py:112-123 | the grid is usable exactly when some bone matched, row 0 holds at least two bones and every cell below NUM_I by NUM_J is filled; then the rows are exactly 0 .. NUM_I - 1; no bones at all is the zero-division of `vector_average`; a full grid of one row is the zero-division of `normalize(vec_Z)`; a reported missing cell holds no bone and lies in the grid, or is (0, 0) when row 0 is absent |
| RigidJoints.Next | add_rigid_joints.py:123 | `i+1 if i+1<NUM_I else 0` is a chain index; `NextPrevModular` states its value |
| RigidJoints.Prev | add_rigid_joints.py:123 | `i-1 if i-1 >= 0 else NUM_I-1` is a chain index; `NextPrevModular` states its value |
| RigidJoints.NextPrevModular | add_rigid_joints.py:123 | the wrapped neighbour indices are (i + 1) mod n and (i - 1) mod n |
| RigidJoints.NextPrevInverse | add_rigid_joints.py:123 | the right neighbour of the left neighbour is the chain itself, and so is the left neighbour of the right neighbour |
| RigidJoints.WalkRing | add_rigid_joints.py:169 | following the right neighbour k times from chain 0 reaches chain k, and n times returns to chain 0 |
| RigidJoints.CellsInRange | add_rigid_joints.py:120-121 | every cell the loops visit lies in the grid |
| RigidJoints.FrameAt | add_rigid_joints.py:122-125 | the frame of cell (i, j) from `compute_height_width`; its contract is stated by `FrameOfCell` |
| RigidJoints.FrameOfCell | add_rigid_joints.py:122-125 | the frame is computed from the cell's own bone, then the same row's bone of chain (i + 1) mod NUM_I, then that of chain (i - 1) mod NUM_I; the neighbours are the cell itself exactly when there is one chain |
| RigidJoints.RigidFor | add_rigid_joints.py:127-136 | the rigid body of cell (i, j); its contract is stated by `RigidBodiesShape` and `RigidBonesReadBack` |
| RigidJoints.VerticalFor | add_rigid_joints.py:147-160 | the vertical joint of cell (i, j); its contract is stated by `VerticalLinks` and `JointsLocked` |
| RigidJoints.HorizontalFor | add_rigid_joints.py:163-175 | the horizontal joint of cell (i, j); its contract is stated by `HorizontalLinks` and `JointsLocked` |
| RigidJoints.RigidsOverAt | add_rigid_joints.py:127-136 | after the loop has visited some cells, the rigid body list holds, at each position, the body of the cell visited there |
| RigidJoints.JointsOverAt | add_rigid_joints.py:147-176 | after the loop has visited some cells, the joint list holds two joints per cell in visit order, vertical first |
| RigidJoints.RigidMapOverKeys | add_rigid_joints.py:137 | `rigid_map` holds exactly the visited cells, each mapped to its own body |
| RigidJoints.RigidMapContents | add_rigid_joints.py:119-137 | after the first loop `rigid_map` holds exactly the grid cells, each mapped to its body |
| RigidJoints.RigidMapNamed | add_rigid_joints.py:137 | every grid cell's entry in `rigid_map` is the body named `Rigid_SB_i_j` |
| RigidJoints.RigidsLength | add_rigid_joints.py:120-176 | NUM_I * NUM_J rigid bodies and twice as many joints are created |
| RigidJoints.RigidAt | add_rigid_joints.py:120-137 | the k-th rigid body belongs to the k-th cell in row-major order |
| RigidJoints.JointAt | add_rigid_joints.py:139-176 | joints 2k and 2k + 1 are the vertical and horizontal joints of the k-th cell |
| RigidJoints.RigidOfCell | add_rigid_joints.py:127-136 | every grid cell has a rigid body built for it |
| RigidJoints.JointsOfCell | add_rigid_joints.py:147-176 | every grid cell has its vertical and horizontal joint in the list |
| RigidJoints.RigidBodiesCover | add_rigid_joints.py:120-137 | there are exactly NUM_I * NUM_J bodies; each grid cell has one and each body belongs to a grid cell |
| RigidJoints.RigidBodiesShape | add_rigid_joints.py:132-134 | every body is a dynamic box, `RIGID_THICK` thick |
| RigidJoints.RigidBonesReadBack | add_rigid_joints.py:135 | the bone bound to each body parses back to the body's own cell, and the body is the one built for that cell |
| RigidJoints.RigidBone | add_rigid_joints.py:135 | the bone bound to body k parses to a cell in the grid |
| RigidJoints.RigidNamesDistinct | add_rigid_joints.py:128-135 | no two bodies share a name, and no two are bound to the same bone |
| RigidJoints.JointsLocked | add_rigid_joints.py:154-175 | there are 2 * NUM_I * NUM_J joints, and all of them have zero limits and springs |
| RigidJoints.VerticalLinks | add_rigid_joints.py:147-153 | every cell has a vertical joint linking (i, j-1) to (i, j); in row 0 it links no bodies |
| RigidJoints.HorizontalLinks | add_rigid_joints.py:163-169 | every cell has a horizontal joint linking (i, j) to the same row of the next chain |
| RigidJoints.HorizontalRing | add_rigid_joints.py:169 | every body is the second body of the horizontal joint of the chain before it, so the chains close into a ring |
| RigidJoints.JointNameAt | add_rigid_joints.py:148-164 | joint 2k is named `Joint_SB_V_i_j` and joint 2k + 1 `Joint_SB_H_i_j` for the k-th cell (i, j) |
| RigidJoints.JointNamesDistinct | add_rigid_joints.py:148-164 | no two joints share a name |
| RigidJoints.JointsResolve | add_rigid_joints.py:152-169 | every rigid body a joint names is one of the bodies created |
| RigidJoints.VisitStep | add_rigid_joints.py:120-176 | visiting one more cell appends that cell's body and joints and adds its map entry |
| RigidJoints.OrderStep | add_rigid_joints.py:120-121 | stepping j and then i in the nested `range` loops walks the cells in row-major order |
| RigidJoints.CreateRigidBodies | add_rigid_joints.py:119-137 | the first loop creates exactly the bodies of the specification and fills `rigid_map` with them |
| RigidJoints.CellJoints | add_rigid_joints.py:141-176 | the two joints one cell creates, with bodies looked up in `rigid_map`, are that cell's vertical and horizontal joints |
| RigidJoints.CreateJoints | add_rigid_joints.py:139-176 | the second loop creates exactly the joints of the specification |
| RigidJoints.AddRigidJoints | add_rigid_joints.py:108-176 | the model fails exactly when `GridOf` rejects the bone matrix, with that error; otherwise it creates the bodies and joints of the full grid |

## Left out

- Blender and mmd_tools calls are not modelled. This covers object creation, selection, modes, collections, `get_model` and the printing. Each script's output is the list of things it creates, in creation order.
- Vertex parenting of the empties (`skirt_bones.py:119-140`) is not modelled: it only selects objects and calls an operator. An empty records the vertex it is anchored to.
- Positions are not computed. Empties and bones record vertex indices rather than world-space coordinates, and the matrix products are left out.
- Elevation is given as an integer-valued function of the vertex index. The script computes it from floating-point coordinates, but only compares elevations. The `(z, index)` tuple order is kept.
- The geometry of the second script is an opaque `Geometry` value: the average origin and up direction, `compute_height_width`, widths, heights, centres, rotations and bone heads. Sizes, locations and rotations are passed through from it unchanged; only `size.x == RIGID_THICK` is stated.
- GridExtract.DescendColumn: the script's descent has no bound and can loop forever. The model bounds it by the number of vertices with neighbours and reports `NoTerminal` when the bound is reached. `FuelSuffices` shows that the bound never stops a descent the script would finish.
- GridExtract.ExtractGrid: the IndexError on an empty neighbour list is modelled as `Isolated(v)`.
- RigidJoints.AddRigidJoints: the script stops at its first KeyError, after having created the bodies or joints of earlier cells. The model checks the whole grid up front and creates nothing on error. The cell it reports is the first missing cell in row-major order. The script may hit a different missing cell first: lines 115-116 read rows 0 and NUM_J - 1 of every chain first, and line 123 reads the next and previous chain's cells ahead of row-major order.
- RigidJoints.AddRigidJoints: the model does not fail on geometry, and the script can. With a single chain (NUM_I == 1) a cell is its own left and right neighbour. `compute_width` then builds a matrix that is singular in exact arithmetic, so `A.invert()` at line 73 fails, or after rounding gives a meaningless width. `normalize` (line 45) divides by zero when a bone has zero length or the up direction averages to zero. Line 94 divides by zero when a bone centre lies level with the origin. All of these depend on bone coordinates, which the model takes as an opaque `Geometry`. The one such failure that holds for every set of coordinates, a grid of one row, is modelled as `FlatGrid`.
- RigidJoints.AddRigidJoints: joints name the rigid bodies they link. The script passes the rigid body objects.
- NameRoundTrip: the pattern's second group is a single digit. A row index of 10 or more parses as its leading digit; the model states this rather than a full round trip.
- A vertical joint in row 0 is created with no bodies on either side (`add_rigid_joints.py:152-153`). The model follows the code here.
