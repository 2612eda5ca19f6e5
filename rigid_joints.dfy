/**
 * The rigid bodies and joints the rigid-body script adds to an MMD model:
 * one box-shaped dynamic rigid body `Rigid_SB_i_j` per cell of the bone
 * grid, bound to bone (i, j); a vertical joint `Joint_SB_V_i_j` linking
 * (i, j - 1) to (i, j) along chain i; and a horizontal joint
 * `Joint_SB_H_i_j` linking (i, j) to the same row of the next chain,
 * the last chain wrapping round to chain 0. Every joint is locked: all
 * limits and springs are zero.
 *
 * The floating-point geometry (widths, heights, centres, rotations) is
 * not modelled: it enters as an opaque Geometry.
 */
module RigidJoints {
  import opened Wrappers
  import opened Decimal
  import opened GridOrder
  import opened BonePattern

  const RIGID_PREFIX: string := "Rigid_SB_"
  const JOINT_V_PREFIX: string := "Joint_SB_V_"
  const JOINT_H_PREFIX: string := "Joint_SB_H_"
  /** Thickness of every rigid body, along its local x axis. */
  const RIGID_THICK: real := 0.2
  /** `dynamics_type = 1`, MODE_DYNAMIC. */
  const MODE_DYNAMIC: nat := 1

  function RigidName(i: nat, j: nat): string { PairName(RIGID_PREFIX, i, j) }
  function JointVName(i: nat, j: nat): string { PairName(JOINT_V_PREFIX, i, j) }
  function JointHName(i: nat, j: nat): string { PairName(JOINT_H_PREFIX, i, j) }

  // ---------------------------------------------------------------------
  // Neighbouring chains

  /** `i+1 if i+1 < NUM_I else 0`: the chain to the right, wrapping round. */
  function Next(i: nat, n: nat): (k: nat)
    requires i < n
    ensures k < n
  {
    if i + 1 < n then i + 1 else 0
  }

  /** `i-1 if i-1 >= 0 else NUM_I-1`: the chain to the left, wrapping round. */
  function Prev(i: nat, n: nat): (k: nat)
    requires i < n
    ensures k < n
  {
    if i >= 1 then i - 1 else n - 1
  }

  /** Right and left are one step forward and back modulo the number of chains. */
  lemma NextPrevModular(i: nat, n: nat)
    requires i < n
    ensures Next(i, n) == (i + 1) % n
    ensures Prev(i, n) == (i + n - 1) % n
  {
    if i + 1 < n {
      ModSmall(i + 1, n);
    } else {
      ModSmall(0, n);
      ModShift(0, n);
    }
    if i >= 1 {
      ModSmall(i - 1, n);
      ModShift(i - 1, n);
    } else {
      ModSmall(n - 1, n);
    }
  }

  lemma ModSmall(a: nat, n: nat)
    requires a < n
    ensures a % n == a
  {
  }

  lemma ModShift(a: nat, n: nat)
    requires a < n
    ensures (a + n) % n == a % n
  {
  }

  /** Left and right are inverse to each other. */
  lemma NextPrevInverse(i: nat, n: nat)
    requires i < n
    ensures Prev(Next(i, n), n) == i && Next(Prev(i, n), n) == i
  {
  }

  /** The chain reached from i after k steps to the right. */
  function Walk(i: nat, k: nat, n: nat): (w: nat)
    requires i < n
    ensures w < n
  {
    if k == 0 then i else Next(Walk(i, k - 1, n), n)
  }

  /**
   * k < n steps to the right from chain 0 reach chain k, and n steps come
   * back to chain 0: the chains form one ring through all n of them.
   */
  lemma {:induction false} WalkRing(k: nat, n: nat)
    requires 0 < n && k <= n
    ensures Walk(0, k, n) == if k < n then k else 0
  {
    if k > 0 {
      WalkRing(k - 1, n);
    }
  }

  // ---------------------------------------------------------------------
  // Values the script hands to mmd_tools

  datatype Vec3 = Vec3(x: real, y: real, z: real)

  function Add(a: Vec3, b: Vec3): Vec3 { Vec3(a.x + b.x, a.y + b.y, a.z + b.z) }
  function Scale(a: Vec3, t: real): Vec3 { Vec3(a.x * t, a.y * t, a.z * t) }

  const ZERO: Vec3 := Vec3(0.0, 0.0, 0.0)

  /** Euler angles in YXZ order. */
  datatype Euler = Euler(x: real, y: real, z: real)

  /** What compute_height_width returns for a bone and the bones of the chains to its right and left. */
  datatype CellFrame = CellFrame(width: real, height: real, center: Vec3, rot: Euler, rotZ: Vec3)

  /**
   * The geometry read from the armature: the frame of each bone given its
   * two neighbours (which also depends on the origin and up direction the
   * script averages over the whole grid), and each bone's head.
   */
  datatype Geometry = Geometry(frame: (string, string, string) -> CellFrame, head: string -> Vec3)

  datatype Shape = Sphere | Box | Capsule

  datatype RigidBody = RigidBody(name: string, nameE: string, location: Vec3, rotation: Euler,
                                 size: Vec3, shape: Shape, dynamics: nat, bone: string)

  datatype Limits = Limits(maxLocation: Vec3, minLocation: Vec3, maxRotation: Vec3,
                           minRotation: Vec3, springLinear: Vec3, springAngular: Vec3)

  const LOCKED: Limits := Limits(ZERO, ZERO, ZERO, ZERO, ZERO, ZERO)

  /** A joint names the rigid bodies it links, or None where the script passes None. */
  datatype Joint = Joint(name: string, nameE: string, location: Vec3, rotation: Euler,
                         rigidA: Option<string>, rigidB: Option<string>, limits: Limits)

  datatype Physics = Physics(rigids: seq<RigidBody>, joints: seq<Joint>)

  // ---------------------------------------------------------------------
  // What each cell contributes

  function FrameAt(g: Geometry, mat: BoneMatrix, ni: nat, nj: nat, i: nat, j: nat): CellFrame
    requires Dense(mat, ni, nj) && i < ni && j < nj
  {
    assert Present(mat, (i, j)) && Present(mat, (Next(i, ni), j)) && Present(mat, (Prev(i, ni), j));
    g.frame(mat[i][j], mat[Next(i, ni)][j], mat[Prev(i, ni)][j])
  }

  /**
   * A cell's frame comes from its own bone, the same row's bone of the next
   * chain and that of the previous chain, both taken round the ring; with a
   * single chain all three are the cell's own bone.
   */
  lemma FrameOfCell(g: Geometry, mat: BoneMatrix, ni: nat, nj: nat, i: nat, j: nat)
    requires Dense(mat, ni, nj) && i < ni && j < nj
    ensures Present(mat, (i, j)) && Present(mat, ((i + 1) % ni, j)) && Present(mat, ((i + ni - 1) % ni, j))
    ensures FrameAt(g, mat, ni, nj, i, j) == g.frame(mat[i][j], mat[(i + 1) % ni][j], mat[(i + ni - 1) % ni][j])
    ensures ni == 1 <==> (i + 1) % ni == i
    ensures ni == 1 <==> (i + ni - 1) % ni == i
  {
    NextPrevModular(i, ni);
  }

  function RigidFor(g: Geometry, mat: BoneMatrix, ni: nat, nj: nat, i: nat, j: nat): RigidBody
    requires Dense(mat, ni, nj) && i < ni && j < nj
  {
    var f := FrameAt(g, mat, ni, nj, i, j);
    assert Present(mat, (i, j));
    RigidBody(RigidName(i, j), RigidName(i, j), f.center, f.rot,
              Vec3(RIGID_THICK, f.width, f.height / 2.0), Box, MODE_DYNAMIC, mat[i][j])
  }

  function VerticalFor(g: Geometry, mat: BoneMatrix, ni: nat, nj: nat, i: nat, j: nat): Joint
    requires Dense(mat, ni, nj) && i < ni && j < nj
  {
    var f := FrameAt(g, mat, ni, nj, i, j);
    assert Present(mat, (i, j));
    Joint(JointVName(i, j), JointVName(i, j), g.head(mat[i][j]), f.rot,
          if j > 0 then Some(RigidName(i, j - 1)) else None,
          if j > 0 then Some(RigidName(i, j)) else None,
          LOCKED)
  }

  function HorizontalFor(g: Geometry, mat: BoneMatrix, ni: nat, nj: nat, i: nat, j: nat): Joint
    requires Dense(mat, ni, nj) && i < ni && j < nj
  {
    var f := FrameAt(g, mat, ni, nj, i, j);
    Joint(JointHName(i, j), JointHName(i, j), Add(f.center, Scale(f.rotZ, f.width)), f.rot,
          Some(RigidName(i, j)), Some(RigidName(Next(i, ni), j)), LOCKED)
  }

  ghost predicate InRange(cells: seq<Slot>, ni: nat, nj: nat) {
    forall k :: 0 <= k < |cells| ==> cells[k].0 < ni && cells[k].1 < nj
  }

  ghost function RigidsOver(g: Geometry, mat: BoneMatrix, ni: nat, nj: nat, cells: seq<Slot>): seq<RigidBody>
    requires Dense(mat, ni, nj) && InRange(cells, ni, nj)
    decreases |cells|
  {
    if cells == [] then []
    else
      var p := cells[|cells| - 1];
      RigidsOver(g, mat, ni, nj, cells[..|cells| - 1]) + [RigidFor(g, mat, ni, nj, p.0, p.1)]
  }

  ghost function JointsOver(g: Geometry, mat: BoneMatrix, ni: nat, nj: nat, cells: seq<Slot>): seq<Joint>
    requires Dense(mat, ni, nj) && InRange(cells, ni, nj)
    decreases |cells|
  {
    if cells == [] then []
    else
      var p := cells[|cells| - 1];
      JointsOver(g, mat, ni, nj, cells[..|cells| - 1])
        + [VerticalFor(g, mat, ni, nj, p.0, p.1), HorizontalFor(g, mat, ni, nj, p.0, p.1)]
  }

  /** rigid_map after the first loop has visited the given cells. */
  ghost function RigidMapOver(g: Geometry, mat: BoneMatrix, ni: nat, nj: nat, cells: seq<Slot>): map<Slot, RigidBody>
    requires Dense(mat, ni, nj) && InRange(cells, ni, nj)
    decreases |cells|
  {
    if cells == [] then map[]
    else
      var p := cells[|cells| - 1];
      RigidMapOver(g, mat, ni, nj, cells[..|cells| - 1])[p := RigidFor(g, mat, ni, nj, p.0, p.1)]
  }

  lemma CellsInRange(ni: nat, nj: nat)
    ensures InRange(Cells(ni, nj), ni, nj)
  {
    forall k | 0 <= k < |Cells(ni, nj)|
      ensures Cells(ni, nj)[k].0 < ni && Cells(ni, nj)[k].1 < nj
    {
      CellInGrid(ni, nj, k);
    }
  }

  /** The rigid bodies in creation order: row-major over the grid. */
  ghost function Rigids(g: Geometry, mat: BoneMatrix, ni: nat, nj: nat): seq<RigidBody>
    requires Dense(mat, ni, nj)
  {
    CellsInRange(ni, nj);
    RigidsOver(g, mat, ni, nj, Cells(ni, nj))
  }

  /** rigid_map once the first loop is over. */
  ghost function RigidMap(g: Geometry, mat: BoneMatrix, ni: nat, nj: nat): map<Slot, RigidBody>
    requires Dense(mat, ni, nj)
  {
    CellsInRange(ni, nj);
    RigidMapOver(g, mat, ni, nj, Cells(ni, nj))
  }

  /** The joints in creation order: for each cell, its vertical joint then its horizontal one. */
  ghost function Joints(g: Geometry, mat: BoneMatrix, ni: nat, nj: nat): seq<Joint>
    requires Dense(mat, ni, nj)
  {
    CellsInRange(ni, nj);
    JointsOver(g, mat, ni, nj, Cells(ni, nj))
  }

  lemma {:induction false} RigidsOverAt(g: Geometry, mat: BoneMatrix, ni: nat, nj: nat, cells: seq<Slot>, k: nat)
    requires Dense(mat, ni, nj) && InRange(cells, ni, nj) && k < |cells|
    ensures |RigidsOver(g, mat, ni, nj, cells)| == |cells|
    ensures RigidsOver(g, mat, ni, nj, cells)[k] == RigidFor(g, mat, ni, nj, cells[k].0, cells[k].1)
    decreases |cells|
  {
    var n := |cells| - 1;
    var init := cells[..n];
    var p := cells[n];
    assert RigidsOver(g, mat, ni, nj, cells) == RigidsOver(g, mat, ni, nj, init) + [RigidFor(g, mat, ni, nj, p.0, p.1)];
    RigidsOverLength(g, mat, ni, nj, init);
    if k < n {
      RigidsOverAt(g, mat, ni, nj, init, k);
      assert init[k] == cells[k];
    }
  }

  lemma {:induction false} RigidsOverLength(g: Geometry, mat: BoneMatrix, ni: nat, nj: nat, cells: seq<Slot>)
    requires Dense(mat, ni, nj) && InRange(cells, ni, nj)
    ensures |RigidsOver(g, mat, ni, nj, cells)| == |cells|
    decreases |cells|
  {
    if cells != [] {
      RigidsOverLength(g, mat, ni, nj, cells[..|cells| - 1]);
    }
  }

  lemma {:induction false} JointsOverAt(g: Geometry, mat: BoneMatrix, ni: nat, nj: nat, cells: seq<Slot>, c: nat)
    requires Dense(mat, ni, nj) && InRange(cells, ni, nj) && c < |cells|
    ensures |JointsOver(g, mat, ni, nj, cells)| == 2 * |cells|
    ensures JointsOver(g, mat, ni, nj, cells)[2 * c] == VerticalFor(g, mat, ni, nj, cells[c].0, cells[c].1)
    ensures JointsOver(g, mat, ni, nj, cells)[2 * c + 1] == HorizontalFor(g, mat, ni, nj, cells[c].0, cells[c].1)
    decreases |cells|
  {
    var n := |cells| - 1;
    var init := cells[..n];
    var p := cells[n];
    var last := [VerticalFor(g, mat, ni, nj, p.0, p.1), HorizontalFor(g, mat, ni, nj, p.0, p.1)];
    assert JointsOver(g, mat, ni, nj, cells) == JointsOver(g, mat, ni, nj, init) + last;
    JointsOverLength(g, mat, ni, nj, init);
    if c < n {
      JointsOverAt(g, mat, ni, nj, init, c);
      assert init[c] == cells[c];
    }
  }

  lemma {:induction false} JointsOverLength(g: Geometry, mat: BoneMatrix, ni: nat, nj: nat, cells: seq<Slot>)
    requires Dense(mat, ni, nj) && InRange(cells, ni, nj)
    ensures |JointsOver(g, mat, ni, nj, cells)| == 2 * |cells|
    decreases |cells|
  {
    if cells != [] {
      JointsOverLength(g, mat, ni, nj, cells[..|cells| - 1]);
    }
  }

  lemma {:induction false} RigidMapOverKeys(g: Geometry, mat: BoneMatrix, ni: nat, nj: nat, cells: seq<Slot>)
    requires Dense(mat, ni, nj) && InRange(cells, ni, nj)
    ensures forall p :: p in RigidMapOver(g, mat, ni, nj, cells) <==> p in cells
    ensures forall p :: p in RigidMapOver(g, mat, ni, nj, cells) ==>
      p.0 < ni && p.1 < nj && RigidMapOver(g, mat, ni, nj, cells)[p] == RigidFor(g, mat, ni, nj, p.0, p.1)
    decreases |cells|
  {
    if cells != [] {
      var n := |cells| - 1;
      RigidMapOverKeys(g, mat, ni, nj, cells[..n]);
      assert cells == cells[..n] + [cells[n]];
    }
  }

  /** rigid_map holds exactly the cells of the grid, each with its rigid body. */
  lemma RigidMapContents(g: Geometry, mat: BoneMatrix, ni: nat, nj: nat)
    requires Dense(mat, ni, nj)
    ensures forall p: Slot :: p in RigidMap(g, mat, ni, nj) <==> p.0 < ni && p.1 < nj
    ensures forall p: Slot :: p in RigidMap(g, mat, ni, nj) ==>
      RigidMap(g, mat, ni, nj)[p] == RigidFor(g, mat, ni, nj, p.0, p.1)
  {
    CellsInRange(ni, nj);
    CellsFacts(ni, nj);
    RigidMapOverKeys(g, mat, ni, nj, Cells(ni, nj));
  }

  /** Every cell of the grid is a key of m, bound to the rigid body named after that cell. */
  ghost predicate NamedByCell(m: map<Slot, RigidBody>, ni: nat, nj: nat) {
    forall i: nat, j: nat :: i < ni && j < nj ==> (i, j) in m && m[(i, j)].name == RigidName(i, j)
  }

  /** rigid_map gives every cell of the grid the rigid body named after that cell. */
  lemma RigidMapNamed(g: Geometry, mat: BoneMatrix, ni: nat, nj: nat)
    requires Dense(mat, ni, nj)
    ensures NamedByCell(RigidMap(g, mat, ni, nj), ni, nj)
  {
    RigidMapContents(g, mat, ni, nj);
  }

  lemma RigidsLength(g: Geometry, mat: BoneMatrix, ni: nat, nj: nat)
    requires Dense(mat, ni, nj)
    ensures |Rigids(g, mat, ni, nj)| == |Cells(ni, nj)| == ni * nj
    ensures |Joints(g, mat, ni, nj)| == 2 * |Cells(ni, nj)|
  {
    CellsLength(ni, nj);
    if |Cells(ni, nj)| > 0 {
      RigidAt(g, mat, ni, nj, 0);
      JointAt(g, mat, ni, nj, 0);
    } else {
      CellsInRange(ni, nj);
    }
  }

  /** Rigid body k is the one of the k-th cell in row-major order. */
  lemma RigidAt(g: Geometry, mat: BoneMatrix, ni: nat, nj: nat, k: nat)
    requires Dense(mat, ni, nj) && k < |Cells(ni, nj)|
    ensures |Rigids(g, mat, ni, nj)| == |Cells(ni, nj)|
    ensures Cells(ni, nj)[k].0 < ni && Cells(ni, nj)[k].1 < nj
    ensures Rigids(g, mat, ni, nj)[k] == RigidFor(g, mat, ni, nj, Cells(ni, nj)[k].0, Cells(ni, nj)[k].1)
  {
    CellsInRange(ni, nj);
    RigidsOverAt(g, mat, ni, nj, Cells(ni, nj), k);
  }

  /** Joints 2c and 2c + 1 are the vertical and horizontal joints of the c-th cell. */
  lemma JointAt(g: Geometry, mat: BoneMatrix, ni: nat, nj: nat, c: nat)
    requires Dense(mat, ni, nj) && c < |Cells(ni, nj)|
    ensures |Joints(g, mat, ni, nj)| == 2 * |Cells(ni, nj)|
    ensures Cells(ni, nj)[c].0 < ni && Cells(ni, nj)[c].1 < nj
    ensures Joints(g, mat, ni, nj)[2 * c] == VerticalFor(g, mat, ni, nj, Cells(ni, nj)[c].0, Cells(ni, nj)[c].1)
    ensures Joints(g, mat, ni, nj)[2 * c + 1] == HorizontalFor(g, mat, ni, nj, Cells(ni, nj)[c].0, Cells(ni, nj)[c].1)
  {
    CellsInRange(ni, nj);
    JointsOverAt(g, mat, ni, nj, Cells(ni, nj), c);
  }

  // ---------------------------------------------------------------------
  // Properties of the rigid bodies and joints

  /** The rigid body of cell (i, j) sits at its position in Cells. */
  lemma RigidOfCell(g: Geometry, mat: BoneMatrix, ni: nat, nj: nat, i: nat, j: nat) returns (k: nat)
    requires Dense(mat, ni, nj) && i < ni && j < nj
    ensures k < |Rigids(g, mat, ni, nj)| && Rigids(g, mat, ni, nj)[k] == RigidFor(g, mat, ni, nj, i, j)
  {
    k := CellIndex(ni, nj, i, j);
    RigidAt(g, mat, ni, nj, k);
  }

  /** The two joints of cell (i, j) sit at twice its position in Cells. */
  lemma JointsOfCell(g: Geometry, mat: BoneMatrix, ni: nat, nj: nat, i: nat, j: nat) returns (c: nat)
    requires Dense(mat, ni, nj) && i < ni && j < nj
    ensures 2 * c + 1 < |Joints(g, mat, ni, nj)|
    ensures Joints(g, mat, ni, nj)[2 * c] == VerticalFor(g, mat, ni, nj, i, j)
    ensures Joints(g, mat, ni, nj)[2 * c + 1] == HorizontalFor(g, mat, ni, nj, i, j)
  {
    c := CellIndex(ni, nj, i, j);
    JointAt(g, mat, ni, nj, c);
  }

  /** One rigid body per cell of the grid and no other. */
  lemma RigidBodiesCover(g: Geometry, mat: BoneMatrix, ni: nat, nj: nat)
    requires Dense(mat, ni, nj)
    ensures var rs := Rigids(g, mat, ni, nj);
      && |rs| == ni * nj
      && (forall i: nat, j: nat :: i < ni && j < nj ==>
            exists k :: 0 <= k < |rs| && rs[k] == RigidFor(g, mat, ni, nj, i, j))
      && (forall k :: 0 <= k < |rs| ==>
            exists i: nat, j: nat :: i < ni && j < nj && rs[k] == RigidFor(g, mat, ni, nj, i, j))
  {
    var rs := Rigids(g, mat, ni, nj);
    RigidsLength(g, mat, ni, nj);
    forall i: nat, j: nat | i < ni && j < nj
      ensures exists k :: 0 <= k < |rs| && rs[k] == RigidFor(g, mat, ni, nj, i, j)
    {
      var k := RigidOfCell(g, mat, ni, nj, i, j);
    }
    forall k | 0 <= k < |rs|
      ensures exists i: nat, j: nat :: i < ni && j < nj && rs[k] == RigidFor(g, mat, ni, nj, i, j)
    {
      RigidAt(g, mat, ni, nj, k);
      var p := Cells(ni, nj)[k];
      assert rs[k] == RigidFor(g, mat, ni, nj, p.0, p.1);
    }
  }

  /** All rigid bodies are dynamic boxes RIGID_THICK thick. */
  lemma RigidBodiesShape(g: Geometry, mat: BoneMatrix, ni: nat, nj: nat)
    requires Dense(mat, ni, nj)
    ensures var rs := Rigids(g, mat, ni, nj);
      forall k :: 0 <= k < |rs| ==> rs[k].shape == Box && rs[k].dynamics == MODE_DYNAMIC && rs[k].size.x == RIGID_THICK
  {
    var rs := Rigids(g, mat, ni, nj);
    RigidsLength(g, mat, ni, nj);
    forall k | 0 <= k < |rs|
      ensures rs[k].shape == Box && rs[k].dynamics == MODE_DYNAMIC && rs[k].size.x == RIGID_THICK
    {
      RigidAt(g, mat, ni, nj, k);
    }
  }

  /**
   * The bone of every rigid body is named so that it reads back, under the
   * bone-name pattern, as the cell whose rigid body it is.
   */
  lemma RigidBonesReadBack(g: Geometry, names: seq<string>, ni: nat, nj: nat)
    requires Dense(MatrixOf(names), ni, nj)
    ensures var rs := Rigids(g, MatrixOf(names), ni, nj);
      forall k :: 0 <= k < |rs| ==> (Search(rs[k].bone).Some?
        && Search(rs[k].bone).value.0 < ni && Search(rs[k].bone).value.1 < nj
        && rs[k] == RigidFor(g, MatrixOf(names), ni, nj, Search(rs[k].bone).value.0, Search(rs[k].bone).value.1))
  {
    var rs := Rigids(g, MatrixOf(names), ni, nj);
    RigidsLength(g, MatrixOf(names), ni, nj);
    forall k | 0 <= k < |rs|
      ensures Search(rs[k].bone).Some?
        && Search(rs[k].bone).value.0 < ni && Search(rs[k].bone).value.1 < nj
        && rs[k] == RigidFor(g, MatrixOf(names), ni, nj, Search(rs[k].bone).value.0, Search(rs[k].bone).value.1)
    {
      var p := RigidBone(g, names, ni, nj, k);
    }
  }

  /** Rigid body k belongs to the k-th cell, and its bone's name reads back as that cell. */
  lemma RigidBone(g: Geometry, names: seq<string>, ni: nat, nj: nat, k: nat) returns (p: Slot)
    requires Dense(MatrixOf(names), ni, nj) && k < |Cells(ni, nj)|
    ensures |Rigids(g, MatrixOf(names), ni, nj)| == |Cells(ni, nj)|
    ensures p.0 < ni && p.1 < nj
    ensures Rigids(g, MatrixOf(names), ni, nj)[k] == RigidFor(g, MatrixOf(names), ni, nj, p.0, p.1)
    ensures Search(Rigids(g, MatrixOf(names), ni, nj)[k].bone) == Some(p)
  {
    RigidAt(g, MatrixOf(names), ni, nj, k);
    p := Cells(ni, nj)[k];
    MatrixLast(names, p.0, p.1);
  }

  /** Rigid-body names are pairwise distinct, and no bone is bound to two rigid bodies. */
  lemma RigidNamesDistinct(g: Geometry, names: seq<string>, ni: nat, nj: nat)
    requires Dense(MatrixOf(names), ni, nj)
    ensures var rs := Rigids(g, MatrixOf(names), ni, nj);
      forall k, k' :: 0 <= k < k' < |rs| ==> rs[k].name != rs[k'].name && rs[k].bone != rs[k'].bone
  {
    var mat := MatrixOf(names);
    var rs := Rigids(g, mat, ni, nj);
    RigidsLength(g, mat, ni, nj);
    forall k, k' | 0 <= k < k' < |rs|
      ensures rs[k].name != rs[k'].name && rs[k].bone != rs[k'].bone
    {
      RigidAt(g, mat, ni, nj, k);
      RigidAt(g, mat, ni, nj, k');
      CellsOrdered(ni, nj, k, k');
      var p, q := Cells(ni, nj)[k], Cells(ni, nj)[k'];
      if rs[k].name == rs[k'].name {
        PairNameInjective(RIGID_PREFIX, p.0, p.1, q.0, q.1);
      }
      MatrixLast(names, p.0, p.1);
      MatrixLast(names, q.0, q.1);
    }
  }

  /** Every joint is locked: all its limits and springs are zero. */
  lemma JointsLocked(g: Geometry, mat: BoneMatrix, ni: nat, nj: nat)
    requires Dense(mat, ni, nj)
    ensures var js := Joints(g, mat, ni, nj);
      && |js| == 2 * (ni * nj)
      && (forall k :: 0 <= k < |js| ==> js[k].limits == LOCKED)
  {
    var js := Joints(g, mat, ni, nj);
    RigidsLength(g, mat, ni, nj);
    forall k | 0 <= k < |js|
      ensures js[k].limits == LOCKED
    {
      JointAt(g, mat, ni, nj, k / 2);
    }
  }

  /** Some joint of js has the given name and links rigid bodies a and b. */
  ghost predicate HasJoint(js: seq<Joint>, name: string, a: Option<string>, b: Option<string>) {
    exists k :: 0 <= k < |js| && js[k].name == name && js[k].rigidA == a && js[k].rigidB == b
  }

  /**
   * The vertical joint of cell (i, j) links the rigid bodies of (i, j - 1)
   * and (i, j) along chain i when j > 0, and links nothing on the first row.
   */
  lemma VerticalLinks(g: Geometry, mat: BoneMatrix, ni: nat, nj: nat)
    requires Dense(mat, ni, nj)
    ensures forall i: nat, j: nat :: i < ni && j < nj ==>
      HasJoint(Joints(g, mat, ni, nj), JointVName(i, j),
               if j > 0 then Some(RigidName(i, j - 1)) else None,
               if j > 0 then Some(RigidName(i, j)) else None)
  {
    forall i: nat, j: nat | i < ni && j < nj
      ensures HasJoint(Joints(g, mat, ni, nj), JointVName(i, j),
                       if j > 0 then Some(RigidName(i, j - 1)) else None,
                       if j > 0 then Some(RigidName(i, j)) else None)
    {
      var c := JointsOfCell(g, mat, ni, nj, i, j);
    }
  }

  /** The horizontal joint of cell (i, j) links the rigid bodies of (i, j) and (Next(i), j). */
  lemma HorizontalLinks(g: Geometry, mat: BoneMatrix, ni: nat, nj: nat)
    requires Dense(mat, ni, nj)
    ensures forall i: nat, j: nat :: i < ni && j < nj ==>
      HasJoint(Joints(g, mat, ni, nj), JointHName(i, j), Some(RigidName(i, j)), Some(RigidName(Next(i, ni), j)))
  {
    forall i: nat, j: nat | i < ni && j < nj
      ensures HasJoint(Joints(g, mat, ni, nj), JointHName(i, j), Some(RigidName(i, j)), Some(RigidName(Next(i, ni), j)))
    {
      var c := JointsOfCell(g, mat, ni, nj, i, j);
    }
  }

  /** Joint names are pairwise distinct: vertical and horizontal names differ in their prefix. */
  lemma JointNamesDistinct(g: Geometry, mat: BoneMatrix, ni: nat, nj: nat)
    requires Dense(mat, ni, nj)
    ensures var js := Joints(g, mat, ni, nj);
      forall k, k' :: 0 <= k < k' < |js| ==> js[k].name != js[k'].name
  {
    var js := Joints(g, mat, ni, nj);
    RigidsLength(g, mat, ni, nj);
    forall k, k' | 0 <= k < k' < |js|
      ensures js[k].name != js[k'].name
    {
      JointNameApart(g, mat, ni, nj, k, k');
    }
  }

  /** The name of joint k, from its cell and its parity. */
  lemma JointNameAt(g: Geometry, mat: BoneMatrix, ni: nat, nj: nat, k: nat) returns (p: Slot)
    requires Dense(mat, ni, nj) && k < 2 * |Cells(ni, nj)|
    ensures k / 2 < |Cells(ni, nj)| && p == Cells(ni, nj)[k / 2] && |Joints(g, mat, ni, nj)| == 2 * |Cells(ni, nj)|
    ensures Joints(g, mat, ni, nj)[k].name == if k % 2 == 0 then JointVName(p.0, p.1) else JointHName(p.0, p.1)
  {
    JointAt(g, mat, ni, nj, k / 2);
    p := Cells(ni, nj)[k / 2];
  }

  lemma JointNameApart(g: Geometry, mat: BoneMatrix, ni: nat, nj: nat, k: nat, k': nat)
    requires Dense(mat, ni, nj) && k < k' < 2 * |Cells(ni, nj)|
    ensures |Joints(g, mat, ni, nj)| == 2 * |Cells(ni, nj)|
    ensures Joints(g, mat, ni, nj)[k].name != Joints(g, mat, ni, nj)[k'].name
  {
    var p := JointNameAt(g, mat, ni, nj, k);
    var q := JointNameAt(g, mat, ni, nj, k');
    var js := Joints(g, mat, ni, nj);
    if k % 2 == 0 && k' % 2 == 1 {
      PairNamesApart(JOINT_V_PREFIX, JOINT_H_PREFIX, 9, p.0, p.1, q.0, q.1);
    } else if k % 2 == 1 && k' % 2 == 0 {
      PairNamesApart(JOINT_H_PREFIX, JOINT_V_PREFIX, 9, p.0, p.1, q.0, q.1);
    } else {
      assert k / 2 < k' / 2;
      CellsOrdered(ni, nj, k / 2, k' / 2);
      if js[k].name == js[k'].name {
        if k % 2 == 0 {
          PairNameInjective(JOINT_V_PREFIX, p.0, p.1, q.0, q.1);
        } else {
          PairNameInjective(JOINT_H_PREFIX, p.0, p.1, q.0, q.1);
        }
      }
    }
  }

  /** Every rigid body a joint links exists. */
  lemma JointsResolve(g: Geometry, mat: BoneMatrix, ni: nat, nj: nat)
    requires Dense(mat, ni, nj)
    ensures var rs, js := Rigids(g, mat, ni, nj), Joints(g, mat, ni, nj);
      && (forall k :: 0 <= k < |js| && js[k].rigidA.Some? ==>
            exists m :: 0 <= m < |rs| && rs[m].name == js[k].rigidA.value)
      && (forall k :: 0 <= k < |js| && js[k].rigidB.Some? ==>
            exists m :: 0 <= m < |rs| && rs[m].name == js[k].rigidB.value)
  {
    var rs, js := Rigids(g, mat, ni, nj), Joints(g, mat, ni, nj);
    RigidsLength(g, mat, ni, nj);
    forall k | 0 <= k < |js|
      ensures js[k].rigidA.Some? ==> exists m :: 0 <= m < |rs| && rs[m].name == js[k].rigidA.value
      ensures js[k].rigidB.Some? ==> exists m :: 0 <= m < |rs| && rs[m].name == js[k].rigidB.value
    {
      JointAt(g, mat, ni, nj, k / 2);
      var p := Cells(ni, nj)[k / 2];
      var m := RigidOfCell(g, mat, ni, nj, p.0, p.1);
      if p.1 > 0 {
        var m' := RigidOfCell(g, mat, ni, nj, p.0, p.1 - 1);
      }
      var m'' := RigidOfCell(g, mat, ni, nj, Next(p.0, ni), p.1);
    }
  }

  /**
   * On each row j the horizontal joints close a ring: rigid body (i, j) is
   * also the second body of the horizontal joint of (Prev(i), j).
   */
  lemma HorizontalRing(g: Geometry, mat: BoneMatrix, ni: nat, nj: nat)
    requires Dense(mat, ni, nj)
    ensures forall i: nat, j: nat :: i < ni && j < nj ==>
      HasJoint(Joints(g, mat, ni, nj), JointHName(Prev(i, ni), j), Some(RigidName(Prev(i, ni), j)), Some(RigidName(i, j)))
  {
    forall i: nat, j: nat | i < ni && j < nj
      ensures HasJoint(Joints(g, mat, ni, nj), JointHName(Prev(i, ni), j), Some(RigidName(Prev(i, ni), j)), Some(RigidName(i, j)))
    {
      NextPrevInverse(i, ni);
      var c := JointsOfCell(g, mat, ni, nj, Prev(i, ni), j);
    }
  }

  // ---------------------------------------------------------------------
  // The two loops of the script

  /** Visiting cell (i, j) after the cells done so far extends all three accumulators by that cell. */
  lemma VisitStep(g: Geometry, mat: BoneMatrix, ni: nat, nj: nat, done: seq<Slot>, i: nat, j: nat)
    requires Dense(mat, ni, nj) && InRange(done, ni, nj) && i < ni && j < nj
    ensures InRange(done + [(i, j)], ni, nj)
    ensures RigidsOver(g, mat, ni, nj, done + [(i, j)]) == RigidsOver(g, mat, ni, nj, done) + [RigidFor(g, mat, ni, nj, i, j)]
    ensures RigidMapOver(g, mat, ni, nj, done + [(i, j)]) == RigidMapOver(g, mat, ni, nj, done)[(i, j) := RigidFor(g, mat, ni, nj, i, j)]
    ensures JointsOver(g, mat, ni, nj, done + [(i, j)])
      == JointsOver(g, mat, ni, nj, done) + [VerticalFor(g, mat, ni, nj, i, j), HorizontalFor(g, mat, ni, nj, i, j)]
  {
    assert (done + [(i, j)])[..|done|] == done;
  }

  /** The row-major visiting order: one more cell of row i, and a finished row i. */
  lemma OrderStep(i: nat, j: nat, nj: nat)
    ensures Cells(i, nj) + Row(i, 0, j) + [(i, j)] == Cells(i, nj) + Row(i, 0, j + 1)
    ensures Cells(i, nj) + Row(i, 0, nj) == Cells(i + 1, nj)
    ensures Cells(i, nj) + Row(i, 0, 0) == Cells(i, nj)
  {
  }

  /** The first loop: one rigid body per cell, also kept in rigid_map by cell. */
  method CreateRigidBodies(g: Geometry, mat: BoneMatrix, ni: nat, nj: nat)
    returns (rigids: seq<RigidBody>, rigidMap: map<Slot, RigidBody>)
    requires Dense(mat, ni, nj)
    ensures rigids == Rigids(g, mat, ni, nj)
    ensures rigidMap == RigidMap(g, mat, ni, nj)
  {
    rigids := [];
    rigidMap := map[];
    ghost var done: seq<Slot> := [];
    for i := 0 to ni
      invariant done == Cells(i, nj) && InRange(done, ni, nj)
      invariant rigids == RigidsOver(g, mat, ni, nj, done)
      invariant rigidMap == RigidMapOver(g, mat, ni, nj, done)
    {
      OrderStep(i, 0, nj);
      for j := 0 to nj
        invariant done == Cells(i, nj) + Row(i, 0, j) && InRange(done, ni, nj)
        invariant rigids == RigidsOver(g, mat, ni, nj, done)
        invariant rigidMap == RigidMapOver(g, mat, ni, nj, done)
      {
        var rigid := RigidFor(g, mat, ni, nj, i, j);
        rigids := rigids + [rigid];
        rigidMap := rigidMap[(i, j) := rigid];
        VisitStep(g, mat, ni, nj, done, i, j);
        OrderStep(i, j, nj);
        done := done + [(i, j)];
      }
      OrderStep(i, nj, nj);
    }
  }

  /**
   * The body of the second loop for cell (i, j): its two joints, with the
   * rigid bodies they link looked up in rigid_map.
   */
  method CellJoints(g: Geometry, mat: BoneMatrix, ni: nat, nj: nat, rigidMap: map<Slot, RigidBody>, i: nat, j: nat)
    returns (vertical: Joint, horizontal: Joint)
    requires Dense(mat, ni, nj) && i < ni && j < nj
    requires NamedByCell(rigidMap, ni, nj)
    ensures vertical == VerticalFor(g, mat, ni, nj, i, j)
    ensures horizontal == HorizontalFor(g, mat, ni, nj, i, j)
  {
    assert (i, j) in rigidMap && (Next(i, ni), j) in rigidMap;
    assert j > 0 ==> (i, j - 1) in rigidMap;
    var f := FrameAt(g, mat, ni, nj, i, j);
    assert Present(mat, (i, j));
    vertical := Joint(JointVName(i, j), JointVName(i, j), g.head(mat[i][j]), f.rot,
                      if j > 0 then Some(rigidMap[(i, j - 1)].name) else None,
                      if j > 0 then Some(rigidMap[(i, j)].name) else None,
                      LOCKED);
    horizontal := Joint(JointHName(i, j), JointHName(i, j), Add(f.center, Scale(f.rotZ, f.width)), f.rot,
                  Some(rigidMap[(i, j)].name), Some(rigidMap[(Next(i, ni), j)].name),
                  LOCKED);
  }

  /** The second loop: per cell, its vertical joint then its horizontal joint, linking bodies looked up in rigid_map. */
  method CreateJoints(g: Geometry, mat: BoneMatrix, ni: nat, nj: nat, rigidMap: map<Slot, RigidBody>)
    returns (joints: seq<Joint>)
    requires Dense(mat, ni, nj)
    requires NamedByCell(rigidMap, ni, nj)
    ensures joints == Joints(g, mat, ni, nj)
  {
    joints := [];
    ghost var done: seq<Slot> := [];
    for i := 0 to ni
      invariant done == Cells(i, nj) && InRange(done, ni, nj)
      invariant joints == JointsOver(g, mat, ni, nj, done)
    {
      OrderStep(i, 0, nj);
      for j := 0 to nj
        invariant done == Cells(i, nj) + Row(i, 0, j) && InRange(done, ni, nj)
        invariant joints == JointsOver(g, mat, ni, nj, done)
      {
        var vertical, horizontal := CellJoints(g, mat, ni, nj, rigidMap, i, j);
        joints := joints + [vertical, horizontal];
        VisitStep(g, mat, ni, nj, done, i, j);
        OrderStep(i, j, nj);
        done := done + [(i, j)];
      }
      OrderStep(i, nj, nj);
    }
  }

  /**
   * The whole script on the armature's pose-bone names: the bone matrix,
   * its size, then the two loops. It fails where the grid check fails;
   * the failures of the geometry, which depend on bone coordinates, lie
   * outside the model.
   */
  method AddRigidJoints(names: seq<string>, g: Geometry) returns (res: Result<Physics, RigError>)
    ensures var mat := MatrixOf(names);
      && (res.Err? <==> GridOf(mat).Err?)
      && (res.Err? ==> res.error == GridOf(mat).error)
      && (res.Ok? ==> (Dense(mat, GridOf(mat).value.0, GridOf(mat).value.1)
            && res.value == Physics(Rigids(g, mat, GridOf(mat).value.0, GridOf(mat).value.1),
                                    Joints(g, mat, GridOf(mat).value.0, GridOf(mat).value.1))))
  {
    var mat := FindTargetBoneMatrix(names);
    var size := GridOf(mat);
    if size.Err? {
      return Err(size.error);
    }
    GridCorrect(mat);
    var (ni, nj) := size.value;
    var rigids, rigidMap := CreateRigidBodies(g, mat, ni, nj);
    RigidMapNamed(g, mat, ni, nj);
    var joints := CreateJoints(g, mat, ni, nj, rigidMap);
    return Ok(Physics(rigids, joints));
  }
}
