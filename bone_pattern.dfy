/**
 * How the rigid-body script finds the skirt bones: the leftmost match of
 * `SB_([0-9]+)_([0-9])` in each bone name gives the cell (i, j) of the
 * bone, later bones overwrite earlier ones in the same cell, and the
 * grid is NUM_I rows (the number of row indices found) by NUM_J columns
 * (the number of entries in row 0).
 */
module BonePattern {
  import opened Wrappers
  import opened Decimal
  import opened GridOrder
  import Skeleton
  import Finite

  /** The literal head of the pattern. */
  const LITERAL: string := "SB_"

  // ---------------------------------------------------------------------
  // The pattern

  /**
   * The pattern matches at p with a first group of d digits: "SB_", then
   * d >= 1 digits, then "_", then one digit.
   */
  ghost predicate MatchesAt(s: string, p: nat, d: nat) {
    && d >= 1
    && p + d + 5 <= |s|
    && s[p..p + 3] == LITERAL
    && (forall k :: p + 3 <= k < p + 3 + d ==> IsDigit(s[k]))
    && s[p + 3 + d] == '_'
    && IsDigit(s[p + 4 + d])
  }

  /** `int(i), int(j)` for the groups of a match at p with d digits in the first group. */
  function Groups(s: string, p: nat, d: nat): Slot
    requires MatchesAt(s, p, d)
  {
    (Value(s[p + 3..p + 3 + d]), DigitValue(s[p + 4 + d]))
  }

  /** The matcher at one position: `[0-9]+` takes the whole digit run, as backtracking cannot end it before a digit. */
  function MatchAt(s: string, p: nat): Option<Slot>
    requires p <= |s|
  {
    if p + 3 <= |s| && s[p..p + 3] == LITERAL then
      var e := RunEnd(s, p + 3);
      if e > p + 3 && e + 1 < |s| && s[e] == '_' && IsDigit(s[e + 1]) then
        Some((Value(s[p + 3..e]), DigitValue(s[e + 1])))
      else None
    else None
  }

  /** MatchAt finds a match at p exactly when the pattern matches there, with the same groups. */
  lemma MatchAtCorrect(s: string, p: nat)
    requires p <= |s|
    ensures MatchAt(s, p).None? <==> forall d :: !MatchesAt(s, p, d)
    ensures forall d :: MatchesAt(s, p, d) ==> MatchAt(s, p) == Some(Groups(s, p, d))
  {
    forall d | MatchesAt(s, p, d)
      ensures MatchAt(s, p) == Some(Groups(s, p, d))
    {
      RunEndAfterDigits(s, p + 3, d);
    }
    if MatchAt(s, p).Some? {
      var e := RunEnd(s, p + 3);
      assert MatchesAt(s, p, e - (p + 3));
    }
  }

  function SearchFrom(s: string, p: nat): Option<Slot>
    requires p <= |s|
    decreases |s| - p
  {
    var m := MatchAt(s, p);
    if m.Some? || p == |s| then m else SearchFrom(s, p + 1)
  }

  /** `re.search(NAME_PATTERN, name)` reduced to its two groups. */
  function Search(s: string): Option<Slot> {
    SearchFrom(s, 0)
  }

  lemma {:induction false} SearchFromCorrect(s: string, p: nat)
    requires p <= |s|
    ensures SearchFrom(s, p).None? <==> forall q, d :: p <= q ==> !MatchesAt(s, q, d)
    ensures SearchFrom(s, p).Some? ==> exists q, d :: (p <= q && MatchesAt(s, q, d)
      && SearchFrom(s, p).value == Groups(s, q, d)
      && forall q', e :: p <= q' < q ==> !MatchesAt(s, q', e))
    decreases |s| - p
  {
    MatchAtCorrect(s, p);
    if MatchAt(s, p).Some? {
      var d :| MatchesAt(s, p, d);
    } else if p < |s| {
      SearchFromCorrect(s, p + 1);
      forall q, d | p <= q && MatchesAt(s, q, d)
        ensures p + 1 <= q
      {
      }
    }
  }

  /**
   * Search returns the groups of the leftmost match, and None exactly
   * when the pattern matches nowhere in the name.
   */
  lemma SearchLeftmost(s: string)
    ensures Search(s).None? <==> forall q, d :: !MatchesAt(s, q, d)
    ensures Search(s).Some? ==> exists q, d :: (MatchesAt(s, q, d) && Search(s).value == Groups(s, q, d)
      && forall q', e :: q' < q ==> !MatchesAt(s, q', e))
  {
    SearchFromCorrect(s, 0);
  }

  /**
   * Reading back a bone name `SB_c_r` of the bone script gives column c and
   * the first digit of row r: the second group is one digit, so rows from
   * 10 on are read as a lower row.
   */
  lemma NameRoundTrip(c: nat, r: nat)
    ensures Search(Skeleton.BoneName(c, r)) == Some((c, LeadingDigit(r)))
    ensures r < 10 ==> Search(Skeleton.BoneName(c, r)) == Some((c, r))
  {
    var s := Skeleton.BoneName(c, r);
    var d := |Show(c)|;
    assert s == LITERAL + Show(c) + "_" + Show(r);
    RunEndAfterDigits(s, 3, d);
    assert s[3..3 + d] == Show(c);
    ValueOfShow(c);
    ShowStartsWithLeadingDigit(r);
    assert s[4 + d] == Show(r)[0];
  }

  // ---------------------------------------------------------------------
  // find_target_bone_matrix

  /** bone_mat[i][j] is the name of the pose bone placed in cell (i, j). */
  type BoneMatrix = map<nat, map<nat, string>>

  /** Entry k of the bone names matches with groups (i, j). */
  ghost predicate Labels(names: seq<string>, k: nat, i: nat, j: nat) {
    k < |names| && Search(names[k]) == Some((i, j))
  }

  /** Entry k is the last of the names that match with groups (i, j). */
  ghost predicate LastLabel(names: seq<string>, k: nat, i: nat, j: nat) {
    Labels(names, k, i, j) && forall k' :: k < k' < |names| ==> !Labels(names, k', i, j)
  }

  /** `bone_mat[i]` of the defaultdict: the empty dict when row i is not there yet. */
  function RowOf(mat: BoneMatrix, i: nat): map<nat, string> {
    if i in mat then mat[i] else map[]
  }

  /** The matrix after the loop has seen the given names. */
  ghost function MatrixOf(names: seq<string>): BoneMatrix
    decreases |names|
  {
    if names == [] then map[]
    else
      var mat := MatrixOf(names[..|names| - 1]);
      var name := names[|names| - 1];
      match Search(name)
      case None => mat
      case Some((i, j)) => mat[i := RowOf(mat, i)[j := name]]
  }

  /** One step of the loop: the last name, when it matches, fills its cell and leaves every other cell alone. */
  lemma MatrixStep(names: seq<string>, i: nat, j: nat)
    requires names != []
    ensures var n := |names| - 1;
      var m0, mat := MatrixOf(names[..n]), MatrixOf(names);
      && (i in mat <==> (i in m0 || exists j' :: Search(names[n]) == Some((i, j'))))
      && (Search(names[n]) == Some((i, j)) ==> Present(mat, (i, j)) && mat[i][j] == names[n])
      && (Search(names[n]) != Some((i, j)) ==>
            (Present(mat, (i, j)) <==> Present(m0, (i, j))) && (Present(m0, (i, j)) ==> mat[i][j] == m0[i][j]))
  {
  }

  lemma LabelsOfPrefix(names: seq<string>, n: nat, i: nat, j: nat)
    requires n <= |names|
    ensures forall k: nat :: k < n ==> (Labels(names[..n], k, i, j) <==> Labels(names, k, i, j))
  {
    forall k: nat | k < n
      ensures Labels(names[..n], k, i, j) <==> Labels(names, k, i, j)
    {
      assert names[..n][k] == names[k];
    }
  }

  /** Cell (i, j) is filled exactly when some name matches with groups (i, j). */
  lemma {:induction false} MatrixCells(names: seq<string>, i: nat, j: nat)
    ensures Present(MatrixOf(names), (i, j)) <==> exists k: nat :: Labels(names, k, i, j)
    decreases |names|
  {
    if names != [] {
      var n := |names| - 1;
      var init := names[..n];
      MatrixCells(init, i, j);
      MatrixStep(names, i, j);
      LabelsOfPrefix(names, n, i, j);
      if Search(names[n]) == Some((i, j)) {
        assert Labels(names, n, i, j);
      } else if k: nat :| Labels(names, k, i, j) {
        assert k < n && Labels(init, k, i, j);
      }
    }
  }

  /** A filled cell holds the last name that matches with its groups. */
  lemma {:induction false} MatrixLast(names: seq<string>, i: nat, j: nat)
    requires Present(MatrixOf(names), (i, j))
    ensures exists k: nat :: LastLabel(names, k, i, j) && MatrixOf(names)[i][j] == names[k]
    decreases |names|
  {
    var n := |names| - 1;
    var init := names[..n];
    MatrixStep(names, i, j);
    if Search(names[n]) == Some((i, j)) {
      assert LastLabel(names, n, i, j);
    } else {
      MatrixLast(init, i, j);
      LabelsOfPrefix(names, n, i, j);
      var k: nat :| LastLabel(init, k, i, j) && MatrixOf(init)[i][j] == init[k];
      assert LastLabel(names, k, i, j);
    }
  }

  /** Rows only come into the matrix with a bone in them. */
  lemma {:induction false} MatrixRowsFilled(names: seq<string>, i: nat)
    requires i in MatrixOf(names)
    ensures exists j :: Present(MatrixOf(names), (i, j))
    decreases |names|
  {
    var n := |names| - 1;
    var init := names[..n];
    MatrixStep(names, i, 0);
    if i !in MatrixOf(init) {
      var j' :| Search(names[n]) == Some((i, j'));
      MatrixStep(names, i, j');
    } else {
      MatrixRowsFilled(init, i);
      var j :| Present(MatrixOf(init), (i, j));
      MatrixStep(names, i, j);
    }
  }

  /**
   * Cell (i, j) is filled exactly when some name matches with groups
   * (i, j), and then holds the last such name.
   */
  lemma MatrixContents(names: seq<string>)
    ensures forall i: nat, j: nat :: Present(MatrixOf(names), (i, j)) <==> exists k: nat :: Labels(names, k, i, j)
    ensures forall i: nat, j: nat :: Present(MatrixOf(names), (i, j)) ==>
      exists k: nat :: LastLabel(names, k, i, j) && MatrixOf(names)[i][j] == names[k]
  {
    forall i: nat, j: nat
      ensures Present(MatrixOf(names), (i, j)) <==> exists k: nat :: Labels(names, k, i, j)
      ensures Present(MatrixOf(names), (i, j)) ==>
        exists k: nat :: LastLabel(names, k, i, j) && MatrixOf(names)[i][j] == names[k]
    {
      MatrixCells(names, i, j);
      if Present(MatrixOf(names), (i, j)) {
        MatrixLast(names, i, j);
      }
    }
  }

  /** Row i is in the matrix exactly when some name matches with first group i. */
  lemma MatrixRows(names: seq<string>)
    ensures forall i: nat :: i in MatrixOf(names) <==> exists k: nat, j: nat :: Labels(names, k, i, j)
  {
    var mat := MatrixOf(names);
    forall i: nat | i in mat
      ensures exists k: nat, j: nat :: Labels(names, k, i, j)
    {
      MatrixRowsFilled(names, i);
      var j :| Present(mat, (i, j));
      MatrixCells(names, i, j);
    }
    forall i: nat, k: nat, j: nat | Labels(names, k, i, j)
      ensures i in mat
    {
      MatrixCells(names, i, j);
    }
  }

  /** The loop of find_target_bone_matrix over the pose bones' names, in armature order. */
  method FindTargetBoneMatrix(names: seq<string>) returns (mat: BoneMatrix)
    ensures mat == MatrixOf(names)
  {
    mat := map[];
    for k := 0 to |names|
      invariant mat == MatrixOf(names[..k])
    {
      assert names[..k + 1][..k] == names[..k];
      var m := Search(names[k]);
      if m.Some? {
        var (i, j) := m.value;
        mat := mat[i := RowOf(mat, i)[j := names[k]]];
      }
    }
    assert names[..|names|] == names;
  }

  // ---------------------------------------------------------------------
  // Grid size and the errors the rigid-body loops run into

  datatype RigError =
    /** No bone name matched: `vector_average([])` divides by zero. */
    | NoBones
    /** `bone_mat[i][j]` raises KeyError. */
    | MissingCell(i: nat, j: nat)
    /**
     * NUM_J == 1: `origin` and `vec_Z + origin` average the same heads, so
     * `vec_Z` is the zero vector and `normalize` divides by zero.
     */
    | FlatGrid

  /** `len(bone_mat[0])`; the lookup inserts an empty row 0 when there is none. */
  function NumJ(mat: BoneMatrix): nat {
    |RowOf(mat, 0).Keys|
  }

  predicate Present(mat: BoneMatrix, p: Slot) {
    p.0 in mat && p.1 in mat[p.0]
  }

  ghost predicate Dense(mat: BoneMatrix, ni: nat, nj: nat) {
    forall i: nat, j: nat :: i < ni && j < nj ==> Present(mat, (i, j))
  }

  /** The first cell of the list with no bone. */
  function FirstMissing(mat: BoneMatrix, cells: seq<Slot>): (m: Option<Slot>)
    ensures m.None? <==> forall k :: 0 <= k < |cells| ==> Present(mat, cells[k])
    ensures m.Some? ==> exists k :: (0 <= k < |cells| && cells[k] == m.value && !Present(mat, m.value)
      && forall k' :: 0 <= k' < k ==> Present(mat, cells[k']))
  {
    if cells == [] then None
    else if !Present(mat, cells[0]) then Some(cells[0])
    else
      var m := FirstMissing(mat, cells[1..]);
      if m.Some? then
        var k :| 0 <= k < |cells[1..]| && cells[1..][k] == m.value && !Present(mat, m.value)
          && forall k' :: 0 <= k' < k ==> Present(mat, cells[1..][k']);
        assert cells[k + 1] == m.value;
        m
      else
        m
  }

  /**
   * `NUM_I = len(bone_mat)`, `NUM_J = len(bone_mat[0])` and whether every
   * cell the loops read is there; the missing cell reported is the first
   * in row-major order. A grid of one row fails once its cells are read.
   */
  function GridOf(mat: BoneMatrix): Result<Slot, RigError> {
    var ni := |mat.Keys|;
    var nj := NumJ(mat);
    if ni == 0 then Err(NoBones)
    else if nj == 0 then Err(MissingCell(0, 0))
    else
      match FirstMissing(mat, Cells(ni, nj))
      case Some(p) => Err(MissingCell(p.0, p.1))
      case None => if nj == 1 then Err(FlatGrid) else Ok((ni, nj))
  }

  /** The row indices 0 .. n - 1. */
  function Below(n: nat): set<nat> {
    if n == 0 then {} else Below(n - 1) + {n - 1}
  }

  lemma {:induction false} BelowFacts(n: nat)
    ensures |Below(n)| == n
    ensures forall i: nat :: i in Below(n) <==> i < n
  {
    if n > 0 {
      BelowFacts(n - 1);
    }
  }

  /**
   * The grid is accepted exactly when some bone matched, row 0 holds at
   * least two bones and every cell (i, j) with i < NUM_I and j < NUM_J
   * holds a bone; the rows found are then exactly 0 .. NUM_I - 1. A
   * reported missing cell holds no bone and lies inside the grid, or is
   * (0, 0) when row 0 is absent and the grid has no columns; a full
   * grid of one row is the zero up direction.
   */
  lemma GridCorrect(mat: BoneMatrix)
    ensures GridOf(mat).Ok? <==> |mat.Keys| > 0 && NumJ(mat) > 1 && Dense(mat, |mat.Keys|, NumJ(mat))
    ensures GridOf(mat) == Err(FlatGrid) <==> |mat.Keys| > 0 && NumJ(mat) == 1 && Dense(mat, |mat.Keys|, 1)
    ensures GridOf(mat).Ok? ==> (GridOf(mat).value == (|mat.Keys|, NumJ(mat))
      && forall i: nat :: i in mat <==> i < |mat.Keys|)
    ensures GridOf(mat) == Err(NoBones) <==> mat == map[]
    ensures GridOf(mat).Err? && GridOf(mat).error.MissingCell? ==>
      var e := GridOf(mat).error;
      && e.i < |mat.Keys|
      && (e.j < NumJ(mat) || (NumJ(mat) == 0 && e.i == 0 && e.j == 0))
      && !Present(mat, (e.i, e.j))
  {
    var ni, nj := |mat.Keys|, NumJ(mat);
    CellsFacts(ni, nj);
    if ni > 0 && nj > 0 {
      var cells := Cells(ni, nj);
      if FirstMissing(mat, cells).None? {
        forall i: nat, j: nat | i < ni && j < nj
          ensures Present(mat, (i, j))
        {
          var k :| 0 <= k < |cells| && cells[k] == (i, j);
        }
      }
      if FirstMissing(mat, cells).None? && nj > 1 {
        var rows := Below(ni);
        BelowFacts(ni);
        assert rows <= mat.Keys by {
          forall i | i in rows
            ensures i in mat.Keys
          {
            assert Present(mat, (i, 0));
          }
        }
        if rows != mat.Keys {
          var x :| x in mat.Keys && x !in rows;
          Finite.SubsetSmaller(rows, mat.Keys, x);
        }
      } else if FirstMissing(mat, cells).Some? {
        var p := FirstMissing(mat, cells).value;
        assert p in cells;
      }
    } else if ni > 0 {
      assert !Present(mat, (0, 0));
    }
    if mat != map[] {
      var x :| x in mat;
      assert x in mat.Keys;
    }
  }
}
