/**
 * The rig the bone script builds from the extracted columns: an empty
 * `SE_c_r` at every kept vertex below the top of column c, a bone `SB_c_r`
 * from row r to row r + 1 of column c (parented to `SB_c_(r-1)`), and on
 * every bone an IK constraint aimed at the empty at its tail.
 *
 * Positions are vertex indices: the world-space coordinates Blender
 * derives from them are not modelled.
 */
module Skeleton {
  import opened Wrappers
  import opened Adjacency
  import opened Decimal
  import opened GridOrder

  /** `HEAD_NAME + "B_"` and `HEAD_NAME + "E_"` with `HEAD_NAME = "S"`. */
  const BONE_PREFIX: string := "SB_"
  const EMPTY_PREFIX: string := "SE_"
  const IK_ITERATIONS: nat := 50
  const IK_CHAIN_COUNT: nat := 1

  function BoneName(c: nat, r: nat): string { PairName(BONE_PREFIX, c, r) }
  function EmptyName(c: nat, r: nat): string { PairName(EMPTY_PREFIX, c, r) }

  datatype Bone = Bone(name: string, head: Vertex, tail: Vertex, parent: Option<string>)
  /** An empty placed at, and vertex-parented to, `anchor`. */
  datatype Empty = Empty(name: string, anchor: Vertex)
  datatype IkConstraint = Ik(owner: string, target: string, iterations: nat, chainCount: nat)
  datatype Rig = Rig(empties: seq<Empty>, bones: seq<Bone>, constraints: seq<IkConstraint>)

  // ---------------------------------------------------------------------
  // Slots: the (column, row) pairs the nested loops visit, in loop order

  /** Rows lo .. |cols[c]| - cut - 1 of every column c, column by column. */
  function Slots(cols: seq<seq<Vertex>>, lo: nat, cut: nat): seq<Slot>
    decreases |cols|
  {
    if cols == [] then []
    else Slots(cols[..|cols| - 1], lo, cut) + Row(|cols| - 1, lo, |cols[|cols| - 1]| - cut)
  }

  ghost predicate InGrid(cols: seq<seq<Vertex>>, lo: nat, cut: nat, c: nat, r: nat) {
    c < |cols| && lo <= r && r + cut < |cols[c]|
  }

  /** The slots are exactly the in-grid pairs, visited in strictly increasing order. */
  lemma {:induction false} SlotsFacts(cols: seq<seq<Vertex>>, lo: nat, cut: nat)
    ensures forall p: Slot :: p in Slots(cols, lo, cut) <==> InGrid(cols, lo, cut, p.0, p.1)
    ensures Increasing(Slots(cols, lo, cut))
    decreases |cols|
  {
    if cols != [] {
      var n := |cols| - 1;
      var init := cols[..n];
      SlotsFacts(init, lo, cut);
      RowFacts(n, lo, |cols[n]| - cut);
      AppendIncreasing(Slots(init, lo, cut), Row(n, lo, |cols[n]| - cut));
      forall p: Slot | InGrid(cols, lo, cut, p.0, p.1) && p.0 < n
        ensures InGrid(init, lo, cut, p.0, p.1)
      {
        assert init[p.0] == cols[p.0];
      }
      forall p: Slot | InGrid(init, lo, cut, p.0, p.1)
        ensures InGrid(cols, lo, cut, p.0, p.1)
      {
        assert init[p.0] == cols[p.0];
      }
    }
  }

  lemma SlotsExtend(cols: seq<seq<Vertex>>, lo: nat, cut: nat, c: nat)
    requires c < |cols|
    ensures Slots(cols[..c + 1], lo, cut) == Slots(cols[..c], lo, cut) + Row(c, lo, |cols[c]| - cut)
  {
    assert cols[..c + 1][..c] == cols[..c];
  }

  // ---------------------------------------------------------------------
  // What the three loops create

  function ParentName(c: nat, r: nat): Option<string> {
    if r == 0 then None else Some(BoneName(c, r - 1))
  }

  function BoneFor(cols: seq<seq<Vertex>>, c: nat, r: nat): Bone
    requires InGrid(cols, 0, 1, c, r)
  {
    Bone(BoneName(c, r), cols[c][r], cols[c][r + 1], ParentName(c, r))
  }

  function EmptyFor(cols: seq<seq<Vertex>>, c: nat, r: nat): Empty
    requires InGrid(cols, 1, 0, c, r)
  {
    Empty(EmptyName(c, r), cols[c][r])
  }

  function IkFor(c: nat, r: nat): IkConstraint {
    Ik(BoneName(c, r), EmptyName(c, r + 1), IK_ITERATIONS, IK_CHAIN_COUNT)
  }

  ghost function Bones(cols: seq<seq<Vertex>>): seq<Bone> {
    var s := Slots(cols, 0, 1);
    SlotsFacts(cols, 0, 1);
    seq(|s|, k requires 0 <= k < |s| => BoneFor(cols, s[k].0, s[k].1))
  }

  ghost function Empties(cols: seq<seq<Vertex>>): seq<Empty> {
    var s := Slots(cols, 1, 0);
    SlotsFacts(cols, 1, 0);
    seq(|s|, k requires 0 <= k < |s| => EmptyFor(cols, s[k].0, s[k].1))
  }

  ghost function Constraints(cols: seq<seq<Vertex>>): seq<IkConstraint> {
    var s := Slots(cols, 0, 1);
    seq(|s|, k requires 0 <= k < |s| => IkFor(s[k].0, s[k].1))
  }

  ghost function RigOf(cols: seq<seq<Vertex>>): Rig {
    Rig(Empties(cols), Bones(cols), Constraints(cols))
  }

  // ---------------------------------------------------------------------
  // Properties of the rig

  /** There is one bone per consecutive pair of kept vertices of a column, and no other. */
  lemma BonesCover(cols: seq<seq<Vertex>>)
    ensures forall b :: b in Bones(cols) <==>
      exists c, r :: InGrid(cols, 0, 1, c, r) && b == BoneFor(cols, c, r)
  {
    var s := Slots(cols, 0, 1);
    SlotsFacts(cols, 0, 1);
    forall b | b in Bones(cols)
      ensures exists c, r :: InGrid(cols, 0, 1, c, r) && b == BoneFor(cols, c, r)
    {
      var k :| 0 <= k < |s| && Bones(cols)[k] == b;
      assert s[k] in s;
    }
    forall c: nat, r: nat | InGrid(cols, 0, 1, c, r)
      ensures BoneFor(cols, c, r) in Bones(cols)
    {
      var p: Slot := (c, r);
      assert p in s;
      var k :| 0 <= k < |s| && s[k] == p;
      assert Bones(cols)[k] == BoneFor(cols, c, r);
    }
  }

  /** Bone names are pairwise distinct, so the by-name lookups of the script are unambiguous. */
  lemma BoneNamesDistinct(cols: seq<seq<Vertex>>)
    ensures forall i, j :: 0 <= i < j < |Bones(cols)| ==> Bones(cols)[i].name != Bones(cols)[j].name
  {
    var s := Slots(cols, 0, 1);
    SlotsFacts(cols, 0, 1);
    forall i, j | 0 <= i < j < |Bones(cols)|
      ensures Bones(cols)[i].name != Bones(cols)[j].name
    {
      if Bones(cols)[i].name == Bones(cols)[j].name {
        PairNameInjective(BONE_PREFIX, s[i].0, s[i].1, s[j].0, s[j].1);
      }
    }
  }

  /**
   * The parent of bone `SB_c_r` (r > 0) is a bone created before it whose
   * tail is its head, so each column's bones form one connected chain;
   * the bone at the top of a column has no parent.
   */
  lemma BoneParents(cols: seq<seq<Vertex>>)
    ensures forall k :: 0 <= k < |Bones(cols)| && Bones(cols)[k].parent.Some? ==>
      exists j :: 0 <= j < k && Bones(cols)[j].name == Bones(cols)[k].parent.value
        && Bones(cols)[j].tail == Bones(cols)[k].head
    ensures forall k :: 0 <= k < |Bones(cols)| && Bones(cols)[k].parent.None? ==>
      exists c :: 0 <= c < |cols| && |cols[c]| > 1 && Bones(cols)[k].head == cols[c][0]
  {
    var s := Slots(cols, 0, 1);
    var bs := Bones(cols);
    SlotsFacts(cols, 0, 1);
    forall k | 0 <= k < |bs| && bs[k].parent.Some?
      ensures exists j :: 0 <= j < k && bs[j].name == bs[k].parent.value && bs[j].tail == bs[k].head
    {
      var (c, r) := s[k];
      assert s[k] in s;
      assert InGrid(cols, 0, 1, c, r - 1);
      var j :| 0 <= j < |s| && s[j] == (c, r - 1);
      IndexOrder(s, j, k);
      assert bs[j] == BoneFor(cols, c, r - 1);
    }
    forall k | 0 <= k < |bs| && bs[k].parent.None?
      ensures exists c :: 0 <= c < |cols| && |cols[c]| > 1 && bs[k].head == cols[c][0]
    {
      assert s[k] in s;
    }
  }

  /** There is one empty per kept vertex below the top of its column, and no other. */
  lemma EmptiesCover(cols: seq<seq<Vertex>>)
    ensures forall e :: e in Empties(cols) <==>
      exists c, r :: InGrid(cols, 1, 0, c, r) && e == EmptyFor(cols, c, r)
  {
    var s := Slots(cols, 1, 0);
    SlotsFacts(cols, 1, 0);
    forall e | e in Empties(cols)
      ensures exists c, r :: InGrid(cols, 1, 0, c, r) && e == EmptyFor(cols, c, r)
    {
      var k :| 0 <= k < |s| && Empties(cols)[k] == e;
      assert s[k] in s;
    }
    forall c: nat, r: nat | InGrid(cols, 1, 0, c, r)
      ensures EmptyFor(cols, c, r) in Empties(cols)
    {
      var p: Slot := (c, r);
      assert p in s;
      var k :| 0 <= k < |s| && s[k] == p;
      assert Empties(cols)[k] == EmptyFor(cols, c, r);
    }
  }

  /** Empty names are pairwise distinct. */
  lemma EmptyNamesDistinct(cols: seq<seq<Vertex>>)
    ensures forall i, j :: 0 <= i < j < |Empties(cols)| ==> Empties(cols)[i].name != Empties(cols)[j].name
  {
    var s := Slots(cols, 1, 0);
    SlotsFacts(cols, 1, 0);
    forall i, j | 0 <= i < j < |Empties(cols)|
      ensures Empties(cols)[i].name != Empties(cols)[j].name
    {
      if Empties(cols)[i].name == Empties(cols)[j].name {
        PairNameInjective(EMPTY_PREFIX, s[i].0, s[i].1, s[j].0, s[j].1);
      }
    }
  }

  /**
   * Every bone carries exactly one IK constraint (50 iterations, chain of
   * one bone), and its target is an existing empty sitting at the bone's
   * tail vertex.
   */
  lemma IkTargetsResolve(cols: seq<seq<Vertex>>)
    ensures |Constraints(cols)| == |Bones(cols)|
    ensures forall k :: 0 <= k < |Constraints(cols)| ==>
      var ik := Constraints(cols)[k];
      && ik.owner == Bones(cols)[k].name
      && ik.iterations == 50 && ik.chainCount == 1
      && exists e :: (0 <= e < |Empties(cols)| && Empties(cols)[e].name == ik.target
           && Empties(cols)[e].anchor == Bones(cols)[k].tail)
  {
    var s := Slots(cols, 0, 1);
    var es := Slots(cols, 1, 0);
    SlotsFacts(cols, 0, 1);
    SlotsFacts(cols, 1, 0);
    forall k | 0 <= k < |Constraints(cols)|
      ensures exists e :: (0 <= e < |Empties(cols)| && Empties(cols)[e].name == Constraints(cols)[k].target
        && Empties(cols)[e].anchor == Bones(cols)[k].tail)
    {
      var (c, r) := s[k];
      assert s[k] in s;
      assert InGrid(cols, 1, 0, c, r + 1);
      var e :| 0 <= e < |es| && es[e] == (c, r + 1);
      assert Empties(cols)[e] == EmptyFor(cols, c, r + 1);
    }
  }

  // ---------------------------------------------------------------------
  // The three loops of the script

  /** The empties loop: skips row 0 of every column. */
  method AddEmpties(cols: seq<seq<Vertex>>) returns (empties: seq<Empty>)
    ensures empties == Empties(cols)
  {
    empties := [];
    ghost var done: seq<Slot> := [];
    for c := 0 to |cols|
      invariant done == Slots(cols[..c], 1, 0)
      invariant |empties| == |done|
      invariant forall k :: 0 <= k < |done| ==>
        InGrid(cols, 1, 0, done[k].0, done[k].1) && empties[k] == EmptyFor(cols, done[k].0, done[k].1)
    {
      SlotsExtend(cols, 1, 0, c);
      var column := cols[c];
      for r := 0 to |column|
        invariant done == Slots(cols[..c], 1, 0) + Row(c, 1, r)
        invariant |empties| == |done|
        invariant forall k :: 0 <= k < |done| ==>
          InGrid(cols, 1, 0, done[k].0, done[k].1) && empties[k] == EmptyFor(cols, done[k].0, done[k].1)
      {
        if r == 0 {
          continue;
        }
        empties := empties + [Empty(EmptyName(c, r), column[r])];
        done := done + [(c, r)];
      }
    }
    assert cols[..|cols|] == cols;
  }

  /** The bone loop: rows 0 .. len(column) - 2, each parented to the bone above it. */
  method AddBones(cols: seq<seq<Vertex>>) returns (bones: seq<Bone>)
    ensures bones == Bones(cols)
  {
    bones := [];
    ghost var done: seq<Slot> := [];
    for c := 0 to |cols|
      invariant done == Slots(cols[..c], 0, 1)
      invariant |bones| == |done|
      invariant forall k :: 0 <= k < |done| ==>
        InGrid(cols, 0, 1, done[k].0, done[k].1) && bones[k] == BoneFor(cols, done[k].0, done[k].1)
    {
      SlotsExtend(cols, 0, 1, c);
      var column := cols[c];
      var r := 0;
      while r + 1 < |column|
        invariant done == Slots(cols[..c], 0, 1) + Row(c, 0, if |column| == 0 then 0 else r)
        invariant r == 0 || r < |column|
        invariant |bones| == |done|
        invariant forall k :: 0 <= k < |done| ==>
          InGrid(cols, 0, 1, done[k].0, done[k].1) && bones[k] == BoneFor(cols, done[k].0, done[k].1)
      {
        var parent := if r > 0 then Some(BoneName(c, r - 1)) else None;
        bones := bones + [Bone(BoneName(c, r), column[r], column[r + 1], parent)];
        done := done + [(c, r)];
        r := r + 1;
      }
    }
    assert cols[..|cols|] == cols;
  }

  /** The pose-mode loop: one IK constraint per bone, aimed at the empty one row below. */
  method AddConstraints(cols: seq<seq<Vertex>>) returns (iks: seq<IkConstraint>)
    ensures iks == Constraints(cols)
  {
    iks := [];
    ghost var done: seq<Slot> := [];
    for c := 0 to |cols|
      invariant done == Slots(cols[..c], 0, 1)
      invariant |iks| == |done|
      invariant forall k :: 0 <= k < |done| ==> iks[k] == IkFor(done[k].0, done[k].1)
    {
      SlotsExtend(cols, 0, 1, c);
      var r := 0;
      while r + 1 < |cols[c]|
        invariant done == Slots(cols[..c], 0, 1) + Row(c, 0, if |cols[c]| == 0 then 0 else r)
        invariant r == 0 || r < |cols[c]|
        invariant |iks| == |done|
        invariant forall k :: 0 <= k < |done| ==> iks[k] == IkFor(done[k].0, done[k].1)
      {
        iks := iks + [Ik(BoneName(c, r), EmptyName(c, r + 1), IK_ITERATIONS, IK_CHAIN_COUNT)];
        done := done + [(c, r)];
        r := r + 1;
      }
    }
    assert cols[..|cols|] == cols;
  }

  /** The three loops in script order. */
  method BuildRig(cols: seq<seq<Vertex>>) returns (rig: Rig)
    ensures rig == RigOf(cols)
  {
    var empties := AddEmpties(cols);
    var bones := AddBones(cols);
    var iks := AddConstraints(cols);
    rig := Rig(empties, bones, iks);
  }
}
