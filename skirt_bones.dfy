/**
 * The bone script from mesh to rig: extract the grid of vertex columns,
 * then lay the empties, bones and IK constraints over it. The script
 * stops at the first error of the extraction and creates nothing.
 */
module SkirtBones {
  import opened Wrappers
  import opened Adjacency
  import opened GridExtract
  import opened Skeleton

  method BuildSkirtRig(edges: seq<Edge>, elev: Elevation) returns (res: Result<(Extraction, Rig), MeshError>)
    ensures res.Ok? ==> var (x, rig) := res.value;
      && ExtractedFrom(NeighborsOf(edges), elev, x)
      && rig == RigOf(x.columns)
    ensures Closed(NeighborsOf(edges)) && Ascend(NeighborsOf(edges), elev, 0).Err? ==>
      res == Err(Ascend(NeighborsOf(edges), elev, 0).error)
    ensures (forall u :: !Joined(edges, 0, u)) ==> res == Err(Isolated(0))
    ensures res.Err? ==> ExtractionFails(NeighborsOf(edges), elev, res.error)
  {
    var grid := ExtractGrid(edges, elev);
    if grid.Err? {
      return Err(grid.error);
    }
    var rig := BuildRig(grid.value.columns);
    return Ok((grid.value, rig));
  }
}
