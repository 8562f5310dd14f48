/**
  A trajectory: an identifier and its time-ordered (timestamp, point) samples.
  Consecutive samples delimit the movement segments the index records.
 */
module Trajectories {
  import opened Geometry
  import opened IntervalStore

  datatype Sample = Sample(t: int, p: Point)

  datatype Trajectory = Trajectory(id: TrajId, tgpairs: seq<Sample>) {

    /** Timestamps strictly increase, so every segment is a non-empty interval. */
    predicate Increasing() {
      forall a, b :: 0 <= a < b < |tgpairs| ==> tgpairs[a].t < tgpairs[b].t
    }

    /** Each sample later than the one before it is enough for Increasing. */
    lemma {:induction false} StepsIncreasing()
      requires forall k :: 0 < k < |tgpairs| ==> tgpairs[k - 1].t < tgpairs[k].t
      ensures Increasing()
    {
      forall a, b | 0 <= a < b < |tgpairs|
        ensures tgpairs[a].t < tgpairs[b].t
      {
        var c := b;
        while c > a + 1
          invariant a < c <= b
          invariant tgpairs[c].t <= tgpairs[b].t
        {
          c := c - 1;
        }
      }
    }

    /** Segment k exists exactly when sample k has a successor. */
    function SegmentCount(): (n: nat)
      ensures n <= |tgpairs|
      ensures forall k {:trigger tgpairs[k]} :: 0 <= k < |tgpairs| ==> (k < n <==> k + 1 < |tgpairs|)
    {
      if |tgpairs| < 2 then 0 else |tgpairs| - 1
    }

    /** The interval entry segment k contributes: (t_k, t_k+1, id). */
    function SegmentEntry(k: nat): (e: Entry)
      requires k < SegmentCount()
      ensures e.start == tgpairs[k].t && e.end == tgpairs[k + 1].t && e.id == id
      // increasing timestamps give the non-null interval the store accepts
      ensures Increasing() ==> e.start < e.end
    {
      Entry(tgpairs[k].t, tgpairs[k + 1].t, id)
    }

    /** The spatial footprint of segment k: its two endpoints, not the path between them. */
    function SegmentShape(k: nat): Shape
      requires k < SegmentCount()
    {
      Footprint(tgpairs[k].p, tgpairs[k + 1].p)
    }

    /** The entries segment k leaves in a cell with rectangle `box`: its entry if it has an endpoint there. */
    function EntriesIn(k: nat, box: Rect): (r: set<Entry>)
      requires k < SegmentCount()
      ensures r <= {SegmentEntry(k)}
      ensures SegmentEntry(k) in r <==> box.Contains(tgpairs[k].p) || box.Contains(tgpairs[k + 1].p)
    {
      if Touches(k, box) then {SegmentEntry(k)} else {}
    }

    /** Segment k has an endpoint in the closed rectangle `box`. */
    predicate Touches(k: nat, box: Rect)
      requires k < SegmentCount()
    {
      box.Contains(tgpairs[k].p) || box.Contains(tgpairs[k + 1].p)
    }
  }
}
