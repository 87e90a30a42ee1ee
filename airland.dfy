/** The instance container the reader fills (class Airland of the source). */
module Airlands {
  import opened Wrappers
  import opened Errors
  import opened Planes
  import opened SepTables

  /** The state of an Airland object, as a value. */
  datatype Instance = Instance(id: int, nPlanes: int, freezeTime: int, planes: seq<Plane>, sep: SepTable)

  class Airland {
    var id: int
    var nPlanes: int
    var freezeTime: int
    var planes: seq<Plane>
    var gst: SepTable    // Gst: the separation-time graph

    function Value(): Instance
      reads this
    {
      Instance(id, nPlanes, freezeTime, planes, gst)
    }

    constructor (id: int, nPlanes: int, freezeTime: int)
      ensures this.id == id && this.nPlanes == nPlanes && this.freezeTime == freezeTime
      ensures planes == [] && gst == map[]
    {
      this.id := id;
      this.nPlanes := nPlanes;
      this.freezeTime := freezeTime;
      planes := [];
      gst := map[];
    }

    method RegisterPlane(plane: Plane)
      modifies this`planes
      ensures planes == old(planes) + [plane]
    {
      planes := planes + [plane];
    }

    method RegisterSepTime(planeId1: int, planeId2: int, sepTime: int)
      modifies this`gst
      ensures gst == Register(old(gst), planeId1, planeId2, sepTime)
    {
      gst := Register(gst, planeId1, planeId2, sepTime);
    }

    /** The sep_time of the edge {planeId1, planeId2}; KeyError when no such edge was added. */
    method GetSepTime(planeId1: int, planeId2: int) returns (r: Result<int, Error>)
      ensures Lookup(gst, planeId1, planeId2) == None ==> r == Err(KeyError)
      ensures Lookup(gst, planeId1, planeId2).Some? ==> r == Ok(Lookup(gst, planeId1, planeId2).value)
      ensures r.Ok? ==> Lookup(gst, planeId2, planeId1) == Some(r.value)
    {
      LookupSymmetric(gst, planeId1, planeId2);
      var e := Key(planeId1, planeId2);
      if e in gst {
        r := Ok(gst[e]);
      } else {
        r := Err(KeyError);
      }
    }

    /** One entry per registered unordered pair, self-pairs included, carrying the pair's
        sep_time s where networkx gives the attribute dict {'sep_time': s}. */
    method GetAllSepTimes() returns (es: set<(int, int, int)>)
      ensures forall e :: e in gst ==> (e.lo, e.hi, gst[e]) in es
      ensures forall t :: t in es ==> t.0 <= t.1 && Lookup(gst, t.0, t.1) == Some(t.2)
      ensures forall t, u :: t in es && u in es && t.0 == u.0 && t.1 == u.1 ==> t == u
    {
      es := Entries(gst);
    }

    /** The planes, in the order they were registered. */
    method GetPlanes() returns (ps: seq<Plane>)
      ensures ps == planes
    {
      ps := planes;
    }
  }
}
