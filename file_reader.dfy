/** The loader (class FileReader of the source). The class has no state of its own, so its
    methods are module-level methods here; the file they read and the Airland they fill are
    objects they update. Each is proved to compute what the functions of InstanceFormat say. */
module FileReader {
  import opened Wrappers
  import opened Errors
  import opened Tokens
  import opened Planes
  import opened SepTables
  import opened Airlands
  import opened LineFiles
  import opened InstanceFormat

  /** __read_plane_profile: read one line, build plane `planeId` from it and register it.
      Any exception leaves the plane list as it was. */
  method ReadPlaneProfile(file: LineFile, planeId: int, airland: Airland) returns (o: Outcome<Error>)
    requires file.Valid()
    modifies file, airland`planes
    ensures file.Valid() && file.pos == Next(file.lines, old(file.pos))
    ensures var r := ParseProfile(LineAt(file.lines, old(file.pos)), planeId, airland.id);
      && (r.Ok? ==> o == Pass && airland.planes == old(airland.planes) + [r.value])
      && (r.Err? ==> o == Fail(r.error) && airland.planes == old(airland.planes))
  {
    var profile := file.ReadLine();
    var plane := ParseProfile(profile, planeId, airland.id);
    if plane.Err? {
      return Fail(plane.error);
    }
    airland.RegisterPlane(plane.value);
    return Pass;
  }

  /** The for loop of __read_sep_times: register int(val) in column n + j for the j-th token
      of the line, stopping with a ValueError at the first token int() rejects. */
  method RegisterLine(lineTimes: Line, planeId: int, n: int, airland: Airland) returns (o: Outcome<Error>)
    modifies airland`gst
    ensures o == Pass <==> AllInts(lineTimes)
    ensures o.Fail? ==> o.error == ValueError
    ensures o == Pass ==> airland.gst == RegisterRow(old(airland.gst), planeId, n, IntValues(lineTimes))
  {
    var j := 0;
    while j < |lineTimes|
      invariant 0 <= j <= |lineTimes|
      invariant AllInts(lineTimes[..j])
      invariant airland.gst == RegisterRow(old(airland.gst), planeId, n, IntValues(lineTimes[..j]))
    {
      if !lineTimes[j].IntLit? {
        return Fail(ValueError);
      }
      IntValuesSnoc(lineTimes, j);
      RegisterRowSnoc(old(airland.gst), planeId, n, IntValues(lineTimes[..j]), lineTimes[j].v);
      airland.RegisterSepTime(planeId, n + j, lineTimes[j].v);
      j := j + 1;
    }
    assert lineTimes[..j] == lineTimes;
    return Pass;
  }

  /** __read_sep_times: read lines of separation times for row `planeId` until at least
      `nPlanes` values were read, registering the value in column n + j for the j-th token
      of a line that starts at column n. */
  method ReadSepTimes(file: LineFile, nPlanes: int, planeId: int, airland: Airland) returns (o: Outcome<Error>)
    requires file.Valid()
    modifies file, airland`gst
    ensures file.Valid()
    ensures var r := SepLoop(file.lines, old(file.pos), nPlanes, []);
      && (o == Pass <==> r.Ok?)
      && (r.Ok? ==> file.pos == r.value.0 && airland.gst == RegisterRow(old(airland.gst), planeId, 0, r.value.1))
      && (r.Err? ==> o == Fail(r.error))
  {
    var n := 0;
    ghost var vals: seq<int> := [];
    while n < nPlanes
      invariant file.Valid()
      invariant n == |vals|
      invariant SepLoop(file.lines, old(file.pos), nPlanes, []) == SepLoop(file.lines, file.pos, nPlanes, vals)
      invariant airland.gst == RegisterRow(old(airland.gst), planeId, 0, vals)
      decreases |file.lines| - file.pos
    {
      if file.pos == |file.lines| {
        // readline() keeps returning '' and n never grows again
        return Fail(NeverEnds);
      }
      ghost var pos := file.pos;
      SepLoopTurn(file.lines, pos, nPlanes, vals);
      var lineTimes := file.ReadLine();
      assert lineTimes == file.lines[pos] && file.pos == pos + 1;
      var step := RegisterLine(lineTimes, planeId, n, airland);
      if step.Fail? {
        return step;
      }
      RegisterRowAppend(old(airland.gst), planeId, 0, vals, IntValues(lineTimes));
      n := n + |lineTimes|;
      vals := vals + IntValues(lineTimes);
    }
    return Pass;
  }

  /** The for loop of read: the profile and the separation times of planes 0 .. n_planes-1,
      in turn, stopping at the first exception. */
  method ReadAllPlanes(f: LineFile, airland: Airland) returns (o: Outcome<Error>)
    requires f.Valid()
    modifies f, airland`planes, airland`gst
    ensures f.Valid()
    ensures var r := ReadPlanes(f.lines, old(f.pos), 0, old(airland.Value()));
      && (o == Pass <==> r.Ok?)
      && (r.Ok? ==> airland.Value() == r.value)
      && (r.Err? ==> o == Fail(r.error))
  {
    var planeId := 0;
    while planeId < airland.nPlanes
      invariant f.Valid()
      invariant ReadPlanes(f.lines, old(f.pos), 0, old(airland.Value()))
             == ReadPlanes(f.lines, f.pos, planeId, airland.Value())
      decreases airland.nPlanes - planeId
    {
      ghost var inst, pos := airland.Value(), f.pos;
      ReadPlanesTurn(f.lines, pos, planeId, inst);
      o := ReadPlaneProfile(f, planeId, airland);
      if o.Fail? {
        return;
      }
      o := ReadSepTimes(f, airland.nPlanes, planeId, airland);
      if o.Fail? {
        return;
      }
      planeId := planeId + 1;
    }
    return Pass;
  }

  /** read(file_path), on the file whose split lines are `contents`. */
  method Read(filePath: string, contents: seq<Line>) returns (r: Result<Airland, Error>)
    ensures r.Ok? <==> ReadSpec(filePath, contents).Ok?
    ensures r.Ok? ==> fresh(r.value) && r.value.Value() == ReadSpec(filePath, contents).value
    ensures r.Err? ==> r.error == ReadSpec(filePath, contents).error
  {
    var airlandId :- AirlandId(filePath);
    var f := new LineFile(contents);
    var header := f.ReadLine();
    var counts :- ParseHeader(header);
    var airland := new Airland(airlandId, counts.0, counts.1);
    var o := ReadAllPlanes(f, airland);
    if o.Fail? {
      return Err(o.error);
    }
    return Ok(airland);
  }
}
